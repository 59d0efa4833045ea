/** Frames as section 4.1 of RFC 7540 lays them out are the frames the engine reads. */
module Http2Layout {
  import opened Bits
  import opened Http2

  /** A frame to be written; `priority` is a dependency and a weight, or nothing. */
  datatype Laid = Laid(typ: byte, flags: byte, stream: nat, priority: seq<byte>, data: seq<byte>)

  /** Bit 5 of the flags tells of a priority, which takes five bytes of the length. */
  predicate IsLaid(f: Laid) {
    && f.stream < 0x1_0000_0000 && |f.priority| + |f.data| < 0x100_0000
    && |f.priority| == if f.flags / 0x20 % 2 == 1 then 5 else 0
  }

  /** Length, type, flags, stream, and what the length counts. */
  function FrameBytes(f: Laid): seq<byte>
    requires IsLaid(f)
  {
    var n := |f.priority| + |f.data|;
    [n / 0x1_0000 % 0x100, n / 0x100 % 0x100, n % 0x100]
    + [f.typ] + [f.flags]
    + [f.stream / 0x100_0000 % 0x100, f.stream / 0x1_0000 % 0x100, f.stream / 0x100 % 0x100, f.stream % 0x100]
    + f.priority + f.data
  }

  lemma Header(f: Laid)
    requires IsLaid(f)
    ensures var b, n := FrameBytes(f), |f.priority| + |f.data|;
            && |b| == 9 + n && b[9..9 + |f.priority|] == f.priority && b[9 + |f.priority|..] == f.data
            && b[0] as nat * 0x1_0000 + b[1] as nat * 0x100 + b[2] as nat == n && b[3] == f.typ && b[4] == f.flags
            && b[5] as nat * 0x100_0000 + b[6] as nat * 0x1_0000 + b[7] as nat * 0x100 + b[8] as nat == f.stream
  {
    var n := |f.priority| + |f.data|;
    Digits24(n);
    Digits32(f.stream);
  }

  lemma Digits24(n: nat)
    requires n < 0x100_0000
    ensures n / 0x1_0000 % 0x100 * 0x1_0000 + n / 0x100 % 0x100 * 0x100 + n % 0x100 == n
  {
  }

  lemma Digits32(n: nat)
    requires n < 0x1_0000_0000
    ensures n / 0x100_0000 % 0x100 * 0x100_0000 + n / 0x1_0000 % 0x100 * 0x1_0000 + n / 0x100 % 0x100 * 0x100 + n % 0x100 == n
  {
  }

  lemma FlagIs(flags: byte)
    ensures TestBit(flags, 5) <==> flags / 0x20 % 2 == 1
  {
    assert Pow2(5) == 32;
  }

  /** A frame is read as it is laid out, wherever it stands. */
  lemma FrameIsRead(before: seq<byte>, f: Laid, after: seq<byte>)
    requires IsLaid(f)
    ensures var buf, i := before + FrameBytes(f) + after, |before|;
            && Complete(buf, i) && Roomy(buf, i) && i + PREAMBLE + SizeAt(buf, i) == |before + FrameBytes(f)|
            && FrameAt(buf, i) == Frame(f.typ, f.flags, f.stream, f.data)
  {
    hide FrameBytes, TestBit;
    var b, buf, i := FrameBytes(f), before + FrameBytes(f) + after, |before|;
    Header(f);
    FlagIs(f.flags);
    assert buf[i..i + |b|] == b;
    assert forall k :: 0 <= k < 9 ==> buf[i + k] == b[k];
    assert buf[i + 9 + |f.priority|..i + |b|] == b[9 + |f.priority|..];
  }

  function AllBytes(fs: seq<Laid>): seq<byte>
    requires forall k :: 0 <= k < |fs| ==> IsLaid(fs[k])
  {
    if fs == [] then [] else FrameBytes(fs[0]) + AllBytes(fs[1..])
  }

  function FramesOf(fs: seq<Laid>): seq<Frame> {
    seq(|fs|, k requires 0 <= k < |fs| => Frame(fs[k].typ, fs[k].flags, fs[k].stream, fs[k].data))
  }

  /** So are frames one after the other. */
  lemma {:induction false} FramesAreRead(before: seq<byte>, fs: seq<Laid>)
    requires forall k :: 0 <= k < |fs| ==> IsLaid(fs[k])
    ensures var buf := before + AllBytes(fs);
            RoomForPriority(buf, |before|) && Frames(buf, |before|) == FramesOf(fs) && FramesEnd(buf, |before|) == |buf|
    decreases |fs|
  {
    hide FrameBytes, Complete, FrameAt, Roomy;
    var buf := before + AllBytes(fs);
    if fs == [] {
      EndOfBuffer(buf);
    } else {
      var first, rest := FrameBytes(fs[0]), AllBytes(fs[1..]);
      assert buf == before + first + rest;
      FrameIsRead(before, fs[0], rest);
      FramesAreRead(before + first, fs[1..]);
      assert FramesOf(fs) == [FramesOf(fs)[0]] + FramesOf(fs[1..]);
    }
  }

  lemma EndOfBuffer(buf: seq<byte>)
    ensures !Complete(buf, |buf|)
  {
  }

  /** Section 3.5: the connection preface. */
  lemma Preface()
    ensures |Magic| == 24 && forall k :: 0 <= k < 24 ==> Magic[k] == "PRI * HTTP/2.0\r\n\r\nSM\r\n\r\n"[k] as int
  {
  }
}
