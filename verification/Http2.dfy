/** The HTTP/2 inspection engine: frames taken from a flow that grows between calls. */
module Http2 {
  import opened Bits

  /** Who sent a flow entry: the client ('r', left) or the server ('w', right). */
  datatype Side = Left | Right

  datatype Entry = Entry(source: Side, data: seq<byte>)

  datatype Frame = Frame(typ: byte, flags: byte, stream: nat, data: seq<byte>)

  /** A frame handed on, with the side it came from. */
  datatype Handled = Handled(side: Side, frame: Frame)

  const PREAMBLE := 9
  const PRIORITY := 5

  /** RFC 7540, section 3.5. */
  const Magic: seq<byte> :=
    [0x50, 0x52, 0x49, 0x20, 0x2a, 0x20, 0x48, 0x54, 0x54, 0x50, 0x2f, 0x32, 0x2e, 0x30, 0x0d, 0x0a,
     0x0d, 0x0a, 0x53, 0x4d, 0x0d, 0x0a, 0x0d, 0x0a]

  predicate StartsWithMagic(data: seq<byte>) {
    |data| >= |Magic| && data[..|Magic|] == Magic
  }

  // ----- the frames of a buffer -----

  /** The 24-bit length at the start of a frame. */
  function SizeAt(buf: seq<byte>, i: nat): (n: nat)
    requires i + PREAMBLE <= |buf|
  {
    buf[i] as nat * 0x1_0000 + buf[i + 1] as nat * 0x100 + buf[i + 2] as nat
  }

  /** A whole frame begins at `i`, and what a priority is read from is there too. */
  predicate Complete(buf: seq<byte>, i: nat) {
    i + PREAMBLE <= |buf| && i + PREAMBLE + SizeAt(buf, i) <= |buf| && (HasPriority(buf, i) ==> i + PREAMBLE + PRIORITY <= |buf|)
  }

  /** Bit 5 of the flags: a dependency and a weight come before the data. */
  predicate HasPriority(buf: seq<byte>, i: nat)
    requires i + PREAMBLE <= |buf|
  {
    TestBit(buf[i + 4], 5)
  }

  /** The data of a frame have room for its priority, or there are none. */
  predicate Roomy(buf: seq<byte>, i: nat)
    requires i + PREAMBLE <= |buf|
  {
    HasPriority(buf, i) ==> SizeAt(buf, i) == 0 || SizeAt(buf, i) >= PRIORITY
  }

  function FrameAt(buf: seq<byte>, i: nat): Frame
    requires Complete(buf, i) && Roomy(buf, i)
  {
    var from := i + PREAMBLE + if HasPriority(buf, i) then PRIORITY else 0;
    Frame(buf[i + 3], buf[i + 4], Val32(buf, i + 5), if SizeAt(buf, i) == 0 then [] else buf[from..i + PREAMBLE + SizeAt(buf, i)])
  }

  function Val32(buf: seq<byte>, i: nat): nat
    requires i + 4 <= |buf|
  {
    buf[i] as nat * 0x100_0000 + buf[i + 1] as nat * 0x1_0000 + buf[i + 2] as nat * 0x100 + buf[i + 3] as nat
  }

  /** So it is with every whole frame from `i` on. */
  predicate RoomForPriority(buf: seq<byte>, i: nat)
    decreases |buf| - i
  {
    Complete(buf, i) ==>
      Roomy(buf, i) && RoomForPriority(buf, i + PREAMBLE + SizeAt(buf, i))
  }

  /** The whole frames from `i` on. */
  function Frames(buf: seq<byte>, i: nat): seq<Frame>
    requires RoomForPriority(buf, i)
    decreases |buf| - i
  {
    if Complete(buf, i) then [FrameAt(buf, i)] + Frames(buf, i + PREAMBLE + SizeAt(buf, i)) else []
  }

  /** Where the first frame begins that is not whole. */
  function FramesEnd(buf: seq<byte>, i: nat): (e: nat)
    ensures i <= e && (i <= |buf| ==> e <= |buf|) && !Complete(buf, e)
    decreases |buf| - i
  {
    if Complete(buf, i) then FramesEnd(buf, i + PREAMBLE + SizeAt(buf, i)) else i
  }

  function Mark(side: Side, frames: seq<Frame>): (h: seq<Handled>)
    ensures |h| == |frames| && forall k :: 0 <= k < |h| ==> h[k] == Handled(side, frames[k])
  {
    seq(|frames|, k requires 0 <= k < |frames| => Handled(side, frames[k]))
  }

  lemma MarkConcat(side: Side, a: seq<Frame>, b: seq<Frame>)
    ensures Mark(side, a + b) == Mark(side, a) + Mark(side, b)
  {
  }

  /** A frame that is whole stays the same frame when the buffer grows. */
  lemma GrownFrame(a: seq<byte>, b: seq<byte>, i: nat)
    requires a <= b && Complete(a, i)
    ensures Complete(b, i) && SizeAt(b, i) == SizeAt(a, i) && (Roomy(a, i) <==> Roomy(b, i))
    ensures Roomy(a, i) ==> FrameAt(b, i) == FrameAt(a, i)
  {
    assert forall k :: 0 <= k < |a| ==> a[k] == b[k];
    var end := i + PREAMBLE + SizeAt(a, i);
    assert SizeAt(b, i) == SizeAt(a, i);
    assert a[i + PREAMBLE..end] == b[i + PREAMBLE..end];
    if end >= i + PREAMBLE + PRIORITY {
      assert a[i + PREAMBLE + PRIORITY..end] == b[i + PREAMBLE + PRIORITY..end];
    }
  }

  /** Continuing where the shorter buffer stopped gives the frames of the longer one. */
  lemma {:induction false} Resume(a: seq<byte>, b: seq<byte>, i: nat)
    requires a <= b && RoomForPriority(b, i)
    ensures RoomForPriority(a, i) && RoomForPriority(b, FramesEnd(a, i))
    ensures Frames(b, i) == Frames(a, i) + Frames(b, FramesEnd(a, i))
    ensures FramesEnd(b, i) == FramesEnd(b, FramesEnd(a, i))
    decreases |a| - i
  {
    hide FrameAt, Roomy, SizeAt;
    if Complete(a, i) {
      var next := i + PREAMBLE + SizeAt(a, i);
      GrownFrame(a, b, i);
      Resume(a, b, next);
      Regroup([FrameAt(a, i)], Frames(a, next), Frames(b, FramesEnd(a, next)));
    }
  }

  lemma Regroup<T>(x: seq<T>, y: seq<T>, z: seq<T>)
    ensures x + (y + z) == x + y + z
  {
  }

  // ----- the engine -----

  datatype Status = START | MAGIC

  /** `state_info`: the number of flow entries and the offset that were current when it was saved. */
  datatype Saved = Nothing | Saved(entries: nat, offset: nat)

  /** `EngineCtx`: what `state_data` holds is not modelled, only whether it is there. */
  datatype Ctx = Ctx(status: Status, info: Saved, connected: bool, handled: seq<Handled>)

  const Idle := Ctx(START, Nothing, false, [])

  /** `load_prev_state` */
  function Resumed(c: Ctx, entries: nat): nat {
    if c.connected && c.info.Saved? && c.info.entries == entries then c.info.offset else 0
  }

  /** Whether the magic is looked for in this call. */
  predicate LooksForMagic(c: Ctx, flow: seq<Entry>)
    requires flow != []
  {
    flow[|flow| - 1].source == Left && c.status == START
  }

  /** What `start` makes of the context. */
  function Started(c: Ctx, flow: seq<Entry>, flowPos: nat): Ctx
    requires flow != []
    requires RoomForPriority(flow[|flow| - 1].data, Begin(c, flow, flowPos))
  {
    var data, side := flow[|flow| - 1].data, flow[|flow| - 1].source;
    if Resumed(c, |flow|) >= |data| then c
    else
      var i := Begin(c, flow, flowPos);
      var d := AfterMagic(c, flow, flowPos);
      if LooksForMagic(c, flow) && SeesMagic(c, flow, flowPos) && |Magic| + 4 > |data| then d
      else d.(info := Saved(|flow|, FramesEnd(data, i)), handled := c.handled + Mark(side, Frames(data, i)))
  }

  /** The magic stands where reading resumes, and it is looked for early enough in the flow. */
  predicate SeesMagic(c: Ctx, flow: seq<Entry>, flowPos: nat)
    requires flow != []
  {
    var data := flow[|flow| - 1].data;
    var from := Resumed(c, |flow|);
    flowPos < 5 && |data| >= |Magic| && from <= |data| && StartsWithMagic(data[from..])
  }

  /** Where frames begin. */
  function Begin(c: Ctx, flow: seq<Entry>, flowPos: nat): nat
    requires flow != []
  {
    Resumed(c, |flow|) + if LooksForMagic(c, flow) && SeesMagic(c, flow, flowPos) then |Magic| else 0
  }

  function AfterMagic(c: Ctx, flow: seq<Entry>, flowPos: nat): Ctx
    requires flow != []
  {
    if !LooksForMagic(c, flow) then c
    else if SeesMagic(c, flow, flowPos) then c.(status := MAGIC, info := Saved(|flow|, Begin(c, flow, flowPos)), connected := true)
    else if flowPos < 5 && |flow[|flow| - 1].data| >= |Magic| then c
    else c.(status := MAGIC)
  }

  // ----- runs -----

  /** What arrives between two calls: more bytes of the last entry, or a new entry. */
  datatype Delivery = More(data: seq<byte>) | Next(entry: Entry)

  function Last(flow: seq<Entry>): Entry
    requires flow != []
  {
    flow[|flow| - 1]
  }

  function Delivered(flow: seq<Entry>, d: Delivery): (r: seq<Entry>)
    requires flow != []
    ensures r != []
  {
    match d
    case More(data) => flow[..|flow| - 1] + [Entry(Last(flow).source, Last(flow).data + data)]
    case Next(entry) => flow + [entry]
  }

  function FlowAfter(first: Entry, ds: seq<Delivery>): (flow: seq<Entry>)
    ensures flow != []
  {
    if ds == [] then [first] else Delivered(FlowAfter(first, ds[..|ds| - 1]), ds[|ds| - 1])
  }

  /** Where the frames of entry `k` begin, when the magic was taken from entry `m`, or from none. */
  function FramesFrom(k: nat, m: int): nat {
    if k == m then |Magic| else 0
  }

  predicate ReadableEntry(data: seq<byte>) {
    RoomForPriority(data, 0) && (StartsWithMagic(data) ==> RoomForPriority(data, |Magic|))
  }

  ghost predicate Readable(flow: seq<Entry>) {
    forall k :: 0 <= k < |flow| ==> ReadableEntry(flow[k].data)
  }

  /** The magic is the beginning of entry `m`, the client's, or of none. */
  predicate Origin(flow: seq<Entry>, m: int) {
    m == -1 || (0 <= m < |flow| && flow[m].source == Left && StartsWithMagic(flow[m].data))
  }

  lemma ReadableFrom(flow: seq<Entry>, m: int, k: nat)
    requires Readable(flow) && Origin(flow, m) && k < |flow|
    ensures RoomForPriority(flow[k].data, FramesFrom(k, m))
  {
  }

  /** The whole frames of the first `n` entries, each read from its beginning. */
  ghost function FlowFrames(flow: seq<Entry>, n: nat, m: int): seq<Handled>
    requires n <= |flow| && Readable(flow) && Origin(flow, m)
  {
    if n == 0 then []
    else
      ReadableFrom(flow, m, n - 1);
      FlowFrames(flow, n - 1, m) + Mark(flow[n - 1].source, Frames(flow[n - 1].data, FramesFrom(n - 1, m)))
  }

  /** Once the magic has been seen, an offset is kept: the end of the whole frames of the last entry. Until then, it can
      only be seen in an entry whose first bytes come with the call. */
  ghost predicate Follows(c: Ctx, flow: seq<Entry>, m: int) {
    && flow != [] && Readable(flow) && Origin(flow, m) && (c.connected <==> m >= 0)
    && (c.connected ==>
          && c.status == MAGIC && (c.info.Saved? ==> c.info.entries <= |flow|)
          && Resumed(c, |flow|) == FramesEnd(Last(flow).data, FramesFrom(|flow| - 1, m)))
    && (!c.connected && c.status == START && Last(flow).source == Left ==>
          Last(flow).data == [] || (|Last(flow).data| >= |Magic| && !StartsWithMagic(Last(flow).data)))
  }

  /** `again` times a frame has been handled that was handled before; all others once, in order. */
  ghost predicate Counted(c: Ctx, flow: seq<Entry>, m: int, again: nat)
    requires Readable(flow) && Origin(flow, m)
  {
    && |c.handled| == |FlowFrames(flow, |flow|, m)| + again
    && (again == 0 ==> c.handled == FlowFrames(flow, |flow|, m))
  }

  // ----- one call -----

  /** The magic is taken from the last entry in this call. */
  predicate TakesMagic(c: Ctx, flow: seq<Entry>, flowPos: nat)
    requires flow != []
  {
    !c.connected && LooksForMagic(c, flow) && SeesMagic(c, flow, flowPos)
  }

  lemma NoFrames(side: Side)
    ensures FramesEnd([], 0) == 0 && RoomForPriority([], 0) && Frames([], 0) == [] && Mark(side, []) == []
  {
  }

  lemma TooShortForFrames(data: seq<byte>)
    requires |Magic| <= |data| < |Magic| + 4
    ensures RoomForPriority(data, |Magic|) && Frames(data, |Magic|) == [] && FramesEnd(data, |Magic|) == |Magic|
  {
  }

  /** A call without an offset and without the magic reads the last entry from its first byte. */
  lemma OpenCall(c: Ctx, flow: seq<Entry>, flowPos: nat)
    requires flow != [] && !c.connected && !TakesMagic(c, flow, flowPos) && RoomForPriority(Last(flow).data, 0)
    ensures Begin(c, flow, flowPos) == 0
    ensures var d := Started(c, flow, flowPos);
            && !d.connected && d.handled == c.handled + Mark(Last(flow).source, Frames(Last(flow).data, 0))
            && (d.status == START && Last(flow).source == Left ==>
                  Last(flow).data == [] || (|Last(flow).data| >= |Magic| && !StartsWithMagic(Last(flow).data)))
  {
    hide RoomForPriority, Frames, FramesEnd, Mark, StartsWithMagic;
    var data := Last(flow).data;
    assert data[0..] == data;
    NoFrames(Last(flow).source);
  }

  /** The call that takes the magic reads what is behind it, and keeps the offset. */
  lemma FirstCall(c: Ctx, flow: seq<Entry>, flowPos: nat)
    requires flow != [] && TakesMagic(c, flow, flowPos) && RoomForPriority(Last(flow).data, |Magic|)
    ensures Begin(c, flow, flowPos) == |Magic| && StartsWithMagic(Last(flow).data)
    ensures var d := Started(c, flow, flowPos);
            && d.connected && d.status == MAGIC && d.handled == c.handled + Mark(Left, Frames(Last(flow).data, |Magic|))
            && d.info.Saved? && d.info.entries == |flow| && Resumed(d, |flow|) == FramesEnd(Last(flow).data, |Magic|)
  {
    hide RoomForPriority, Frames, FramesEnd, Mark, StartsWithMagic;
    var data := Last(flow).data;
    assert data[0..] == data;
    NoFrames(Left);
    MagicIsLong(data);
    if |data| < |Magic| + 4 {
      TooShortForFrames(data);
    }
  }

  lemma MagicIsLong(data: seq<byte>)
    requires StartsWithMagic(data)
    ensures |data| >= |Magic|
  {
  }

  lemma NothingBeyond(buf: seq<byte>, e: nat, side: Side)
    requires e >= |buf|
    ensures RoomForPriority(buf, e) && Frames(buf, e) == [] && FramesEnd(buf, e) == e && Mark(side, []) == []
  {
  }

  /** A later call reads on from the offset. */
  lemma LaterCall(c: Ctx, flow: seq<Entry>, flowPos: nat)
    requires flow != [] && c.connected && c.status == MAGIC && (c.info.Saved? ==> c.info.entries <= |flow|)
    requires RoomForPriority(Last(flow).data, Resumed(c, |flow|))
    ensures Begin(c, flow, flowPos) == Resumed(c, |flow|)
    ensures var d, i := Started(c, flow, flowPos), Resumed(c, |flow|);
            && d.connected && d.status == MAGIC && (d.info.Saved? ==> d.info.entries <= |flow|)
            && d.handled == c.handled + Mark(Last(flow).source, Frames(Last(flow).data, i))
            && Resumed(d, |flow|) == FramesEnd(Last(flow).data, i)
  {
    hide RoomForPriority, Frames, FramesEnd, Mark, StartsWithMagic;
    if Resumed(c, |flow|) >= |Last(flow).data| {
      NothingBeyond(Last(flow).data, Resumed(c, |flow|), Last(flow).source);
    }
  }

  // ----- the frames of a growing flow -----

  lemma {:induction false} SameFrames(a: seq<Entry>, b: seq<Entry>, n: nat, m: int, m': int)
    requires Readable(a) && Readable(b) && Origin(a, m) && Origin(b, m') && n <= |a| && n <= |b| && a[..n] == b[..n]
    requires m == m' || (m == -1 && m' >= n)
    ensures FlowFrames(a, n, m) == FlowFrames(b, n, m')
  {
    if n > 0 {
      assert a[..n - 1] == a[..n][..n - 1] && b[..n - 1] == b[..n][..n - 1];
      assert a[n - 1] == a[..n][n - 1] == b[..n][n - 1] == b[n - 1];
      SameFrames(a, b, n - 1, m, m');
    }
  }

  lemma LastFrames(flow: seq<Entry>, m: int)
    requires flow != [] && Readable(flow) && Origin(flow, m)
    ensures var n := |flow| - 1;
            && RoomForPriority(flow[n].data, FramesFrom(n, m))
            && FlowFrames(flow, n + 1, m) == FlowFrames(flow, n, m) + Mark(flow[n].source, Frames(flow[n].data, FramesFrom(n, m)))
  {
    hide Frames, RoomForPriority, Mark;
    ReadableFrom(flow, m, |flow| - 1);
  }

  /** After more bytes: the frames it had, and those from where they ended. */
  lemma MoreFrames(flow: seq<Entry>, flow': seq<Entry>, m: int)
    requires flow != [] && |flow| == |flow'| && Readable(flow) && Readable(flow') && Origin(flow, m) && Origin(flow', m)
    requires flow[..|flow| - 1] == flow'[..|flow| - 1] && Last(flow).source == Last(flow').source && Last(flow).data <= Last(flow').data
    ensures var n := |flow| - 1;
            var b, e := Last(flow').data, FramesEnd(Last(flow).data, FramesFrom(n, m));
            && RoomForPriority(b, e) && FramesEnd(b, FramesFrom(n, m)) == FramesEnd(b, e)
            && RoomForPriority(b, FramesFrom(n, m)) && RoomForPriority(Last(flow).data, FramesFrom(n, m))
            && FlowFrames(flow', n + 1, m) == FlowFrames(flow, n + 1, m) + Mark(Last(flow).source, Frames(b, e))
            && Frames(b, FramesFrom(n, m)) == Frames(Last(flow).data, FramesFrom(n, m)) + Frames(b, e)
  {
    hide Frames, FramesEnd, RoomForPriority, Mark, Complete, FlowFrames, FramesFrom, Readable, Origin;
    var n := |flow| - 1;
    var side, a, b, i := Last(flow).source, Last(flow).data, Last(flow').data, FramesFrom(n, m);
    LastFrames(flow, m);
    LastFrames(flow', m);
    Resume(a, b, i);
    SameFrames(flow, flow', n, m, m);
    MarkConcat(side, Frames(a, i), Frames(b, FramesEnd(a, i)));
    Regroup(FlowFrames(flow, n, m), Mark(side, Frames(a, i)), Mark(side, Frames(b, FramesEnd(a, i))));
  }

  /** After a new entry: the frames it had, and those of the entry. */
  lemma NextFrames(flow: seq<Entry>, entry: Entry, m: int, m': int)
    requires Readable(flow) && Readable(flow + [entry]) && Origin(flow, m) && Origin(flow + [entry], m')
    requires m == m' || (m == -1 && m' == |flow|)
    ensures RoomForPriority(entry.data, FramesFrom(|flow|, m'))
    ensures FlowFrames(flow + [entry], |flow| + 1, m')
         == FlowFrames(flow, |flow|, m) + Mark(entry.source, Frames(entry.data, FramesFrom(|flow|, m')))
  {
    hide Frames, RoomForPriority, Mark, FlowFrames, FramesFrom, Readable;
    SameFrames(flow, flow + [entry], |flow|, m, m');
    LastFrames(flow + [entry], m');
  }

  // ----- calls in a run -----

  /** The entry that the magic has been taken from, after one more call. */
  function OriginAfter(c: Ctx, flow: seq<Entry>, m: int, flowPos: nat): int
    requires flow != []
  {
    if TakesMagic(c, flow, flowPos) then |flow| - 1 else m
  }

  /** How many frames one more call handles that were handled before: without an offset, those an entry had before it
      has grown. */
  function Repeated(c: Ctx, flow: seq<Entry>, d: Delivery): nat
    requires flow != [] && RoomForPriority(Last(flow).data, 0)
  {
    if !c.connected && d.More? then |Frames(Last(flow).data, 0)| else 0
  }

  /** One more call keeps up, whatever has arrived. */
  lemma NextCall(c: Ctx, flow: seq<Entry>, m: int, again: nat, d: Delivery, flowPos: nat)
    requires Follows(c, flow, m) && Counted(c, flow, m, again) && Readable(Delivered(flow, d))
    ensures var flow' := Delivered(flow, d);
            && RoomForPriority(Last(flow').data, Begin(c, flow', flowPos))
            && Follows(Started(c, flow', flowPos), flow', OriginAfter(c, flow', m, flowPos))
            && Counted(Started(c, flow', flowPos), flow', OriginAfter(c, flow', m, flowPos), again + Repeated(c, flow, d))
  {
    match d
    case More(data) => MoreCall(c, flow, m, again, data, flowPos);
    case Next(entry) => NextEntryCall(c, flow, m, again, entry, flowPos);
  }

  lemma NextEntryCall(c: Ctx, flow: seq<Entry>, m: int, again: nat, entry: Entry, flowPos: nat)
    requires Follows(c, flow, m) && Counted(c, flow, m, again) && Readable(flow + [entry])
    ensures var flow' := Delivered(flow, Next(entry));
            && RoomForPriority(Last(flow').data, Begin(c, flow', flowPos))
            && Follows(Started(c, flow', flowPos), flow', OriginAfter(c, flow', m, flowPos))
            && Counted(Started(c, flow', flowPos), flow', OriginAfter(c, flow', m, flowPos), again)
  {
    hide Frames, FramesEnd, RoomForPriority, Mark, StartsWithMagic, FlowFrames;
    var flow' := flow + [entry];
    assert ReadableEntry(flow'[|flow|].data);
    if c.connected {
      NextFrames(flow, entry, m, m);
      LaterCall(c, flow', flowPos);
    } else if TakesMagic(c, flow', flowPos) {
      assert StartsWithMagic(entry.data) by { assert entry.data[0..] == entry.data; }
      FirstCall(c, flow', flowPos);
      NextFrames(flow, entry, m, |flow|);
    } else {
      OpenCall(c, flow', flowPos);
      NextFrames(flow, entry, m, m);
    }
  }

  lemma SameMagic(a: seq<byte>, b: seq<byte>)
    requires a <= b
    ensures StartsWithMagic(a) ==> StartsWithMagic(b)
    ensures |a| >= |Magic| ==> (StartsWithMagic(a) <==> StartsWithMagic(b))
  {
    if |a| >= |Magic| {
      assert a[..|Magic|] == b[..|Magic|];
    }
  }

  /** The magic comes with the first bytes of an entry, which had no frames before. */
  lemma MagicFrames(flow: seq<Entry>, flow': seq<Entry>)
    requires flow != [] && |flow| == |flow'| && Readable(flow) && Readable(flow') && Origin(flow', |flow| - 1)
    requires flow[..|flow| - 1] == flow'[..|flow| - 1] && Last(flow).data == []
    ensures var n := |flow| - 1;
            && RoomForPriority(Last(flow').data, |Magic|) && RoomForPriority([], 0) && Frames([], 0) == []
            && FlowFrames(flow', n + 1, n) == FlowFrames(flow, n + 1, -1) + Mark(Last(flow').source, Frames(Last(flow').data, |Magic|))
  {
    hide Frames, RoomForPriority, Mark, FlowFrames, Readable;
    var n := |flow| - 1;
    SameFrames(flow, flow', n, -1, n);
    LastFrames(flow, -1);
    LastFrames(flow', n);
    NoFrames(Last(flow).source);
  }

  /** A call after more bytes have come for the last entry. */
  lemma MoreCall(c: Ctx, flow: seq<Entry>, m: int, again: nat, data: seq<byte>, flowPos: nat)
    requires Follows(c, flow, m) && Counted(c, flow, m, again) && Readable(Delivered(flow, More(data)))
    ensures var flow' := Delivered(flow, More(data));
            && RoomForPriority(Last(flow').data, Begin(c, flow', flowPos))
            && Follows(Started(c, flow', flowPos), flow', OriginAfter(c, flow', m, flowPos))
            && Counted(Started(c, flow', flowPos), flow', OriginAfter(c, flow', m, flowPos), again + Repeated(c, flow, More(data)))
  {
    hide Frames, FramesEnd, RoomForPriority, Mark, StartsWithMagic, FlowFrames;
    var flow' := Delivered(flow, More(data));
    var n := |flow| - 1;
    var a, b := Last(flow).data, Last(flow').data;
    assert flow[..n] == flow'[..n];
    assert ReadableEntry(flow'[n].data) && ReadableEntry(flow[n].data);
    SameMagic(a, b);
    if c.connected {
      MoreFrames(flow, flow', m);
      LaterCall(c, flow', flowPos);
    } else if TakesMagic(c, flow', flowPos) {
      assert StartsWithMagic(b) by { assert b[0..] == b; }
      FirstCall(c, flow', flowPos);
      MagicFrames(flow, flow');
    } else {
      OpenCall(c, flow', flowPos);
      MoreFrames(flow, flow', m);
    }
  }

  // ----- runs of calls -----

  datatype Course = Course(ctx: Ctx, origin: int, again: nat)

  lemma Beginning(side: Side)
    ensures Readable([Entry(side, [])]) && Follows(Idle, [Entry(side, [])], -1) && Counted(Idle, [Entry(side, [])], -1, 0)
  {
    NoFrames(side);
    LastFrames([Entry(side, [])], -1);
  }

  lemma FirstDelivery(first: Entry)
    ensures Delivered([Entry(first.source, [])], More(first.data)) == [first]
  {
    assert [] + first.data == first.data;
  }

  /** What is readable now was readable before. */
  lemma ReadableBefore(flow: seq<Entry>, d: Delivery)
    requires flow != [] && Readable(Delivered(flow, d))
    ensures Readable(flow)
  {
    var flow' := Delivered(flow, d);
    forall k | 0 <= k < |flow| ensures ReadableEntry(flow[k].data) {
      assert ReadableEntry(flow'[k].data) && flow[k].data <= flow'[k].data;
      SameMagic(flow[k].data, flow'[k].data);
      Resume(flow[k].data, flow'[k].data, 0);
      if StartsWithMagic(flow[k].data) {
        Resume(flow[k].data, flow'[k].data, |Magic|);
      }
    }
  }

  /** The context after the first call and one call for every delivery, with the entry the magic was taken from and
      how many frames have been handled again. */
  ghost function CourseOf(first: Entry, ds: seq<Delivery>, flowPos: nat -> nat): (r: Course)
    requires Readable(FlowAfter(first, ds))
    ensures Follows(r.ctx, FlowAfter(first, ds), r.origin) && Counted(r.ctx, FlowAfter(first, ds), r.origin, r.again)
    decreases |ds|
  {
    hide Follows, Counted, Readable;
    if ds == [] then
      var empty := [Entry(first.source, [])];
      Beginning(first.source);
      FirstDelivery(first);
      NextCall(Idle, empty, -1, 0, More(first.data), flowPos(0));
      NoFrames(first.source);
      Course(Started(Idle, [first], flowPos(0)), OriginAfter(Idle, [first], -1, flowPos(0)), 0)
    else
      var front, d := ds[..|ds| - 1], ds[|ds| - 1];
      var flow := FlowAfter(first, front);
      ReadableBefore(flow, d);
      var r := CourseOf(first, front, flowPos);
      NextCall(r.ctx, flow, r.origin, r.again, d, flowPos(|ds|));
      LastReadable(flow);
      Course(Started(r.ctx, FlowAfter(first, ds), flowPos(|ds|)),
             OriginAfter(r.ctx, FlowAfter(first, ds), r.origin, flowPos(|ds|)),
             r.again + Repeated(r.ctx, flow, d))
  }

  lemma LastReadable(flow: seq<Entry>)
    requires flow != [] && Readable(flow)
    ensures RoomForPriority(Last(flow).data, 0)
  {
    assert ReadableEntry(flow[|flow| - 1].data);
  }

  /** No call has read an entry from its first byte again that had a whole frame before. */
  ghost predicate NothingReread(first: Entry, ds: seq<Delivery>, flowPos: nat -> nat)
    requires Readable(FlowAfter(first, ds))
    decreases |ds|
  {
    ds == []
    || (var front, d := ds[..|ds| - 1], ds[|ds| - 1];
        ReadableBefore(FlowAfter(first, front), d);
        && NothingReread(first, front, flowPos)
        && (d.More? && !CourseOf(first, front, flowPos).ctx.connected ==> !Complete(Last(FlowAfter(first, front)).data, 0)))
  }

  /** However a flow arrives, and whoever begins it, the whole frames of its entries are handled in order and each once
      if and only if no entry with a whole frame grows while no offset is kept. */
  lemma {:induction false} EachOnce(first: Entry, ds: seq<Delivery>, flowPos: nat -> nat)
    requires Readable(FlowAfter(first, ds))
    ensures var r, flow := CourseOf(first, ds, flowPos), FlowAfter(first, ds);
            r.ctx.handled == FlowFrames(flow, |flow|, r.origin) <==> NothingReread(first, ds, flowPos)
  {
    hide Readable, NothingReread;
    RereadIsAgain(first, ds, flowPos);
  }

  lemma {:induction false} RereadIsAgain(first: Entry, ds: seq<Delivery>, flowPos: nat -> nat)
    requires Readable(FlowAfter(first, ds))
    ensures CourseOf(first, ds, flowPos).again == 0 <==> NothingReread(first, ds, flowPos)
    decreases |ds|
  {
    hide Readable, Complete, Started, OriginAfter, RoomForPriority, Follows, Counted;
    if ds != [] {
      var front, d := ds[..|ds| - 1], ds[|ds| - 1];
      var flow := FlowAfter(first, front);
      ReadableBefore(flow, d);
      LastReadable(flow);
      RereadIsAgain(first, front, flowPos);
      HasFrames(Last(flow).data);
    }
  }

  lemma HasFrames(data: seq<byte>)
    requires RoomForPriority(data, 0)
    ensures Frames(data, 0) == [] <==> !Complete(data, 0)
  {
  }

  /** Behind a first call that takes the magic, nothing is ever handled again. */
  lemma {:induction false} MagicFirst(first: Entry, ds: seq<Delivery>, flowPos: nat -> nat)
    requires first.source == Left && StartsWithMagic(first.data) && flowPos(0) < 5
    requires Readable(FlowAfter(first, ds))
    ensures var r, flow := CourseOf(first, ds, flowPos), FlowAfter(first, ds);
            r.ctx.connected && r.origin == 0 && r.again == 0 && r.ctx.handled == FlowFrames(flow, |flow|, 0)
    decreases |ds|
  {
    hide Readable, Started, RoomForPriority, StartsWithMagic;
    if ds == [] {
      MagicIsLong(first.data);
      assert first.data[0..] == first.data;
      assert TakesMagic(Idle, [first], flowPos(0));
    } else {
      ReadableBefore(FlowAfter(first, ds[..|ds| - 1]), ds[|ds| - 1]);
      MagicFirst(first, ds[..|ds| - 1], flowPos);
    }
  }

  /** The magic can come later too: in the first call on an entry of the client, while it is still looked for. */
  lemma MagicLater(first: Entry, ds: seq<Delivery>, entry: Entry, flowPos: nat -> nat)
    requires Readable(FlowAfter(first, ds + [Next(entry)])) && Readable(FlowAfter(first, ds))
    ensures var before, after := CourseOf(first, ds, flowPos), CourseOf(first, ds + [Next(entry)], flowPos);
            && (!before.ctx.connected ==>
                  (after.ctx.connected <==> before.ctx.status == START && entry.source == Left && StartsWithMagic(entry.data)
                                            && flowPos(|ds| + 1) < 5))
            && (before.ctx.connected ==> after.ctx.connected && after.origin == before.origin)
            && after.again == before.again
  {
    hide Readable, Started, RoomForPriority, StartsWithMagic;
    var all := ds + [Next(entry)];
    assert all[..|all| - 1] == ds && all[|all| - 1] == Next(entry);
    if StartsWithMagic(entry.data) {
      MagicIsLong(entry.data);
    }
    assert entry.data[0..] == entry.data;
  }

  // ----- flows without an offset -----

  /** The whole frames of the last entry at every call, from the first byte each time. */
  ghost function FramesOfEachCall(first: Entry, ds: seq<Delivery>): seq<Handled>
    requires Readable(FlowAfter(first, ds))
    decreases |ds|
  {
    LastReadable(FlowAfter(first, ds));
    var last := Last(FlowAfter(first, ds));
    (if ds == [] then []
     else
       ReadableBefore(FlowAfter(first, ds[..|ds| - 1]), ds[|ds| - 1]);
       FramesOfEachCall(first, ds[..|ds| - 1]))
    + Mark(last.source, Frames(last.data, 0))
  }

  /** As long as the magic has not been taken, every call handles the frames of the last entry from its first byte. */
  lemma {:induction false} WithoutMagic(first: Entry, ds: seq<Delivery>, flowPos: nat -> nat)
    requires Readable(FlowAfter(first, ds)) && !CourseOf(first, ds, flowPos).ctx.connected
    ensures CourseOf(first, ds, flowPos).ctx.handled == FramesOfEachCall(first, ds)
    decreases |ds|
  {
    hide Readable, RoomForPriority, StartsWithMagic, Mark, Frames, Started;
    LastReadable(FlowAfter(first, ds));
    if ds == [] {
      if TakesMagic(Idle, [first], flowPos(0)) {
        assert false;
      }
      OpenCall(Idle, [first], flowPos(0));
    } else {
      var front, flow := ds[..|ds| - 1], FlowAfter(first, ds);
      ReadableBefore(FlowAfter(first, front), ds[|ds| - 1]);
      var c := CourseOf(first, front, flowPos).ctx;
      WithoutMagic(first, front, flowPos);
      OpenCall(c, flow, flowPos(|ds|));
    }
  }

  /** So it is when the first entry, the server's or not beginning with the whole magic at once, is all there is. */
  lemma {:induction false} CtxWithoutMagic(first: Entry, ds: seq<Delivery>, flowPos: nat -> nat)
    requires first.data != [] && (first.source == Right || !StartsWithMagic(first.data))
    requires Readable(FlowAfter(first, ds)) && forall k :: 0 <= k < |ds| ==> ds[k].More?
    ensures var c, flow := CourseOf(first, ds, flowPos).ctx, FlowAfter(first, ds);
            && |flow| == 1 && flow[0].source == first.source && first.data <= flow[0].data
            && !c.connected && c.handled == FramesOfEachCall(first, ds)
    decreases |ds|
  {
    hide Readable, Started, RoomForPriority, StartsWithMagic, FramesOfEachCall;
    if ds == [] {
      assert first.data[0..] == first.data;
    } else {
      ReadableBefore(FlowAfter(first, ds[..|ds| - 1]), ds[|ds| - 1]);
      CtxWithoutMagic(first, ds[..|ds| - 1], flowPos);
      var before, now := FlowAfter(first, ds[..|ds| - 1])[0].data, FlowAfter(first, ds)[0].data;
      SameMagic(before, now);
      assert now[0..] == now;
    }
    WithoutMagic(first, ds, flowPos);
  }

  // ----- the calls -----

  /** The functions of the engine around their context. */
  class Engine {
    var ctx: Ctx

    constructor ()
      ensures ctx == Idle
    {
      ctx := Idle;
    }

    /** `process_frame`: the length of the frame, 0 for an incomplete one; it throws without the bytes of a priority. */
    method ProcessFrame(side: Side, frame: seq<byte>) returns (n: nat, thrown: bool)
      requires Complete(frame, 0) ==> Roomy(frame, 0)
      modifies this
      ensures n == if Complete(frame, 0) then PREAMBLE + SizeAt(frame, 0) else 0
      ensures thrown ==> n == 0 && !Complete(frame, 0)
      ensures thrown <==> PREAMBLE <= |frame| < PREAMBLE + PRIORITY && PREAMBLE + SizeAt(frame, 0) <= |frame| && HasPriority(frame, 0)
      ensures ctx == old(ctx).(handled := old(ctx).handled + if Complete(frame, 0) then [Handled(side, FrameAt(frame, 0))] else [])
    {
      thrown := false;
      if |frame| < PREAMBLE {
        return 0, false;
      }
      var frameSize := FindFrameSize(frame);
      var curOff := 3;
      var addHdr := 0;
      if frameSize + PREAMBLE <= |frame| {
        var typ := frame[curOff];
        curOff := curOff + 1;
        var flags := frame[curOff];
        curOff := curOff + 1;
        var stream := Val32(frame, curOff);
        curOff := curOff + 4;
        if TestBit(flags, 5) {
          if |frame| < curOff + 5 {
            return 0, true;
          }
          addHdr := addHdr + 5;
        }
        var data: seq<byte> := [];
        if frameSize > 0 {
          data := frame[PREAMBLE + addHdr..PREAMBLE + frameSize];
        }
        ctx := ctx.(handled := ctx.handled + [Handled(side, Frame(typ, flags, stream, data))]);
        return PREAMBLE + frameSize, false;
      }
      n := 0;
    }

    /** `find_frame_sz`: three bytes into the low end of a big-endian word. */
    method FindFrameSize(frame: seq<byte>) returns (n: nat)
      requires |frame| >= PREAMBLE
      ensures n == SizeAt(frame, 0)
    {
      var a: seq<byte> := [0, frame[0], frame[1], frame[2]];
      n := Val32(a, 0);
    }

    /** `start`, called when the last entry of the flow is new or has grown. */
    method Start(flow: seq<Entry>, flowPos: nat)
      requires flow != [] && RoomForPriority(flow[|flow| - 1].data, Begin(ctx, flow, flowPos))
      modifies this
      ensures ctx == Started(old(ctx), flow, flowPos)
    {
      hide RoomForPriority, StartsWithMagic, Frames, FramesEnd, Mark;
      var side, buf := flow[|flow| - 1].source, flow[|flow| - 1].data;
      var startingIndex := LoadPrevState(|flow|);
      if startingIndex >= |buf| {
        return;
      }
      var ifMagic := 0;
      if side == Left && ctx.status == START {
        if flowPos < 5 && |buf| >= |Magic| {
          ifMagic := FindMagic(buf[startingIndex..]);
          if ifMagic > 0 {
            SaveState(|flow|, startingIndex + ifMagic);
            ctx := ctx.(status := MAGIC, connected := true);
          }
          if ifMagic + 4 > |buf| {
            return;
          }
        } else {
          ctx := ctx.(status := MAGIC);
        }
      }
      assert ctx == AfterMagic(old(ctx), flow, flowPos) && startingIndex + ifMagic == Begin(old(ctx), flow, flowPos);
      var total := ReadFrames(side, buf, startingIndex + ifMagic);
      SaveState(|flow|, startingIndex + ifMagic + total);
    }

    method LoadPrevState(entries: nat) returns (index: nat)
      ensures index == Resumed(ctx, entries)
    {
      if !ctx.connected {
        return 0;
      }
      if ctx.info.Saved? && ctx.info.entries == entries {
        return ctx.info.offset;
      }
      index := 0;
    }

    method SaveState(entries: nat, processed: nat)
      modifies this
      ensures ctx == old(ctx).(info := Saved(entries, processed))
    {
      ctx := ctx.(info := Saved(entries, processed));
    }

    /** `find_magic`: the magic is searched for in a view of its own length, so it is only found at the start. */
    method FindMagic(frame: seq<byte>) returns (n: nat)
      ensures n == (if StartsWithMagic(frame) then |Magic| else 0) <= |frame|
    {
      var str := if |frame| < |Magic| then frame else frame[..|Magic|];
      var pos := 0;
      while pos + |Magic| <= |str|
        invariant pos == 0 || (pos == 1 && |str| == |Magic| && str != Magic)
      {
        var same := 0;
        while same < |Magic| && str[pos + same] == Magic[same]
          invariant same <= |Magic| && forall k :: 0 <= k < same ==> str[pos + k] == Magic[k]
        {
          same := same + 1;
        }
        if same == |Magic| {
          assert str[..|Magic|] == Magic;
          return |Magic|;
        }
        pos := pos + 1;
      }
      return 0;
    }

    /** The loop over the frames from `begin` on; `total` is how many bytes they take. */
    method ReadFrames(side: Side, buf: seq<byte>, begin: nat) returns (total: nat)
      requires begin <= |buf| && RoomForPriority(buf, begin)
      modifies this
      ensures begin + total == FramesEnd(buf, begin)
      ensures ctx == old(ctx).(handled := old(ctx).handled + Mark(side, Frames(buf, begin)))
    {
      hide FrameAt, Mark, Frames, FramesEnd, RoomForPriority, Complete, SizeAt, HasPriority, Roomy;
      var frame := buf[begin..];
      var curOff: nat := 0;
      total := 0;
      var again := true;
      ghost var i := begin;
      MarkNothing(side);
      assert frame[0..] == frame;
      while again
        invariant i == begin + total <= |buf| && curOff <= |frame| && frame[curOff..] == buf[i..]
        invariant RoomForPriority(buf, i) && FramesEnd(buf, begin) == FramesEnd(buf, i)
        invariant !again ==> i == |buf|
        invariant ctx == old(ctx).(handled := ctx.handled)
        invariant ctx.handled + Mark(side, Frames(buf, i)) == old(ctx.handled) + Mark(side, Frames(buf, begin))
        decreases |buf| - total, again
      {
        frame := frame[curOff..];
        ViewOfFrame(buf, i);
        FramesStep(buf, i, side);
        ghost var before := ctx.handled;
        var thrown;
        curOff, thrown := ProcessFrame(side, frame);
        if thrown || curOff == 0 {
          return;
        }
        total := total + curOff;
        i := i + curOff;
        assert frame[curOff..] == buf[i..];
        assert ctx.handled + Mark(side, Frames(buf, i)) == before + Mark(side, Frames(buf, i - curOff));
        again := total < |buf| - begin;
      }
      FramesStep(buf, i, side);
    }
  }

  /** One frame, or the end. */
  lemma FramesStep(buf: seq<byte>, i: nat, side: Side)
    requires i <= |buf| && RoomForPriority(buf, i)
    ensures i == |buf| ==> !Complete(buf, i)
    ensures Complete(buf, i) ==>
              var next := i + PREAMBLE + SizeAt(buf, i);
              && Roomy(buf, i) && next <= |buf| && RoomForPriority(buf, next) && FramesEnd(buf, i) == FramesEnd(buf, next)
              && Mark(side, Frames(buf, i)) == [Handled(side, FrameAt(buf, i))] + Mark(side, Frames(buf, next))
    ensures !Complete(buf, i) ==> FramesEnd(buf, i) == i && Mark(side, Frames(buf, i)) == []
  {
    hide Mark, FrameAt;
    MarkNothing(side);
    if Complete(buf, i) {
      MarkFirst(side, FrameAt(buf, i), Frames(buf, i + PREAMBLE + SizeAt(buf, i)));
    }
  }

  lemma MarkFirst(side: Side, frame: Frame, rest: seq<Frame>)
    ensures Mark(side, [frame] + rest) == [Handled(side, frame)] + Mark(side, rest)
  {
  }

  lemma MarkNothing(side: Side)
    ensures Mark(side, []) == []
  {
  }

  /** A view of the buffer from a frame on shows the frame. */
  lemma ViewOfFrame(buf: seq<byte>, i: nat)
    requires i <= |buf| && RoomForPriority(buf, i)
    ensures Complete(buf[i..], 0) <==> Complete(buf, i)
    ensures Complete(buf, i) ==> SizeAt(buf[i..], 0) == SizeAt(buf, i) && Roomy(buf[i..], 0)
    ensures Complete(buf, i) ==> FrameAt(buf[i..], 0) == FrameAt(buf, i)
  {
    if Complete(buf, i) {
      var n, k := i + PREAMBLE + SizeAt(buf, i), PREAMBLE + if HasPriority(buf, i) then PRIORITY else 0;
      assert SizeAt(buf, i) > 0 ==> buf[i..][k..n - i] == buf[i + k..n];
    }
  }
}
