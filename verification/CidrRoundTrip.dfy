/** Reading a printed block gives the block back. */
module CidrRoundTrip {
  import opened Bits
  import opened CidrBlock
  import opened CidrOps
  import opened CidrText
  import opened CidrPrint
  import opened CidrParse
  import opened CidrParser

  // ----- the shape of printed text -----

  /** Hexadecimal digits, dots and colons. */
  predicate Plain(s: string) {
    forall k :: 0 <= k < |s| ==> IsHexDigit(s[k]) || IsMaskMark(s[k])
  }

  predicate AllShort(gs: seq<nat>) {
    forall k :: 0 <= k < |gs| ==> gs[k] < 0x1_0000
  }

  lemma ShortDigits(v: nat)
    ensures v < 1000 ==> |Digits(v, 10)| <= 3
    ensures v < 0x1_0000 ==> |Digits(v, 16)| <= 4
  {
    if v < 1000 {
      assert Power(10, 3) == 1000;
      DigitsLength(v, 10, 3);
    }
    if v < 0x1_0000 {
      assert Power(16, 4) == 0x1_0000;
      DigitsLength(v, 16, 4);
    }
  }

  lemma {:induction false} JoinIsPlain(gs: seq<nat>)
    requires AllShort(gs)
    ensures Plain(Join(gs)) && '.' !in Join(gs) && |Join(gs)| <= 5 * |gs|
    ensures |gs| > 1 ==> ':' in Join(gs)
    ensures gs != [] ==> Join(gs) != []
  {
    hide Digits;
    if gs != [] {
      ShortDigits(gs[|gs| - 1]);
      JoinIsPlain(gs[..|gs| - 1]);
      if |gs| > 1 {
        assert Join(gs)[|Join(gs[..|gs| - 1])|] == ':';
      }
    }
  }

  lemma {:induction false} JoinCons(gs: seq<nat>)
    requires |gs| > 1
    ensures Join(gs) == Digits(gs[0], 16) + ":" + Join(gs[1..])
  {
    hide Digits;
    var front := gs[..|gs| - 1];
    if |gs| == 2 {
      assert front == [gs[0]] && gs[1..] == [gs[1]];
    } else {
      JoinCons(front);
      assert gs[1..][..|gs| - 2] == front[1..];
    }
  }

  lemma SplitText(s: string, i: nat, end: nat, x: string, y: string)
    requires i <= end <= |s| && s[i..end] == x + y
    ensures s[i..i + |x|] == x && s[i + |x|..end] == y
  {
    assert s[i..i + |x|] == (x + y)[..|x|];
    assert s[i + |x|..end] == (x + y)[|x|..];
  }

  lemma {:induction false} FindIs(s: string, c: char, from: nat, k: nat)
    requires from <= k <= |s| && (k < |s| ==> s[k] == c) && forall i :: from <= i < k ==> s[i] != c
    ensures Find(s, c, from) == k
    decreases k - from
  {
    if from < k {
      FindIs(s, c, from + 1, k);
    }
  }

  /** `s` is `a`, a slash and a decimal number. */
  ghost predicate Printed(s: string, a: string, n: nat) {
    s == a + "/" + Digits(n, 10) && Plain(a) && 0 < |a| <= 100 && n <= 128
  }

  /** A slash at `e`, the address before it and digits after it. */
  ghost predicate Shaped(s: string, e: nat) {
    && 0 < e < |s| - 1 && |s| <= 200 && s[e] == '/'
    && (forall k :: 0 <= k < e ==> IsHexDigit(s[k]) || IsMaskMark(s[k]))
    && (forall k :: e < k < |s| ==> IsDigit(s[k]))
  }

  lemma PrintedIsShaped(s: string, a: string, n: nat)
    requires Printed(s, a, n)
    ensures Shaped(s, |a|) && s[..|a|] == a && s[|a| + 1..] == Digits(n, 10)
  {
    var d := Digits(n, 10);
    hide Digits;
    ShortDigits(n);
    forall k | 0 <= k < |s| ensures s[k] == if k < |a| then a[k] else if k == |a| then '/' else d[k - |a| - 1] {
    }
    assert forall k :: 0 <= k < |d| ==> IsDigitOf(d[k], 10);
  }

  lemma ShapedIsAddress(s: string, e: nat)
    requires Shaped(s, e)
    ensures OnlyAddressChars(s) && !IsReverseName(s)
    ensures LastSlash(s) == e && SkipSlashes(s, e - 1) == e - 1
    ensures HasMask(s, e) <==> s[e + 1] == '0'
  {
    hide LastSlash;
    NoSuffix(s, ".arpa");
    NoSuffix(s, ".ip6.int");
  }

  lemma NoSuffix(s: string, suffix: string)
    requires s != [] && suffix != [] && Lower(s[|s| - 1]) != suffix[|suffix| - 1]
    ensures !EndsWith(s, suffix)
  {
    if |suffix| <= |s| {
      var k := |suffix| - 1;
      assert Lower(s[|s| - |suffix| + k]) != suffix[k];
    }
  }

  lemma PrintedShape(s: string, a: string, n: nat)
    requires Printed(s, a, n)
    ensures 1 <= |s| <= 0x1_0000 && OnlyAddressChars(s) && !IsReverseName(s)
    ensures LastSlash(s) == |a| < |s| - 1 && s[..|a|] == a && s[|a|] == '/' && s[|a| + 1..] == Digits(n, 10)
    ensures HasMask(s, |a|) <==> n == 0
    ensures SkipSlashes(s, |a| - 1) == |a| - 1
  {
    hide Digits, LastSlash, OnlyAddressChars, IsReverseName, HasMask, SkipSlashes;
    PrintedIsShaped(s, a, n);
    ShapedIsAddress(s, |a|);
    assert s[|a| + 1] == s[|a| + 1..][0];
  }

  lemma ParsesZero()
    ensures Parse("0") == Parsed(Block(IPv4, V4Mapped, MaskOf(128)))
  {
    hide MaskOf;
    var s := "0";
    OctalZeroReads(s, 0);
    FindIs(s, ':', 0, 1);
    FindIs(s, '.', 0, 1);
    DigitsEndIs(s, 1, 1, 8);
    assert V4Store(V4Mapped, 0, 1, 0) == V4Mapped;
    assert V4Octets(s, 0, 1, 0, V4Mapped) == Found(V4Mapped);
    assert LastSlash(s) == -1;
  }

  /** `/0` is read as a netmask, by way of an IPv4 address. */
  lemma ZeroMask(proto: Proto)
    requires proto != NoProto
    ensures PrefixLength(AsMask(proto, Block(IPv4, V4Mapped, MaskOf(128)))) == 0
  {
    hide MaskOf, Unpack, LeadingOnes;
    var m := AsMask(proto, Block(IPv4, V4Mapped, MaskOf(128)));
    assert m.mask[12..] == seq(4, _ => 0);
    UnpackSlice(m.mask, 12);
    ZeroBytes(4);
    var bits := MaskBits(m)[96..];
    assert bits == Zeros(32);
    LeadingOnesAre(bits, 0);
    assert bits[0..] == Zeros(32);
  }

  /** The prefix length is read back, whether as a number or as a netmask. */
  lemma PrefixIsRead(s: string, a: string, n: nat, proto: Proto)
    requires Printed(s, a, n) && ProtoOf(s) == proto != NoProto && (proto == IPv4 ==> Dots(s, 0, |a|) <= 3)
    ensures Parse(s) == Finish(proto, s, |a|, n)
  {
    hide Finish, ProtoOf, Dots, Digits, IsReverseName, OnlyAddressChars, PrefixLength, AsMask, StrtolInt, HasMask, SkipSlashes;
    PrintedShape(s, a, n);
    if n == 0 {
      assert s[|a| + 1..] == "0";
      ParsesZero();
      ZeroMask(proto);
    } else {
      StrtolReads(s, |a| + 1, n);
    }
  }

  // ----- IPv4 -----

  /** A number of the dotted form at `from`, up to `to`. */
  ghost predicate Section(s: string, from: nat, to: nat, v: nat) {
    && from < to < |s| && s[from..to] == Digits(v, 10) && v <= 255
    && (s[to] == '.' || s[to] == '/') && (from > 0 ==> s[from - 1] == '.')
  }

  lemma {:induction false} V4Skip(s: string, i: nat, j: nat, nsect: nat, nocts: nat, addr: Octets)
    requires j <= i < |s| && 1 <= nsect <= 4 && nocts < 4
    requires forall k :: j < k <= i ==> IsHexDigit(s[k])
    ensures V4Octets(s, i, nsect, nocts, addr) == V4Octets(s, j, nsect, nocts, addr)
    decreases i - j
  {
    if j < i {
      V4Skip(s, i - 1, j, nsect, nocts, addr);
    }
  }

  lemma SectionReads(s: string, from: nat, to: nat, v: nat)
    requires Section(s, from, to, v)
    ensures V4Number(s, from) == Number(v, to)
    ensures forall k :: from <= k < to ==> IsDigit(s[k])
  {
    hide Digits, Strtoul;
    var d := Digits(v, 10);
    assert forall k :: from <= k < to ==> s[k] == d[k - from] && IsDigitOf(d[k - from], 10);
    if v == 0 {
      OctalZeroReads(s, from);
    } else {
      StrtoulReads(s, from, v, 10);
    }
  }

  lemma V4Step(s: string, from: nat, to: nat, v: nat, nocts: nat, addr: Octets)
    requires Section(s, from, to, v) && nocts < 4 && (from == 0 <==> nocts == 3)
    ensures V4Octets(s, to - 1, 4, nocts, addr)
         == if nocts == 3 then Found(addr[12 := v]) else V4Octets(s, from - 2, 4, nocts + 1, addr[15 - nocts := v])
  {
    hide V4Number;
    SectionReads(s, from, to, v);
    V4Skip(s, to - 1, if from == 0 then 0 else from - 1, 4, nocts, addr);
  }

  /** The four sections of a printed IPv4 address, up to the slash at `end`. */
  ghost predicate FourSections(s: string, end: nat, p1: nat, p2: nat, p3: nat, addr: seq<byte>) {
    && |addr| == 16 && 0 < p1 < p2 < p3 < end < |s| && s[end] == '/' && p1 <= 4
    && Section(s, 0, p1 - 1, addr[12]) && Section(s, p1, p2 - 1, addr[13])
    && Section(s, p2, p3 - 1, addr[14]) && Section(s, p3, end, addr[15])
    && s[p1 - 1] == s[p2 - 1] == s[p3 - 1] == '.'
  }

  lemma V4HasSections(s: string, addr: seq<byte>)
    requires |addr| == 16 && |s| > |V4Text(addr)| && s[..|V4Text(addr)|] == V4Text(addr) && s[|V4Text(addr)|] == '/'
    ensures exists p1: nat, p2: nat, p3: nat :: FourSections(s, |V4Text(addr)|, p1, p2, p3, addr)
  {
    hide Digits;
    var a := V4Text(addr);
    var d0, d1, d2, d3 := Digits(addr[12], 10), Digits(addr[13], 10), Digits(addr[14], 10), Digits(addr[15], 10);
    ShortDigits(addr[12]);
    assert s[0..|a|] == s[..|a|];
    var p1 := |d0| + 1;
    var p2 := p1 + |d1| + 1;
    var p3 := p2 + |d2| + 1;
    SplitText(s, 0, |a|, d0 + "." + d1 + "." + d2 + ".", d3);
    SplitText(s, 0, p3, d0 + "." + d1 + "." + d2, ".");
    SplitText(s, 0, p3 - 1, d0 + "." + d1 + ".", d2);
    SplitText(s, 0, p2, d0 + "." + d1, ".");
    SplitText(s, 0, p2 - 1, d0 + ".", d1);
    SplitText(s, 0, p1, d0, ".");
    DotAt(s, p1 - 1);
    DotAt(s, p2 - 1);
    DotAt(s, p3 - 1);
    assert FourSections(s, |a|, p1, p2, p3, addr);
  }

  lemma DotAt(s: string, k: nat)
    requires k < |s| && s[k..k + 1] == "."
    ensures s[k] == '.'
  {
    assert s[k..k + 1][0] == s[k];
  }

  lemma V4Reads(s: string, addr: seq<byte>, n: nat)
    requires |addr| == 16 && s == V4Text(addr) + "/" + Digits(n, 10) && n <= 32
    ensures Printed(s, V4Text(addr), n) && ProtoOf(s) == IPv4 && Dots(s, 0, |V4Text(addr)|) == 3
    ensures V4Octets(s, |V4Text(addr)| - 1, 4, 0, V4Mapped) == Found(V4Mapped[..12] + addr[12..])
  {
    hide Digits, V4Octets, ProtoOf, Dots, Section, V4Text;
    var a := V4Text(addr);
    assert s[..|a|] == a && s[|a|] == '/';
    V4HasSections(s, addr);
    var p1: nat, p2: nat, p3: nat :| FourSections(s, |a|, p1, p2, p3, addr);
    var x := V4Mapped;
    V4Step(s, p3, |a|, addr[15], 0, x);
    V4Step(s, p2, p3 - 1, addr[14], 1, x[15 := addr[15]]);
    V4Step(s, p1, p2 - 1, addr[13], 2, x[15 := addr[15]][14 := addr[14]]);
    V4Step(s, 0, p1 - 1, addr[12], 3, x[15 := addr[15]][14 := addr[14]][13 := addr[13]]);
    assert x[15 := addr[15]][14 := addr[14]][13 := addr[13]][12 := addr[12]] == V4Mapped[..12] + addr[12..];
    V4IsPlain(s, |a|, p1, p2, p3, addr);
    PrintedIsShaped(s, a, n);
    V4Marks(s, |a|, p1, p2, p3, addr);
  }

  lemma V4IsPlain(s: string, end: nat, p1: nat, p2: nat, p3: nat, addr: seq<byte>)
    requires FourSections(s, end, p1, p2, p3, addr)
    ensures Plain(s[..end]) && end <= 100
    ensures forall k :: 0 <= k < end && k != p1 - 1 && k != p2 - 1 && k != p3 - 1 ==> IsDigit(s[k])
  {
    hide Section, Digits;
    SectionIsShort(s, 0, p1 - 1, addr[12]);
    SectionIsShort(s, p1, p2 - 1, addr[13]);
    SectionIsShort(s, p2, p3 - 1, addr[14]);
    SectionIsShort(s, p3, end, addr[15]);
  }

  lemma SectionIsShort(s: string, from: nat, to: nat, v: nat)
    requires Section(s, from, to, v)
    ensures to <= from + 3 && forall k :: from <= k < to ==> IsDigit(s[k])
  {
    SectionReads(s, from, to, v);
    ShortDigits(v);
  }

  /** Where the dots are, and that there is no colon. */
  lemma V4Marks(s: string, end: nat, p1: nat, p2: nat, p3: nat, addr: seq<byte>)
    requires FourSections(s, end, p1, p2, p3, addr) && Shaped(s, end)
    ensures ProtoOf(s) == IPv4 && Dots(s, 0, end) == 3
  {
    V4IsPlain(s, end, p1, p2, p3, addr);
    hide Section, DigitsEnd, Find, Plain;
    FindIs(s, ':', 0, |s|);
    FindIs(s, '.', 0, p1 - 1);
    FindIs(s, '.', p1, p2 - 1);
    FindIs(s, '.', p2, p3 - 1);
    FindIs(s, '.', p3, |s|);
    assert Dots(s, p3, end) == 0;
    assert Dots(s, p2, end) == 1;
    assert Dots(s, p1, end) == 2;
  }

  // ----- IPv6 -----

  /** The octets of 16-bit groups. */
  function GroupBytes(gs: seq<nat>): (r: seq<byte>)
    requires AllShort(gs)
    ensures |r| == 2 * |gs|
  {
    seq(2 * |gs|, m requires 0 <= m < 2 * |gs| => GroupByte(gs[m / 2], m % 2 == 0))
  }

  function GroupByte(g: nat, high: bool): byte
    requires g < 0x1_0000
  {
    if high then g / 256 else g % 256
  }

  lemma GroupBytesOfGroups(addr: seq<byte>)
    requires |addr| == 16
    ensures GroupBytes(Groups(addr)) == addr
  {
    hide Groups, Group, GroupByte;
    forall m | 0 <= m < 16 ensures GroupBytes(Groups(addr))[m] == addr[m] {
      var k := m / 2;
      GroupsAreShort(addr);
      ByteOfGroup(addr[2 * k], addr[2 * k + 1]);
      assert m == 2 * k + m % 2;
    }
  }

  lemma ByteOfGroup(high: byte, low: byte)
    ensures GroupByte(Group(high, low), true) == high && GroupByte(Group(high, low), false) == low
  {
  }

  /** `done` at the end of the address, zeros before it. */
  function Tail(done: seq<byte>): Octets
    requires |done| <= 16
  {
    seq(16 - |done|, _ => 0) + done
  }

  /** Where a group can end. */
  predicate EndsGroup(s: string, to: nat) {
    to == |s| || (to < |s| && (s[to] == ':' || s[to] == '/'))
  }

  /** A group at `from`, up to `to`. */
  ghost predicate GroupAt(s: string, from: nat, to: nat, g: nat) {
    && from < to <= |s| && s[from..to] == Digits(g, 16) && g < 0x1_0000 && EndsGroup(s, to)
  }

  lemma GroupReads(s: string, from: nat, to: nat, g: nat)
    requires GroupAt(s, from, to, g)
    ensures V6Group(s, from) == g && DigitsEnd(s, from, 16) == to
    ensures forall k :: from <= k < to ==> IsHexDigit(s[k])
  {
    hide Digits, Strtoul;
    assert forall k :: from <= k < to ==> s[k] == Digits(g, 16)[k - from];
    StrtoulReads(s, from, g, 16);
    DigitsEndIs(s, from, to, 16);
  }

  lemma {:induction false} V6Skip(s: string, i: nat, j: nat, nocts: nat, addr: Octets)
    requires j <= i < |s| && nocts <= 14 && nocts % 2 == 0
    requires forall k :: j < k <= i ==> IsHexDigit(s[k])
    ensures V6Back(s, i, nocts, addr) == V6Back(s, j, nocts, addr)
    decreases i - j
  {
    if j < i {
      V6Skip(s, i - 1, j, nocts, addr);
    }
  }

  function Before(g: nat, done: seq<byte>): (r: seq<byte>)
    requires g < 0x1_0000
    ensures |r| == |done| + 2
  {
    [GroupByte(g, true), GroupByte(g, false)] + done
  }

  /** One group, read backwards. */
  lemma V6BackStep(s: string, from: nat, to: nat, g: nat, done: seq<byte>)
    requires GroupAt(s, from, to, g) && |done| <= 14 && |done| % 2 == 0 && (from == 0 || (from > 1 && s[from - 1] == ':'))
    ensures V6Back(s, to - 1, |done|, Tail(done))
         == var more := Before(g, done);
            if |done| == 14 then Whole(Tail(more))
            else if from == 0 then BadBack
            else V6Back(s, from - 2, |done| + 2, Tail(more))
  {
    hide V6Group, Tail, V6Store, GroupByte, Digits, DigitsEnd;
    GroupReads(s, from, to, g);
    var i := if from == 0 then 0 else from - 1;
    V6Skip(s, to - 1, i, |done|, Tail(done));
    TailStored(g, done);
    assert IsHexDigit(s[from]) && s[from] != ':';
    assert V6Back(s, i, |done|, Tail(done)) == V6BackFrom(s, i, |done|, Tail(done));
  }

  lemma TailStored(g: nat, done: seq<byte>)
    requires |done| <= 14 && g < 0x1_0000
    ensures V6Store(Tail(done), 14 - |done|, g / 256, g % 256) == Tail(Before(g, done))
  {
  }

  lemma BytesBefore(gs: seq<nat>, done: seq<byte>)
    requires gs != [] && AllShort(gs)
    ensures GroupBytes(gs) + done == GroupBytes(gs[..|gs| - 1]) + Before(gs[|gs| - 1], done)
    ensures |gs| == 1 ==> GroupBytes(gs) + done == Before(gs[0], done)
  {
  }

  /** What the backward scan gives at a `::` ending before `b`. */
  function AtGap(b: nat, done: seq<byte>): Back
    requires b >= 2 && |done| <= 16
  {
    if b == 2 then Whole(Tail(done)) else Gap(b - 2, Tail(done))
  }

  /** Groups up to the slash, read backwards to the `::` before them or to the start of the text. */
  lemma {:induction false} V6BackReads(s: string, b: nat, e: nat, gs: seq<nat>, done: seq<byte>)
    requires gs != [] && AllShort(gs) && b <= e <= |s| && s[b..e] == Join(gs) && EndsGroup(s, e)
    requires |done| % 2 == 0 && 2 * |gs| + |done| <= 16
    requires b == 0 ==> 2 * |gs| + |done| == 16
    requires b > 0 ==> b >= 2 && s[b - 1] == ':' && s[b - 2] == ':' && 2 * |gs| + |done| < 16
    ensures V6Back(s, e - 1, |done|, Tail(done))
         == if b == 0 then Whole(Tail(GroupBytes(gs) + done)) else AtGap(b, GroupBytes(gs) + done)
    decreases |gs|
  {
    hide Digits, V6BackFrom, V6Back, GroupBytes, Before, Tail, Join;
    var n := |gs| - 1;
    var g, front := gs[n], gs[..n];
    var more := Before(g, done);
    BytesBefore(gs, done);
    var from := e - |Digits(g, 16)|;
    LastGroup(s, b, e, gs);
    V6BackStep(s, from, e, g, done);
    if n > 0 {
      V6BackReads(s, b, from - 1, front, more);
    } else {
      if b > 0 {
        AtDoubleColon(s, b, more);
      }
    }
  }

  lemma LastGroup(s: string, b: nat, e: nat, gs: seq<nat>)
    requires gs != [] && AllShort(gs) && b <= e <= |s| && s[b..e] == Join(gs) && EndsGroup(s, e)
    ensures var n, from := |gs| - 1, e - |Digits(gs[|gs| - 1], 16)|;
            && b <= from && GroupAt(s, from, e, gs[n])
            && (n == 0 ==> from == b)
            && (n > 0 ==> b < from - 1 && s[from - 1] == ':' && s[b..from - 1] == Join(gs[..n]))
  {
    hide Digits, Join;
    var n := |gs| - 1;
    var d := Digits(gs[n], 16);
    var from := e - |d|;
    JoinLast(gs);
    if n == 0 {
      JoinOne(gs);
    } else {
      JoinIsPlain(gs[..n]);
      var f := Join(gs[..n]);
      SplitText(s, b, e, f + ":", d);
      SplitText(s, b, from, f, ":");
      assert s[from - 1] == s[from - 1..from][0];
    }
  }

  lemma AtDoubleColon(s: string, b: nat, done: seq<byte>)
    requires 2 <= b <= |s| && s[b - 1] == ':' && s[b - 2] == ':' && |done| <= 14 && |done| % 2 == 0
    ensures V6Back(s, b - 2, |done|, Tail(done)) == AtGap(b, done)
  {
  }

  /** Nothing between the `::` and the end or the slash: a zero group is read there. */
  lemma V6BackReadsNothing(s: string, b: nat)
    requires 2 <= b <= |s| && s[b - 1] == ':' && s[b - 2] == ':' && (b < |s| ==> s[b] == '/')
    ensures V6Back(s, b - 1, 0, Tail([])) == AtGap(b, [])
  {
    DigitsEndIs(s, b, b, 16);
    assert V6Group(s, b) == 0;
    assert V6Store(Tail([]), 14, 0, 0) == Tail([]) == Tail([0, 0]);
    AtDoubleColon(s, b, [0, 0]);
  }

  /** Groups from the start up to the `::`, read forwards. */
  lemma {:induction false} V6FrontReads(s: string, i: nat, end: nat, gs: seq<nat>, k: nat, addr: Octets)
    requires gs != [] && AllShort(gs) && i <= end < |s| && s[i..end] == Join(gs) && s[end] == ':'
    requires k % 2 == 0 && k + 2 * |gs| <= 16
    ensures i < end && V6Forward(s, i, end, k, addr) == Found(addr[..k] + GroupBytes(gs) + addr[k + 2 * |gs|..])
    decreases |gs|
  {
    hide Digits, V6Group, DigitsEnd, Join, V6Store, GroupBytes;
    var g := gs[0];
    var e := i + |Digits(g, 16)|;
    FirstGroup(s, i, end, gs);
    GroupReads(s, i, e, g);
    var a := V6Store(addr, k, g / 256, g % 256);
    BytesStored(gs, k, addr);
    if |gs| > 1 {
      V6FrontReads(s, e + 1, end, gs[1..], k + 2, a);
    }
  }

  lemma BytesStored(gs: seq<nat>, k: nat, addr: Octets)
    requires gs != [] && AllShort(gs) && k + 2 * |gs| <= 16
    ensures var a, m := V6Store(addr, k, gs[0] / 256, gs[0] % 256), addr[..k] + GroupBytes(gs) + addr[k + 2 * |gs|..];
            && (|gs| == 1 ==> a == m)
            && a[..k + 2] + GroupBytes(gs[1..]) + a[k + 2 + 2 * |gs[1..]|..] == m
  {
    var two, t := Before(gs[0], []), GroupBytes(gs[1..]);
    var a := V6Store(addr, k, gs[0] / 256, gs[0] % 256);
    GroupBytesCons(gs);
    TwoStored(gs[0], k, addr);
    hide GroupBytes, Before, V6Store;
    var rest := addr[k + 2 * |gs|..];
    assert a[k + 2 + 2 * |gs[1..]|..] == a[k + 2..][2 * |gs[1..]|..] == rest;
    assert addr[..k] + two + t + rest == addr[..k] + (two + t) + rest;
    if |gs| == 1 {
      assert t == [] && a == a[..k + 2] + a[k + 2..];
    }
  }

  lemma TwoStored(g: nat, k: nat, addr: Octets)
    requires g < 0x1_0000 && k <= 14
    ensures V6Store(addr, k, g / 256, g % 256)[..k + 2] == addr[..k] + Before(g, [])
    ensures V6Store(addr, k, g / 256, g % 256)[k + 2..] == addr[k + 2..]
  {
  }

  lemma GroupBytesCons(gs: seq<nat>)
    requires gs != [] && AllShort(gs)
    ensures GroupBytes(gs) == Before(gs[0], []) + GroupBytes(gs[1..])
  {
    GroupBytesConcat([gs[0]], gs[1..]);
    assert [gs[0]] + gs[1..] == gs;
    OneGroup(gs[0]);
  }

  lemma OneGroup(g: nat)
    requires g < 0x1_0000
    ensures GroupBytes([g]) == Before(g, [])
  {
  }

  lemma FirstGroup(s: string, i: nat, end: nat, gs: seq<nat>)
    requires gs != [] && AllShort(gs) && i <= end < |s| && s[i..end] == Join(gs) && s[end] == ':'
    ensures var e := i + |Digits(gs[0], 16)|;
            && i < e <= end && GroupAt(s, i, e, gs[0])
            && (|gs| == 1 ==> e == end)
            && (|gs| > 1 ==> s[e] == ':' && e + 1 < end && s[e + 1..end] == Join(gs[1..]))
  {
    hide Digits, Join;
    var d := Digits(gs[0], 16);
    if |gs| == 1 {
      JoinOne(gs);
    } else {
      JoinCons(gs);
      JoinIsPlain(gs[1..]);
      SplitText(s, i, end, d + ":", Join(gs[1..]));
      SplitText(s, i, i + |d| + 1, d, ":");
      assert s[i + |d|] == s[i + |d|..i + |d| + 1][0];
    }
  }

  /** An IPv6 address without a zero group. */
  lemma V6ReadsAll(s: string, e: nat, addr: seq<byte>)
    requires |addr| == 16 && e < |s| && s[..e] == Join(Groups(addr)) && s[e] == '/'
    ensures e > 0 && V6Address(s, e - 1) == Found(addr)
  {
    hide Digits, V6Back, V6Forward, Groups, Join;
    var g := Groups(addr);
    assert s[0..e] == s[..e];
    assert Tail([]) == seq(16, _ => 0);
    GroupBytesOfGroups(addr);
    GroupsAreShort(addr);
    V6BackReads(s, 0, e, g, []);
    assert GroupBytes(g) + [] == addr == Tail(addr);
    JoinIsPlain(g);
  }

  /** The groups after the `::` that ends before `b`. */
  lemma V6ReadsRest(s: string, b: nat, e: nat, rest: seq<nat>)
    requires |rest| < 8 && AllShort(rest) && 2 <= b <= e <= |s| && s[b - 2] == ':' && s[b - 1] == ':'
    requires s[b..e] == Join(rest) && (e < |s| ==> s[e] == '/')
    ensures V6Back(s, e - 1, 0, Tail([])) == AtGap(b, GroupBytes(rest))
  {
    hide Digits, V6Back;
    if rest == [] {
      V6BackReadsNothing(s, b);
      assert GroupBytes(rest) == [];
    } else {
      V6BackReads(s, b, e, rest, []);
      assert GroupBytes(rest) + [] == GroupBytes(rest);
    }
  }

  /** An IPv6 address with a run of zero groups. */
  lemma V6ReadsAround(s: string, e: nat, addr: seq<byte>, start: nat, len: nat)
    requires |addr| == 16 && start + len <= 8 && len >= 1 && ZeroRun(Groups(addr), start, len)
    requires e < |s| && s[..e] == Join(Groups(addr)[..start]) + "::" + Join(Groups(addr)[start + len..]) && s[e] == '/'
    ensures e > 0 && V6Address(s, e - 1) == Found(addr)
  {
    hide Digits, V6Back, V6Forward, Groups, Join, GroupBytes, Tail;
    var front, rest := Groups(addr)[..start], Groups(addr)[start + len..];
    var b := |Join(front)| + 2;
    assert s[0..e] == s[..e];
    SplitText(s, 0, e, Join(front) + "::", Join(rest));
    SplitText(s, 0, b, Join(front), "::");
    assert s[b - 2] == s[b - 2..b][0] && s[b - 1] == s[b - 2..b][1];
    GroupsAreShort(addr);
    GroupBytesOfGroups(addr);
    assert Groups(addr) == front + Groups(addr)[start..start + len] + rest;
    AroundZeros(front, Groups(addr)[start..start + len], rest);
    V6ReadsRest(s, b, e, rest);
    TailOfNothing();
    if start == 0 {
      JoinNothing(front);
      assert GroupBytes(front) + Tail(GroupBytes(rest))[0..] == Tail(GroupBytes(rest));
    } else {
      JoinIsPlain(front);
      V6FrontReads(s, 0, b - 2, front, 0, Tail(GroupBytes(rest)));
      assert Tail(GroupBytes(rest))[..0] + GroupBytes(front) == GroupBytes(front);
    }
  }

  lemma TailOfNothing()
    ensures Tail([]) == seq(16, _ => 0)
  {
  }

  /** The text of an IPv6 address, up to the slash, reads back as its octets. */
  lemma V6Reads(s: string, addr: seq<byte>, r: Run)
    requires |addr| == 16 && LongestRun(Groups(addr), r)
    requires r.Run? ==> r.start + r.len <= 8
    requires var a := V6Text(Groups(addr), r); |a| < |s| && s[..|a|] == a && s[|a|] == '/'
    ensures |V6Text(Groups(addr), r)| > 0
    ensures V6Address(s, |V6Text(Groups(addr), r)| - 1) == Found(addr)
  {
    hide Digits, V6Address, Groups, LongestRun, Join;
    RunFits(Groups(addr), r);
    var e := |V6Text(Groups(addr), r)|;
    match r
    case NoRun => V6ReadsAll(s, e, addr);
    case Run(start, len) => V6ReadsAround(s, e, addr, start, len);
  }

  lemma JoinNothing(gs: seq<nat>)
    requires gs == []
    ensures Join(gs) == ""
  {
  }

  lemma GroupsAreShort(addr: seq<byte>)
    requires |addr| == 16
    ensures AllShort(Groups(addr))
  {
  }

  lemma GroupBytesConcat(x: seq<nat>, y: seq<nat>)
    requires AllShort(x) && AllShort(y)
    ensures GroupBytes(x + y) == GroupBytes(x) + GroupBytes(y)
  {
    forall m | 0 <= m < 2 * |x + y| ensures GroupBytes(x + y)[m] == (GroupBytes(x) + GroupBytes(y))[m] {
      var k := m - 2 * |x|;
      assert k / 2 == m / 2 - |x| && k % 2 == m % 2;
    }
  }

  /** The octets around a run of zeros, put where they belong. */
  lemma AroundZeros(front: seq<nat>, zeros: seq<nat>, rest: seq<nat>)
    requires AllShort(front) && AllShort(rest) && |front| + |zeros| + |rest| == 8
    requires forall k :: 0 <= k < |zeros| ==> zeros[k] == 0
    ensures GroupBytes(front) + Tail(GroupBytes(rest))[2 * |front|..] == GroupBytes(front + zeros + rest)
  {
    hide GroupBytes, Tail;
    ZeroGroups(zeros);
    GroupBytesConcat(front, zeros);
    GroupBytesConcat(front + zeros, rest);
    TailFrom(GroupBytes(rest), |front|, |zeros|);
  }

  lemma ZeroGroups(gs: seq<nat>)
    requires forall k :: 0 <= k < |gs| ==> gs[k] == 0
    ensures GroupBytes(gs) == seq(2 * |gs|, _ => 0)
  {
  }

  lemma TailFrom(done: seq<byte>, start: nat, len: nat)
    requires |done| == 16 - 2 * start - 2 * len
    ensures Tail(done)[2 * start..] == seq(2 * len, _ => 0) + done
  {
  }

  lemma V6IsPrinted(s: string, addr: seq<byte>, r: Run, n: nat)
    requires |addr| == 16 && (r.Run? ==> r.start + r.len <= 8) && n <= 128
    requires s == V6Text(Groups(addr), r) + "/" + Digits(n, 10)
    ensures Printed(s, V6Text(Groups(addr), r), n) && ProtoOf(s) == IPv6
  {
    hide Digits, Groups, V6Text, Find, DigitsEnd;
    GroupsAreShort(addr);
    V6TextIsPlain(Groups(addr), r);
    V6FirstColon(s, Groups(addr), r, "/" + Digits(n, 10));
  }

  lemma V6TextIsPlain(g: seq<nat>, r: Run)
    requires |g| == 8 && AllShort(g) && (r.Run? ==> r.start + r.len <= 8)
    ensures Plain(V6Text(g, r)) && 0 < |V6Text(g, r)| <= 100
  {
    hide Join;
    match r
    case NoRun => JoinIsPlain(g);
    case Run(start, len) =>
      JoinIsPlain(g[..start]);
      JoinIsPlain(g[start + len..]);
  }

  lemma V6FirstColon(s: string, g: seq<nat>, r: Run, more: string)
    requires |g| == 8 && AllShort(g) && (r.Run? ==> r.start + r.len <= 8) && s == V6Text(g, r) + more
    ensures Find(s, ':', 0) <= 4 && Find(s, ':', 0) < |s|
  {
    hide Digits, Join, Find;
    match r
    case NoRun =>
      JoinCons(g);
      ColonWithin(s, g[0]);
    case Run(start, len) =>
      var front := g[..start];
      if start == 0 {
        JoinNothing(front);
        FindIs(s, ':', 0, 0);
      } else {
        if start == 1 {
          JoinOne(front);
        } else {
          JoinCons(front);
        }
        ColonWithin(s, g[0]);
      }
  }

  lemma JoinOne(gs: seq<nat>)
    requires |gs| == 1
    ensures Join(gs) == Digits(gs[0], 16)
  {
  }

  /** The first colon comes after at most four digits. */
  lemma ColonWithin(s: string, g: nat)
    requires |Digits(g, 16)| < |s| && s[|Digits(g, 16)|] == ':' && g < 0x1_0000
    ensures Find(s, ':', 0) <= 4 && Find(s, ':', 0) < |s|
  {
    hide Digits;
    ShortDigits(g);
  }

  /** Printing without flags and parsing give back an equal block: every well-formed IPv4 and IPv6 block, wherever its
      longest run of zeros lies, whatever its prefix length. */
  lemma TextRoundTrip(b: Block, p: nat, s: string)
    requires WellFormed(b, p) && IsText(b, s)
    ensures Parse(s).Parsed? && Equals(Parse(s).block, b)
    ensures var c := Parse(s).block; WellFormed(c, p) && c.proto == b.proto && OwnBits(c) == OwnBits(b)
  {
    hide Unpack, PrefixLength, MaskOf, IsText, Parse, WellFormed, OwnBits, Equals;
    PrefixLengthOf(b, p);
    PrefixIsBehind(b, p);
    if b.proto == IPv4 {
      V4Parses(b, p - 96, s);
    } else {
      V6Parses(b, p, s);
    }
    ReadBackIs(b, p, Parse(s).block);
  }

  lemma PrefixIsBehind(b: Block, p: nat)
    requires WellFormed(b, p)
    ensures IsBlock(b) && b.proto != NoProto && Start(b.proto) <= p <= 128
  {
  }

  lemma ReadBackIs(b: Block, p: nat, c: Block)
    requires WellFormed(b, p)
    requires c == if b.proto == IPv4 then Block(IPv4, V4Mapped[..12] + b.addr[12..], MaskOf(p)) else Block(IPv6, b.addr, MaskOf(p))
    ensures WellFormed(c, p) && c.proto == b.proto && Equals(c, b) && OwnBits(c) == OwnBits(b)
  {
    hide Unpack, MaskOf;
    UnpackInjective(b.mask, MaskOf(p));
    assert c.addr[12..] == b.addr[12..];
    EqualMeans(c, p, b, p);
  }

  lemma V4Parses(b: Block, n: nat, s: string)
    requires IsBlock(b) && b.proto == IPv4 && IsText(b, s) && PrefixLength(b) == n <= 32
    ensures Parse(s) == Parsed(Block(IPv4, V4Mapped[..12] + b.addr[12..], MaskOf(96 + n)))
  {
    hide Parse, PrefixLength, MaskOf, Digits, V4Octets, ProtoOf, Dots, V4Text, SkipSlashes;
    var a := V4Text(b.addr);
    V4Reads(s, b.addr, n);
    PrintedShape(s, a, n);
    PrefixIsRead(s, a, n, IPv4);
  }

  lemma V6Parses(b: Block, n: nat, s: string)
    requires IsBlock(b) && b.proto == IPv6 && IsText(b, s) && PrefixLength(b) == n
    ensures Parse(s) == Parsed(Block(IPv6, b.addr, MaskOf(n)))
  {
    hide Parse, PrefixLength, MaskOf, Digits, V6Text, ZeroRun, Groups;
    var g := Groups(b.addr);
    var r :| LongestRun(g, r) && (RunFits(g, r); s == V6Text(g, r) + "/" + Digits(n, 10));
    RunFits(g, r);
    V6ParsesRun(b, n, s, r);
  }

  lemma V6ParsesRun(b: Block, n: nat, s: string, r: Run)
    requires IsBlock(b) && b.proto == IPv6 && PrefixLength(b) == n && LongestRun(Groups(b.addr), r)
    requires (r.Run? ==> r.start + r.len <= 8) && s == V6Text(Groups(b.addr), r) + "/" + Digits(n, 10)
    ensures Parse(s) == Parsed(Block(IPv6, b.addr, MaskOf(n)))
  {
    hide Parse, PrefixLength, MaskOf, Digits, V6Address, ProtoOf, Dots, V6Text, SkipSlashes, ZeroRun, Groups, LongestRun;
    RunFits(Groups(b.addr), r);
    V6IsPrinted(s, b.addr, r, n);
    PrintedShape(s, V6Text(Groups(b.addr), r), n);
    PrefixIsRead(s, V6Text(Groups(b.addr), r), n, IPv6);
    V6Reads(s, b.addr, r);
  }

  lemma RunFits(g: seq<nat>, r: Run)
    requires LongestRun(g, r)
    ensures r.Run? ==> r.start + r.len <= |g| && r.len >= 1 && ZeroRun(g, r.start, r.len)
  {
  }

  /** The two calls one after the other: there is a text, it is accepted, and `cidr_equals` gives 0. */
  method PrintAndParse(block: Cidr, ghost p: nat) returns (again: Cidr, equal: int)
    requires block.Valid() && WellFormed(block.Value(), p)
    ensures again.Valid() && Equals(again.Value(), block.Value()) && equal == 0
    ensures WellFormed(again.Value(), p) && again.proto == block.proto && OwnBits(again.Value()) == OwnBits(block.Value())
  {
    hide Parse, PrefixLength, IsText, Unpack;
    PrefixLengthOf(block.Value(), p);
    var text := CidrToStr(block);
    TextRoundTrip(block.Value(), p, text.value);
    var parsed, _ := CidrFromStr(text.value);
    again := parsed;
    equal := EqualBlocks(again, block);
  }
}
