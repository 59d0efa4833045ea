/** Every way to write an IPv6 address: groups, two colons, and four dotted octets at the end; and its netmasks. */
module CidrForms6 {
  import opened Bits
  import opened CidrBlock
  import opened CidrText
  import opened CidrPrint
  import opened CidrParse
  import opened CidrRoundTrip
  import opened CidrLimits
  import opened CidrForms

  /** Eight groups, or groups around two colons. */
  datatype Form = Eight(gs: seq<nat>) | Around(gs: seq<nat>, hs: seq<nat>)

  predicate IsForm(f: Form) {
    AllShort(f.gs) && match f case Eight(gs) => |gs| == 8 case Around(_, hs) => AllShort(hs)
  }

  function TextOf(f: Form): string {
    match f
    case Eight(gs) => Join(gs)
    case Around(gs, hs) => Join(gs) + "::" + Join(hs)
  }

  function AddressIn(f: Form): Address
    requires IsForm(f)
  {
    match f
    case Eight(gs) => Found(GroupBytes(gs))
    case Around(gs, hs) => AddressAround(gs, hs)
  }

  lemma FormReads(s: string, e: nat, f: Form)
    requires IsForm(f) && e <= |s| && (e < |s| ==> s[e] == '/') && s[..e] == TextOf(f)
    ensures e >= 2 && V6Address(s, e - 1) == AddressIn(f)
  {
    hide Join, GroupBytes, V6Back, Tail, AddressAround;
    match f
    case Eight(gs) =>
      assert s[0..e] == s[..e];
      TailOfNothing();
      V6BackReads(s, 0, e, gs, []);
      assert GroupBytes(gs) + [] == GroupBytes(gs);
      WholeTail(GroupBytes(gs));
      JoinIsPlain(gs);
      LongJoin(gs);
    case Around(gs, hs) => AroundGap(s, e, gs, hs);
  }

  lemma WholeTail(octets: seq<byte>)
    requires |octets| == 16
    ensures Tail(octets) == octets
  {
  }

  lemma LongJoin(gs: seq<nat>)
    requires |gs| > 1
    ensures |Join(gs)| >= 2
  {
    hide Digits;
  }

  lemma FormText(f: Form)
    requires AllShort(f.gs) && match f case Eight(gs) => |gs| > 1 case Around(_, hs) => AllShort(hs)
    ensures var a := TextOf(f);
            && |a| >= 2 && Find(a, ':', 0) <= 4 && (exists k :: 0 <= k < |a| && a[k] == ':')
            && forall k :: 0 <= k < |a| ==> IsHexDigit(a[k]) || IsMaskMark(a[k])
  {
    hide Join, Digits, Find;
    var a := TextOf(f);
    JoinIsPlain(f.gs);
    if f.gs == [] {
      JoinNothing(f.gs);
      FindIs(a, ':', 0, 0);
    } else {
      if |f.gs| == 1 {
        JoinOne(f.gs);
      } else {
        JoinCons(f.gs);
        LongJoin(f.gs);
      }
      ColonWithin(a, f.gs[0]);
    }
    match f
    case Eight(_) =>
    case Around(gs, hs) =>
      JoinIsPlain(hs);
      assert a[|Join(gs)|] == ':';
  }

  lemma {:induction false} FindPrefix(a: string, b: string, c: char, from: nat)
    requires from <= |a| && Find(a, c, from) < |a|
    ensures Find(a + b, c, from) == Find(a, c, from)
  {
    var k := Find(a, c, from);
    assert forall i :: 0 <= i < |a| ==> (a + b)[i] == a[i];
    FindIs(a + b, c, from, k);
  }

  /** The block of an address, if it is in bounds. */
  function BlockOf(a: Address, p: nat): Outcome
    requires p <= 128
  {
    match a
    case NotFound => Rejected
    case OutOfBounds => PastTheEnd
    case Found(addr) => Parsed(Block(IPv6, addr, MaskOf(p)))
  }

  lemma FormParses(f: Form)
    requires IsForm(f) && |TextOf(f)| <= 0x1_0000
    ensures Parse(TextOf(f)) == BlockOf(AddressIn(f), 128)
  {
    hide V6Address, MaskOf, OnlyAddressChars, IsReverseName, LastSlash, Find, TextOf, AddressIn;
    var s := TextOf(f);
    assert s[..|s|] == s;
    FormText(f);
    GroupsAreAddress(s);
    FormReads(s, |s|, f);
    NoSlash(s);
  }

  lemma GroupsAreAddress(s: string)
    requires forall k :: 0 <= k < |s| ==> IsHexDigit(s[k]) || IsMaskMark(s[k]) || s[k] == '/'
    ensures OnlyAddressChars(s) && !IsReverseName(s)
  {
    hide Lower, IsReverseName;
    forall k | 0 <= k < |s| ensures Lower(s[k]) != 'p' && Lower(s[k]) != 'i' {
      MarkLetter(s[k]);
    }
    NoName(s);
  }

  lemma NoName(s: string)
    requires forall k :: 0 <= k < |s| ==> Lower(s[k]) != 'p' && Lower(s[k]) != 'i'
    ensures !IsReverseName(s)
  {
    hide Lower;
    NoSuffixAt(s, ".arpa", 3);
    NoSuffixAt(s, ".ip6.int", 1);
  }

  lemma MarkLetter(c: char)
    requires IsHexDigit(c) || IsMaskMark(c) || c == '/'
    ensures Lower(c) != 'p' && Lower(c) != 'i'
  {
  }

  /** An address in any form, and behind the slash a netmask in any form of groups. */
  lemma NetmaskParses(f: Form, m: Form)
    requires IsForm(f) && IsForm(m) && |TextOf(f) + "/" + TextOf(m)| <= 0x1_0000
    ensures var o := Parse(TextOf(f) + "/" + TextOf(m));
            match AddressIn(m)
            case Found(octets) =>
              && (forall p: nat :: IsMask(octets, p) ==> o == BlockOf(AddressIn(f), p))
              && ((forall p: nat :: !IsMask(octets, p)) ==> o == Rejected)
            case _ => o == PastTheEnd
  {
    hide Parse, MaskOf, TextOf, AddressIn, IsMask, PrefixLength, AsMask, BlockOf, Finish;
    var a, t := TextOf(f), TextOf(m);
    var s := a + "/" + t;
    FormText(f);
    FormText(m);
    Slashed(a, t);
    MaskedParse(s, |a|, f, t);
    FormParses(m);
    AddressIsInBounds(m);
    OutOfBoundsIs(AddressIn(m));
    if AddressIn(m).Found? {
      var c := Block(IPv6, AddressIn(m).addr, MaskOf(128));
      MaskLength6(c);
      if p: nat :| IsMask(c.addr, p) {
        MaskFits(c.addr, p);
        FinishIs(s, |a|, f, t, p);
        OneMask(c.addr, p);
      }
    }
  }

  lemma OutOfBoundsIs(a: Address)
    ensures a.OutOfBounds? ==> BlockOf(a, 128) == PastTheEnd
    ensures a.Found? ==> BlockOf(a, 128) == Parsed(Block(IPv6, a.addr, MaskOf(128)))
  {
  }

  lemma MaskFits(octets: Octets, p: nat)
    requires IsMask(octets, p)
    ensures p <= 128
  {
  }

  lemma OneMask(octets: Octets, p: nat)
    requires IsMask(octets, p)
    ensures forall q: nat :: IsMask(octets, q) ==> q == p
  {
    hide Unpack;
    forall q: nat | IsMask(octets, q) ensures q == p {
      SameOnes(p, q, 0);
    }
  }

  /** A slash in front of which the address stands, and behind which a colon comes. */
  ghost predicate Masked(s: string, e: nat, f: Form, mask: string) {
    && IsForm(f) && e < |s| && s[e] == '/' && s[..e] == TextOf(f) && s[e + 1..] == mask && |s| <= 0x1_0000
    && (forall k :: 0 <= k < |mask| ==> IsHexDigit(mask[k]) || IsMaskMark(mask[k]))
    && exists k :: 0 <= k < |mask| && mask[k] == ':'
  }

  lemma MaskedParse(s: string, e: nat, f: Form, mask: string)
    requires Masked(s, e, f, mask)
    ensures var m := Parse(mask);
            Parse(s) == if !m.Parsed? then m
                        else
                          var pflen := PrefixLength(AsMask(IPv6, m.block));
                          if pflen == -1 then Rejected else Finish(IPv6, s, e, pflen)
  {
    hide OnlyAddressChars, IsReverseName, LastSlash, Find, TextOf, HasMask, SkipSlashes, PrefixLength, Finish, AsMask, IsMaskMark, IsHexDigit, Dots;
    ColonIsMark(mask);
    FormText(f);
    SlashedGroups(s, e);
    GroupsAreAddress(s);
    SlashAt(s, e);
    MaskAfter(s, e);
    FindPrefix(s[..e], s[e..], ':', 0);
    assert s[..e] + s[e..] == s;
  }

  lemma ColonIsMark(mask: string)
    ensures (exists k :: 0 <= k < |mask| && mask[k] == ':') ==> exists k :: 0 <= k < |mask| && IsMaskMark(mask[k])
    ensures IsMaskMark(':') && !IsMaskMark('/') && !IsHexDigit('/')
  {
    if k :| 0 <= k < |mask| && mask[k] == ':' {
      assert IsMaskMark(mask[k]);
    }
  }

  lemma FinishIs(s: string, e: nat, f: Form, mask: string, p: nat)
    requires Masked(s, e, f, mask) && p <= 128
    ensures Finish(IPv6, s, e, p) == BlockOf(AddressIn(f), p)
  {
    hide V6Address, MaskOf, LastSlash, SkipSlashes, TextOf, AddressIn;
    FormText(f);
    SlashedGroups(s, e);
    SlashAt(s, e);
    FormReads(s, e, f);
  }

  lemma SlashedGroups(s: string, e: nat)
    requires e < |s| && s[e] == '/'
    requires forall k :: 0 <= k < e ==> IsHexDigit(s[..e][k]) || IsMaskMark(s[..e][k])
    requires var m := s[e + 1..]; forall k :: 0 <= k < |m| ==> IsHexDigit(m[k]) || IsMaskMark(m[k])
    ensures forall k :: 0 <= k < |s| && k != e ==> IsHexDigit(s[k]) || IsMaskMark(s[k])
    ensures forall k :: 0 <= k < |s| ==> (s[k] == '/' <==> k == e)
  {
    forall k | 0 <= k < |s| && k != e ensures IsHexDigit(s[k]) || IsMaskMark(s[k]) {
      if k < e {
        assert s[k] == s[..e][k];
      } else {
        assert s[k] == s[e + 1..][k - e - 1];
      }
    }
  }

  lemma AddressIsInBounds(f: Form)
    requires IsForm(f)
    ensures !AddressIn(f).NotFound?
  {
  }

  lemma MaskLength6(c: Block)
    requires c.proto == IPv6 && IsBlock(c)
    ensures forall p: nat :: IsMask(c.addr, p) ==> PrefixLength(AsMask(IPv6, c)) == p
    ensures (forall p: nat :: !IsMask(c.addr, p)) ==> PrefixLength(AsMask(IPv6, c)) == -1
  {
    hide Unpack, LeadingOnes;
    var m := AsMask(IPv6, c);
    assert MaskBits(m)[0..] == Unpack(c.addr);
    OwnMask(m, c.addr);
  }

  // ----- four dotted octets at the end -----

  /** A decimal number of the quad at `from`, up to `to`, behind a dot or the colon in front of the first. */
  ghost predicate QuadPart(s: string, from: nat, to: nat, v: nat, first: bool) {
    && 2 <= from < to <= |s| && s[from..to] == Digits(v, 10) && v <= 255
    && (to == |s| || s[to] == '.' || s[to] == '/') && s[from - 1] == if first then ':' else '.'
  }

  ghost predicate QuadAt(s: string, p0: nat, p1: nat, p2: nat, p3: nat, e: nat, q: seq<byte>) {
    && |q| == 4 && p0 < p1 < p2 < p3 < e && e <= |s|
    && QuadPart(s, p0, p1 - 1, q[0], true) && QuadPart(s, p1, p2 - 1, q[1], false)
    && QuadPart(s, p2, p3 - 1, q[2], false) && QuadPart(s, p3, e, q[3], false)
  }

  function QuadText(q: seq<byte>): string
    requires |q| == 4
  {
    Digits(q[0], 10) + "." + Digits(q[1], 10) + "." + Digits(q[2], 10) + "." + Digits(q[3], 10)
  }

  lemma QuadStands(s: string, p0: nat, e: nat, q: seq<byte>)
    returns (p1: nat, p2: nat, p3: nat)
    requires |q| == 4 && 2 <= p0 <= e <= |s| && s[p0..e] == QuadText(q) && s[p0 - 1] == ':' && (e < |s| ==> s[e] == '/')
    ensures QuadAt(s, p0, p1, p2, p3, e, q)
  {
    hide Digits, QuadAt;
    var d0, d1, d2, d3 := Digits(q[0], 10), Digits(q[1], 10), Digits(q[2], 10), Digits(q[3], 10);
    p1 := p0 + |d0| + 1;
    p2 := p1 + |d1| + 1;
    p3 := p2 + |d2| + 1;
    SplitText(s, p0, e, d0 + "." + d1 + "." + d2 + ".", d3);
    SplitText(s, p0, p3, d0 + "." + d1 + "." + d2, ".");
    SplitText(s, p0, p3 - 1, d0 + "." + d1 + ".", d2);
    SplitText(s, p0, p2, d0 + "." + d1, ".");
    SplitText(s, p0, p2 - 1, d0 + ".", d1);
    SplitText(s, p0, p1, d0, ".");
    DotAt(s, p1 - 1);
    DotAt(s, p2 - 1);
    DotAt(s, p3 - 1);
    PartsTogether(s, p0, p1, p2, p3, e, q);
  }

  lemma PartsTogether(s: string, p0: nat, p1: nat, p2: nat, p3: nat, e: nat, q: seq<byte>)
    requires |q| == 4 && 2 <= p0 < p1 - 1 && p1 < p2 - 1 && p2 < p3 - 1 && p3 < e <= |s| && (e < |s| ==> s[e] == '/')
    requires s[p0..p1 - 1] == Digits(q[0], 10) && s[p1..p2 - 1] == Digits(q[1], 10)
    requires s[p2..p3 - 1] == Digits(q[2], 10) && s[p3..e] == Digits(q[3], 10)
    requires s[p0 - 1] == ':' && s[p1 - 1] == s[p2 - 1] == s[p3 - 1] == '.'
    ensures QuadAt(s, p0, p1, p2, p3, e, q)
  {
    hide Digits;
  }

  lemma {:induction false} QuadSkip(s: string, i: nat, j: nat, nocts: nat, addr: Octets)
    requires j <= i < |s| && nocts < 4 && forall k :: j < k <= i ==> IsDigit(s[k])
    ensures V6Dotted(s, i, nocts, addr) == V6Dotted(s, j, nocts, addr)
    decreases i - j
  {
    if j < i {
      QuadSkip(s, i - 1, j, nocts, addr);
    }
  }

  lemma PartReads(s: string, from: nat, to: nat, v: nat, first: bool)
    requires QuadPart(s, from, to, v, first)
    ensures Strtoul(s, from, 10) == Number(v, to) && forall k :: from <= k < to ==> IsDigit(s[k])
  {
    hide Digits, Strtoul;
    assert forall k :: from <= k < to ==> s[k] == Digits(v, 10)[k - from];
    StrtoulReads(s, from, v, 10);
  }

  /** One number, read backwards from any of its digits or from behind the mark before it. */
  lemma QuadStep(s: string, from: nat, to: nat, v: nat, i: nat, nocts: nat, addr: Octets)
    requires QuadPart(s, from, to, v, nocts == 3) && nocts <= 3 && from - 1 <= i < to
    ensures V6Dotted(s, i, nocts, addr) == V6Dotted(s, from - 2, nocts + 1, addr[15 - nocts := v])
  {
    hide Strtoul;
    PartReads(s, from, to, v, nocts == 3);
    QuadSkip(s, i, from - 1, nocts, addr);
  }

  lemma QuadReads(s: string, p0: nat, p1: nat, p2: nat, p3: nat, e: nat, q: seq<byte>)
    requires QuadAt(s, p0, p1, p2, p3, e, q)
    ensures V6Dotted(s, p3, 0, seq(16, _ => 0)) == Dotted(p0 - 2, 4, Tail(q))
  {
    hide QuadPart, V6Dotted;
    Inside(s, p0, p1, p2, p3, e, q);
    var x: Octets := seq(16, _ => 0);
    QuadStep(s, p3, e, q[3], p3, 0, x);
    QuadStep(s, p2, p3 - 1, q[2], p3 - 2, 1, x[15 := q[3]]);
    QuadStep(s, p1, p2 - 1, q[1], p2 - 2, 2, x[15 := q[3]][14 := q[2]]);
    QuadStep(s, p0, p1 - 1, q[0], p1 - 2, 3, x[15 := q[3]][14 := q[2]][13 := q[1]]);
    assert x[15 := q[3]][14 := q[2]][13 := q[1]][12 := q[0]] == Tail(q);
    FourAreEnough(s, p0 - 2, Tail(q));
  }

  lemma Inside(s: string, p0: nat, p1: nat, p2: nat, p3: nat, e: nat, q: seq<byte>)
    requires QuadAt(s, p0, p1, p2, p3, e, q)
    ensures 2 <= p0 < p1 - 1 && p1 < p2 - 1 && p2 < p3 - 1 && p3 < e
    ensures s[p0 - 1] == ':' && s[p1 - 1] == s[p2 - 1] == s[p3 - 1] == '.'
  {
  }

  lemma FourAreEnough(s: string, i: nat, addr: Octets)
    requires i <= |s|
    ensures V6Dotted(s, i, 4, addr) == Dotted(i, 4, addr)
  {
  }

  /** Behind the quad the scan goes on in front of its colon, four octets further. */
  lemma QuadBack(s: string, p0: nat, p1: nat, p2: nat, p3: nat, e: nat, q: seq<byte>)
    requires QuadAt(s, p0, p1, p2, p3, e, q)
    ensures V6Back(s, e - 1, 0, Tail([])) == V6Back(s, p0 - 2, 4, Tail(q))
  {
    hide V6Dotted, Tail, V6Back, QuadPart;
    Inside(s, p0, p1, p2, p3, e, q);
    PartReads(s, p3, e, q[3], false);
    V6Skip(s, e - 1, p3 - 1, 0, Tail([]));
    TailOfNothing();
    QuadReads(s, p0, p1, p2, p3, e, q);
    AtDot(s, p3 - 1, p0 - 2, Tail([]), Tail(q));
  }

  lemma AtDot(s: string, at: nat, i: nat, addr: Octets, read: Octets)
    requires i + 1 < at < |s| && s[at] == '.' && s[i + 1] == ':' && V6Dotted(s, at + 1, 0, addr) == Dotted(i, 4, read)
    ensures V6Back(s, at, 0, addr) == V6Back(s, i, 4, read)
  {
    hide V6Dotted, V6BackFrom;
  }

  // ----- forms with a quad -----

  /** The two groups of a quad. */
  function QuadGroups(q: seq<byte>): (gs: seq<nat>)
    requires |q| == 4
    ensures |gs| == 2
  {
    [Group(q[0], q[1]), Group(q[2], q[3])]
  }

  /** The same form with the groups of the quad written out. */
  function WithQuad(f: Form, q: seq<byte>): (g: Form)
    requires |q| == 4
  {
    match f
    case Eight(gs) => Eight(gs + QuadGroups(q))
    case Around(gs, hs) => Around(gs, hs + QuadGroups(q))
  }

  /** Six groups and a quad, or groups around two colons and a quad. */
  function TextWithQuad(f: Form, q: seq<byte>): string
    requires |q| == 4
  {
    TextOf(f) + (if f.Around? && f.hs == [] then "" else ":") + QuadText(q)
  }

  lemma QuadBytes(hs: seq<nat>, q: seq<byte>)
    requires |q| == 4 && AllShort(hs)
    ensures AllShort(hs + QuadGroups(q)) && GroupBytes(hs + QuadGroups(q)) == GroupBytes(hs) + q
  {
    hide GroupBytes;
    GroupBytesConcat(hs, QuadGroups(q));
    BytesOfQuad(q);
  }

  lemma BytesOfQuad(q: seq<byte>)
    requires |q| == 4
    ensures AllShort(QuadGroups(q)) && GroupBytes(QuadGroups(q)) == q
  {
  }

  /** A quad at the end is read as its two groups would be. */
  lemma QuadFormReads(s: string, e: nat, f: Form, q: seq<byte>)
    requires |q| == 4 && IsForm(WithQuad(f, q)) && e <= |s| && (e < |s| ==> s[e] == '/') && s[..e] == TextWithQuad(f, q)
    ensures e >= 2 && V6Address(s, e - 1) == AddressIn(WithQuad(f, q))
  {
    hide Join, GroupBytes, V6Back, Tail, AddressAround, QuadText, QuadGroups, V6Forward;
    assert s[0..e] == s[..e];
    var text := QuadText(q);
    match f
    case Eight(gs) =>
      assert IsForm(Eight(gs + QuadGroups(q)));
      ShortFront(gs, q);
      SixReads(s, e, gs, q);
    case Around(gs, hs) =>
      ShortFront(hs, q);
      AroundReads(s, e, gs, hs, q);
  }

  lemma ShortFront(gs: seq<nat>, q: seq<byte>)
    requires |q| == 4 && AllShort(gs + QuadGroups(q))
    ensures AllShort(gs)
  {
    assert forall k :: 0 <= k < |gs| ==> gs[k] == (gs + QuadGroups(q))[k];
  }

  lemma SixReads(s: string, e: nat, gs: seq<nat>, q: seq<byte>)
    requires |q| == 4 && |gs| == 6 && AllShort(gs) && e <= |s| && (e < |s| ==> s[e] == '/') && s[0..e] == Join(gs) + ":" + QuadText(q)
    ensures e >= 2 && V6Address(s, e - 1) == Found(GroupBytes(gs + QuadGroups(q)))
  {
    hide Join, GroupBytes, V6Back, Tail, QuadText, QuadGroups, QuadAt;
    JoinIsPlain(gs);
    LongJoin(gs);
    var p0 := |Join(gs)| + 1;
    SplitText(s, 0, e, Join(gs) + ":", QuadText(q));
    SplitText(s, 0, p0, Join(gs), ":");
    assert s[p0 - 1] == s[p0 - 1..p0][0];
    var p1, p2, p3 := QuadStands(s, p0, e, q);
    QuadBack(s, p0, p1, p2, p3, e, q);
    V6BackReads(s, 0, p0 - 1, gs, q);
    QuadBytes(gs, q);
    WholeTail(GroupBytes(gs) + q);
    TailOfNothing();
  }

  lemma AroundReads(s: string, e: nat, gs: seq<nat>, hs: seq<nat>, q: seq<byte>)
    requires |q| == 4 && AllShort(gs) && AllShort(hs) && e <= |s| && (e < |s| ==> s[e] == '/')
    requires s[0..e] == Join(gs) + "::" + Join(hs) + (if hs == [] then "" else ":") + QuadText(q)
    ensures AllShort(hs + QuadGroups(q))
    ensures e >= 2 && V6Address(s, e - 1) == AddressAround(gs, hs + QuadGroups(q))
  {
    hide Join, GroupBytes, V6Back, Tail, QuadText, QuadGroups, QuadAt, V6Forward;
    var b, p0 := AroundStands(s, e, gs, hs, q);
    var p1, p2, p3 := QuadStands(s, p0, e, q);
    QuadBack(s, p0, p1, p2, p3, e, q);
    QuadBytes(hs, q);
    TailOfNothing();
    if |hs| >= 6 {
      V6BackReadsEight(s, b, p0 - 1, hs, q, 6);
      LastWithQuad(hs, q);
    } else {
      if hs == [] {
        AtDoubleColon(s, b, q);
        NoGroups();
        assert [] + q == q;
      } else {
        V6BackReads(s, b, p0 - 1, hs, q);
      }
      if gs == [] {
        NoGroups();
        JoinNothing(gs);
        assert [] + Tail(GroupBytes(hs) + q)[0..] == Tail(GroupBytes(hs) + q);
      } else {
        FrontReads(s, b - 2, gs, Tail(GroupBytes(hs) + q));
        JoinIsPlain(gs);
      }
    }
  }

  lemma LastWithQuad(hs: seq<nat>, q: seq<byte>)
    requires |hs| >= 6 && |q| == 4 && AllShort(hs)
    ensures var all := hs + QuadGroups(q);
            AllShort(all) && GroupBytes(all[|all| - 8..]) == Tail(GroupBytes(hs[|hs| - 6..]) + q)
  {
    hide GroupBytes, QuadGroups;
    var all, last := hs + QuadGroups(q), hs[|hs| - 6..];
    QuadBytes(hs, q);
    QuadBytes(last, q);
    assert all[|all| - 8..] == last + QuadGroups(q);
    WholeTail(GroupBytes(last) + q);
  }

  /** Where the groups and the quad stand. */
  lemma AroundStands(s: string, e: nat, gs: seq<nat>, hs: seq<nat>, q: seq<byte>) returns (b: nat, p0: nat)
    requires |q| == 4 && AllShort(gs) && AllShort(hs) && e <= |s|
    requires s[0..e] == Join(gs) + "::" + Join(hs) + (if hs == [] then "" else ":") + QuadText(q)
    ensures b == |Join(gs)| + 2 && 2 <= b <= p0 <= e && s[0..b - 2] == Join(gs) && s[b - 2] == s[b - 1] == ':'
    ensures s[p0..e] == QuadText(q) && s[p0 - 1] == ':'
    ensures if hs == [] then p0 == b else p0 - 1 >= b && s[b..p0 - 1] == Join(hs)
  {
    hide Join, QuadText;
    var text := QuadText(q);
    b := |Join(gs)| + 2;
    var middle := Join(hs) + if hs == [] then "" else ":";
    assert Join(gs) + "::" + Join(hs) + (if hs == [] then "" else ":") + text == Join(gs) + "::" + (middle + text);
    SplitText(s, 0, e, Join(gs) + "::", middle + text);
    SplitText(s, 0, b, Join(gs), "::");
    assert s[b - 2] == s[b - 2..b][0] && s[b - 1] == s[b - 2..b][1];
    p0 := b + |middle|;
    SplitText(s, b, e, middle, text);
    if hs == [] {
      JoinNothing(hs);
    } else {
      SplitText(s, b, p0, Join(hs), ":");
      assert s[p0 - 1] == s[p0 - 1..p0][0];
    }
  }

  lemma QuadFormText(f: Form, q: seq<byte>)
    requires |q| == 4 && IsForm(WithQuad(f, q))
    ensures var a := TextWithQuad(f, q);
            && |a| >= 2 && Find(a, ':', 0) <= 4 && Find(a, ':', 0) < |a|
            && forall k :: 0 <= k < |a| ==> IsHexDigit(a[k]) || IsMaskMark(a[k])
  {
    hide Find, Join, QuadGroups, TextOf, QuadText, IsHexDigit;
    ShortFront(if f.Eight? then f.gs else f.hs, q);
    FormText(f);
    QuadChars(q);
    var rest := (if f.Around? && f.hs == [] then "" else ":") + QuadText(q);
    FindPrefix(TextOf(f), rest, ':', 0);
    assert TextOf(f) + rest == TextWithQuad(f, q);
  }

  lemma QuadChars(q: seq<byte>)
    requires |q| == 4
    ensures forall k :: 0 <= k < |QuadText(q)| ==> IsHexDigit(QuadText(q)[k]) || IsMaskMark(QuadText(q)[k])
  {
    hide Digits;
  }

  lemma QuadFormParses(f: Form, q: seq<byte>)
    requires |q| == 4 && IsForm(WithQuad(f, q)) && |TextWithQuad(f, q)| <= 0x1_0000
    ensures Parse(TextWithQuad(f, q)) == BlockOf(AddressIn(WithQuad(f, q)), 128)
  {
    hide V6Address, MaskOf, OnlyAddressChars, IsReverseName, LastSlash, Find, TextWithQuad, AddressIn, WithQuad;
    var s := TextWithQuad(f, q);
    assert s[..|s|] == s;
    QuadFormText(f, q);
    GroupsAreAddress(s);
    QuadFormReads(s, |s|, f, q);
    NoSlash(s);
  }
}
