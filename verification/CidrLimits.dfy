/** Texts that are read otherwise than the comments of the parser promise, and exactly which. */
module CidrLimits {
  import opened Bits
  import opened CidrBlock
  import opened CidrText
  import opened CidrPrint
  import opened CidrParse
  import opened CidrRoundTrip
  import opened Wrappers

  // ----- a decimal number after the slash -----

  predicate IsDecimal(d: string) {
    d != [] && d[0] != '0' && forall k :: 0 <= k < |d| ==> IsDigit(d[k])
  }

  /** `(int) strtol` of a number without sign: clamped to 63 bits, cut to 32. */
  function AsInt(v: nat): (n: int)
    ensures v < 0x8000_0000 ==> n == v
    ensures 0x8000_0000 <= v <= 0xFFFF_FFFF ==> n < 0
  {
    ((if v > LONG_MAX then LONG_MAX else v) + 0x8000_0000) % 0x1_0000_0000 - 0x8000_0000
  }

  /** The prefix length that a decimal number after the slash gives. */
  function PrefixGiven(proto: Proto, v: nat): (n: Option<nat>)
    ensures n.Some? ==> n.value <= Width(proto)
  {
    var n := AsInt(v);
    if n > Width(proto) then None else if n < 0 then Some(0) else Some(n)
  }

  /** The prefix length that the comment in `cidr_from_str` promises: the number itself, or for a number of 32 bits
      with the first bit set the ones it begins with as a netmask, which must be contiguous. */
  function PrefixPromised(proto: Proto, v: nat): Option<nat> {
    if v <= Width(proto) then Some(v)
    else if 0x8000_0000 <= v <= 0xFFFF_FFFF then
      var bits := ToBits(32, v);
      if bits[LeadingOnes(bits)..] == Zeros(32 - LeadingOnes(bits)) then Some(LeadingOnes(bits)) else None
    else None
  }

  /** The address before the slash with a mask of that many ones; none for a length that is too large. */
  function WithPrefix(proto: Proto, s: string, slash: nat, prefix: Option<nat>): Outcome
    requires slash < |s| && proto != NoProto && (proto == IPv4 ==> Dots(s, 0, slash) <= 3)
    requires prefix.Some? ==> prefix.value <= Width(proto)
  {
    if prefix.None? then Rejected
    else
      match AddressOf(proto, s, slash)
      case NotFound => Rejected
      case OutOfBounds => PastTheEnd
      case Found(addr) => Parsed(Block(proto, addr, MaskOf(Start(proto) + prefix.value)))
  }

  /** Whatever the address, a decimal number after the slash is taken as the prefix length `PrefixGiven`. */
  lemma DecimalPrefix(s: string, a: string, d: string)
    requires s == a + "/" + d && IsDecimal(d) && |s| <= 0x1_0000 && OnlyAddressChars(a)
    ensures var v, proto := DigitsValue(d, 10), ProtoOf(s);
            Parse(s) == if proto == NoProto || (proto == IPv4 && Dots(s, 0, |a|) > 3) then Rejected
                        else WithPrefix(proto, s, |a|, PrefixGiven(proto, v))
  {
    hide Parse, Finish, WithPrefix, PrefixGiven, AddressOf, ProtoOf, Dots, DigitsValue, OnlyAddressChars, AsInt;
    DecimalParse(s, a, d);
    if ProtoOf(s) != NoProto && (ProtoOf(s) == IPv4 ==> Dots(s, 0, |a|) <= 3) {
      DecimalFinish(s, |a|, ProtoOf(s), DigitsValue(d, 10));
    }
  }

  lemma DecimalParse(s: string, a: string, d: string)
    requires s == a + "/" + d && IsDecimal(d) && |s| <= 0x1_0000 && OnlyAddressChars(a)
    ensures var proto := ProtoOf(s);
            Parse(s) == if proto == NoProto || (proto == IPv4 && Dots(s, 0, |a|) > 3) then Rejected
                        else Finish(proto, s, |a|, AsInt(DigitsValue(d, 10)))
  {
    hide Finish, ProtoOf, Dots, DigitsValue, OnlyAddressChars, IsReverseName, LastSlash, HasMask, StrtolInt, AsInt;
    DecimalChars(s, a, d);
    DecimalShape(s, |a|);
    DecimalValue(s, a, d);
  }

  lemma DecimalFinish(s: string, slash: nat, proto: Proto, v: nat)
    requires slash < |s| && proto != NoProto && (proto == IPv4 ==> Dots(s, 0, slash) <= 3)
    ensures Finish(proto, s, slash, AsInt(v)) == WithPrefix(proto, s, slash, PrefixGiven(proto, v))
  {
    hide AddressOf, Dots, MaskOf, AsInt;
  }

  lemma DecimalChars(s: string, a: string, d: string)
    requires s == a + "/" + d && IsDecimal(d) && OnlyAddressChars(a)
    ensures |a| < |s| - 1 && s[|a|] == '/' && s[|a| + 1] != '0' && OnlyAddressChars(s[..|a|])
    ensures forall k :: |a| < k < |s| ==> IsDigit(s[k])
  {
    assert s[..|a|] == a;
    forall k | |a| < k < |s| ensures IsDigit(s[k]) {
      assert s[k] == d[k - |a| - 1];
    }
    assert s[|a| + 1] == d[0];
  }

  lemma DecimalShape(s: string, e: nat)
    requires e < |s| - 1 && s[e] == '/' && s[e + 1] != '0' && OnlyAddressChars(s[..e])
    requires forall k :: e < k < |s| ==> IsDigit(s[k])
    ensures OnlyAddressChars(s) && !IsReverseName(s) && LastSlash(s) == e && !HasMask(s, e)
  {
    hide IsReverseName, LastSlash;
    NoReverseName(s);
    forall k | 0 <= k < |s| ensures IsAddressChar(s[k]) {
      assert k < e ==> s[k] == s[..e][k];
    }
  }

  lemma DecimalValue(s: string, a: string, d: string)
    requires s == a + "/" + d && IsDecimal(d)
    ensures StrtolInt(s, |a| + 1) == AsInt(DigitsValue(d, 10))
  {
    hide DigitsValue;
    assert s[|a| + 1..] == d && s[|a| + 1..|s|] == d;
    assert s[|a| + 1] == d[0];
    DigitsEndIs(s, |a| + 1, |s|, 10);
  }

  lemma NoReverseName(s: string)
    requires s != [] && Lower(s[|s| - 1]) != 'a' && Lower(s[|s| - 1]) != 't'
    ensures !IsReverseName(s)
  {
    NoSuffix(s, ".arpa");
    NoSuffix(s, ".ip6.int");
  }

  /** The promise is kept exactly below 2^31 and where what is left of a larger number is too large as well. */
  lemma DecimalAsPromised(proto: Proto, v: nat)
    requires proto != NoProto
    ensures PrefixGiven(proto, v) == PrefixPromised(proto, v) <==> v < 0x8000_0000 || AsInt(v) > Width(proto)
  {
    hide ToBits;
    if 0x8000_0000 <= v <= 0xFFFF_FFFF {
      FirstBitSet(v);
    }
  }

  lemma FirstBitSet(v: nat)
    requires 0x8000_0000 <= v <= 0xFFFF_FFFF
    ensures LeadingOnes(ToBits(32, v)) > 0
  {
    hide ToBits, Pow2;
    ToBitsAt(32, v, 0);
    Pow2Is31();
    assert ToBits(32, v)[0];
  }

  lemma Pow2Is31()
    ensures Pow2(31) == 0x8000_0000
  {
    hide Pow2;
    Pow2Is7();
    Pow2Plus8(7);
    Pow2Plus8(15);
    Pow2Plus8(23);
  }

  lemma Pow2Is7()
    ensures Pow2(7) == 128
  {
  }

  /** A netmask of 24 bits, written in decimal, lets every address in. */
  lemma NetmaskLost()
    ensures PrefixGiven(IPv4, 0xFFFF_FF00) == Some(0) && PrefixPromised(IPv4, 0xFFFF_FF00) == Some(24)
  {
    hide LeadingOnes, ToBits, Val, Pow2;
    var bits := Ones(24) + Zeros(8);
    ValConcat(Ones(24), Zeros(8));
    ValOnes(24);
    ValZeros(8);
    Pow2Is24();
    ToBitsVal(bits);
    LeadingOnesAre(bits, 24);
    assert bits[24..] == Zeros(8);
  }

  lemma Pow2Is24()
    ensures Pow2(24) == 0x100_0000 && Pow2(8) == 0x100
  {
    hide Pow2;
    Pow2Plus8(0);
    Pow2Plus8(8);
    Pow2Plus8(16);
  }

  // ----- groups around a double colon -----

  /** What is read of groups around a `::`: of more than seven behind it only the last eight; more than eight in front of
      it write past the sixteen octets; and those in front of it overwrite those behind. */
  function AddressAround(gs: seq<nat>, hs: seq<nat>): Address
    requires AllShort(gs) && AllShort(hs)
  {
    if |hs| >= 8 then Found(GroupBytes(hs[|hs| - 8..]))
    else if |gs| > 8 then OutOfBounds
    else Found(GroupBytes(gs) + Tail(GroupBytes(hs))[2 * |gs|..])
  }

  /** That is the outcome of every such text, however many groups there are. */
  lemma GroupsAround(gs: seq<nat>, hs: seq<nat>)
    requires AllShort(gs) && AllShort(hs) && |Join(gs) + "::" + Join(hs)| <= 0x1_0000
    ensures Parse(Join(gs) + "::" + Join(hs))
         == match AddressAround(gs, hs)
            case Found(addr) => Parsed(Block(IPv6, addr, MaskOf(128)))
            case _ => PastTheEnd
  {
    hide Join, V6Address, MaskOf, OnlyAddressChars, IsReverseName, ProtoOf, LastSlash, AddressAround;
    var s := Join(gs) + "::" + Join(hs);
    assert s[..|s|] == s;
    GapText(s, gs, hs);
    AroundGap(s, |s|, gs, hs);
    AddressIsThere(gs, hs);
  }

  lemma AddressIsThere(gs: seq<nat>, hs: seq<nat>)
    requires AllShort(gs) && AllShort(hs)
    ensures AddressAround(gs, hs).Found? || AddressAround(gs, hs).OutOfBounds?
    ensures AddressAround(gs, hs).OutOfBounds? <==> |gs| > 8 && |hs| < 8
  {
  }

  /** The groups are what is read, with zeros between, exactly if there are at most eight. */
  lemma AroundAsWritten(gs: seq<nat>, hs: seq<nat>)
    requires AllShort(gs) && AllShort(hs)
    ensures |gs| + |hs| <= 8 ==>
              AddressAround(gs, hs) == Found(GroupBytes(gs) + seq(16 - 2 * |gs| - 2 * |hs|, _ => 0) + GroupBytes(hs))
    ensures AddressAround(gs, hs).Found? && |gs| + |hs| > 8 ==>
              && (|hs| < 8 ==> |GroupBytes(gs) + GroupBytes(hs)| > 16 && AddressAround(gs, hs).addr[..2 * |gs|] == GroupBytes(gs))
              && (|hs| >= 8 ==> AddressAround(gs, hs).addr == GroupBytes(hs[|hs| - 8..]))
  {
    hide GroupBytes, Tail;
    if |hs| >= 8 {
      assert hs[0..] == hs;
      NoGroups();
      assert |gs| + |hs| <= 8 ==> gs == [] && GroupBytes(gs) + seq(0, _ => 0) + GroupBytes(hs) == GroupBytes(hs);
    } else if |gs| + |hs| <= 8 {
      TailFrom(GroupBytes(hs), |gs|, 8 - |gs| - |hs|);
      assert GroupBytes(gs) + (seq(2 * (8 - |gs| - |hs|), _ => 0) + GroupBytes(hs))
          == GroupBytes(gs) + seq(16 - 2 * |gs| - 2 * |hs|, _ => 0) + GroupBytes(hs);
    }
  }

  /** No group after the `::`: more than eight in front of it are not seen in time. */
  lemma EndsInGap(gs: seq<nat>)
    requires AllShort(gs) && |Join(gs) + "::"| <= 0x1_0000
    ensures Parse(Join(gs) + "::")
         == if |gs| > 8 then PastTheEnd else Parsed(Block(IPv6, GroupBytes(gs) + seq(16 - 2 * |gs|, _ => 0), MaskOf(128)))
  {
    hide Parse, MaskOf, GroupBytes, AddressAround;
    JoinNothing([]);
    assert Join(gs) + "::" + Join([]) == Join(gs) + "::";
    GroupsAround(gs, []);
    AddressIsThere(gs, []);
    AroundAsWritten(gs, []);
    NoGroups();
    if |gs| <= 8 {
      assert GroupBytes(gs) + seq(16 - 2 * |gs| - 0, _ => 0) + [] == GroupBytes(gs) + seq(16 - 2 * |gs|, _ => 0);
    }
  }

  lemma NoGroups()
    ensures GroupBytes([]) == []
  {
  }

  lemma GapText(s: string, gs: seq<nat>, hs: seq<nat>)
    requires AllShort(gs) && AllShort(hs) && s == Join(gs) + "::" + Join(hs)
    ensures OnlyAddressChars(s) && !IsReverseName(s) && LastSlash(s) == -1 && ProtoOf(s) == IPv6
    ensures SkipSlashes(s, |s| - 1) == |s| - 1
  {
    hide Join, Digits, Find, DigitsEnd, IsReverseName, LastSlash;
    JoinIsPlain(gs);
    JoinIsPlain(hs);
    MarksOnly(s, Join(gs), Join(hs));
    if gs == [] {
      JoinNothing(gs);
      FindIs(s, ':', 0, 0);
    } else {
      if |gs| == 1 {
        JoinOne(gs);
      } else {
        JoinCons(gs);
      }
      ColonWithin(s, gs[0]);
    }
  }

  lemma MarksOnly(s: string, a: string, b: string)
    requires s == a + "::" + b && Plain(a) && Plain(b)
    ensures OnlyAddressChars(s) && !IsReverseName(s) && LastSlash(s) == -1 && SkipSlashes(s, |s| - 1) == |s| - 1
  {
    hide IsReverseName, LastSlash;
    forall k | 0 <= k < |s| ensures IsHexDigit(s[k]) || IsMaskMark(s[k]) {
      assert s[k] == if k < |a| then a[k] else if k < |a| + 2 then ':' else b[k - |a| - 2];
    }
    PlainIsNoName(s);
  }

  /** The endings of reverse names have letters that addresses do not have. */
  lemma PlainIsNoName(s: string)
    requires Plain(s)
    ensures !IsReverseName(s)
  {
    NoSuffixAt(s, ".arpa", 3);
    NoSuffixAt(s, ".ip6.int", 1);
  }

  lemma NoSuffixAt(s: string, suffix: string, k: nat)
    requires k < |suffix| && (|suffix| <= |s| ==> Lower(s[|s| - |suffix| + k]) != suffix[k])
    ensures !EndsWith(s, suffix)
  {
  }

  /** Wherever the address ends. */
  lemma AroundGap(s: string, e: nat, gs: seq<nat>, hs: seq<nat>)
    requires AllShort(gs) && AllShort(hs) && e <= |s| && (e < |s| ==> s[e] == '/') && s[..e] == Join(gs) + "::" + Join(hs)
    ensures e >= 2 && V6Address(s, e - 1) == AddressAround(gs, hs)
  {
    hide Join, GroupBytes, V6Forward, V6Back, Tail;
    var b := |Join(gs)| + 2;
    assert s[0..e] == s[..e];
    SplitText(s, 0, e, Join(gs) + "::", Join(hs));
    SplitText(s, 0, b, Join(gs), "::");
    assert s[b - 2] == s[b - 2..b][0] && s[b - 1] == s[b - 2..b][1];
    TailOfNothing();
    if |hs| >= 8 {
      V6BackReadsEight(s, b, e, hs, [], 8);
      assert hs[|hs| - 8..] + [] == hs[|hs| - 8..];
      EightGroups(hs);
    } else {
      V6ReadsRest(s, b, e, hs);
      if gs == [] {
        JoinNothing(gs);
        NoGroups();
        assert [] + Tail(GroupBytes(hs))[0..] == Tail(GroupBytes(hs));
      } else {
        JoinIsPlain(gs);
        FrontReads(s, b - 2, gs, Tail(GroupBytes(hs)));
      }
    }
  }

  lemma EightGroups(hs: seq<nat>)
    requires |hs| >= 8 && AllShort(hs)
    ensures Tail(GroupBytes(hs[|hs| - 8..]) + []) == GroupBytes(hs[|hs| - 8..])
  {
  }

  lemma FrontReads(s: string, end: nat, gs: seq<nat>, addr: Octets)
    requires gs != [] && AllShort(gs) && end < |s| && s[0..end] == Join(gs) && s[end] == ':'
    ensures 0 < end
    ensures V6Forward(s, 0, end, 0, addr) == if |gs| > 8 then OutOfBounds else Found(GroupBytes(gs) + addr[2 * |gs|..])
  {
    hide Join, GroupBytes, V6Forward;
    if |gs| > 8 {
      V6FrontOverruns(s, 0, end, gs, 0, addr);
    } else {
      V6FrontReads(s, 0, end, gs, 0, addr);
      assert addr[..0] + GroupBytes(gs) + addr[2 * |gs|..] == GroupBytes(gs) + addr[2 * |gs|..];
    }
  }

  /** The backward scan ends with the eighth group, whatever stands before it; `k` are still to be read. */
  lemma {:induction false} V6BackReadsEight(s: string, b: nat, e: nat, gs: seq<nat>, done: seq<byte>, k: nat)
    requires AllShort(gs) && 2 <= b <= e <= |s| && s[b..e] == Join(gs) && EndsGroup(s, e) && s[b - 1] == ':'
    requires 1 <= k <= 8 && |done| == 16 - 2 * k && |gs| >= k
    ensures V6Back(s, e - 1, |done|, Tail(done)) == Whole(Tail(GroupBytes(gs[|gs| - k..]) + done))
    decreases |gs|
  {
    hide Digits, V6BackFrom, V6Back, GroupBytes, Before, Tail, Join;
    var g, more := gs[|gs| - 1], Before(gs[|gs| - 1], done);
    var from := e - |Digits(g, 16)|;
    LastGroup(s, b, e, gs);
    V6BackStep(s, from, e, g, done);
    LastOfGroups(gs, done, k);
    if k > 1 {
      V6BackReadsEight(s, b, from - 1, gs[..|gs| - 1], more, k - 1);
    }
  }

  lemma LastOfGroups(gs: seq<nat>, done: seq<byte>, k: nat)
    requires AllShort(gs) && 1 <= k <= |gs|
    ensures var front, more := gs[..|gs| - 1], Before(gs[|gs| - 1], done);
            GroupBytes(gs[|gs| - k..]) + done == if k == 1 then more else GroupBytes(front[|front| - (k - 1)..]) + more
  {
    hide GroupBytes, Before;
    var last := gs[|gs| - k..];
    BytesBefore(last, done);
    assert last[|last| - 1] == gs[|gs| - 1];
    assert last[..|last| - 1] == gs[..|gs| - 1][|gs| - k..];
  }

  /** More groups than there is room for. */
  lemma {:induction false} V6FrontOverruns(s: string, i: nat, end: nat, gs: seq<nat>, k: nat, addr: Octets)
    requires gs != [] && AllShort(gs) && i <= end < |s| && s[i..end] == Join(gs) && s[end] == ':'
    requires k % 2 == 0 && k <= 16 && k + 2 * |gs| > 16
    ensures i < end && V6Forward(s, i, end, k, addr) == OutOfBounds
    decreases |gs|
  {
    hide Digits, V6Group, DigitsEnd, Join, V6Store;
    var g := gs[0];
    var e := i + |Digits(g, 16)|;
    FirstGroup(s, i, end, gs);
    GroupReads(s, i, e, g);
    if k <= 14 {
      V6FrontOverruns(s, e + 1, end, gs[1..], k + 2, V6Store(addr, k, g / 256, g % 256));
    }
  }
}
