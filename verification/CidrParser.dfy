/** The loops of `cidr_from_str`, proved to compute what CidrParse says. */
module CidrParser {
  import opened Bits
  import opened CidrBlock
  import opened CidrOps
  import opened CidrText
  import opened CidrParse

  /** How a call ends: with a block, with null, at a reverse name, or by writing past the address. */
  datatype Status = Done | Null | Reverse | Overwrites

  function StatusOf(o: Outcome): Status {
    match o
    case Parsed(_) => Done
    case Rejected => Null
    case ReverseName => Reverse
    case PastTheEnd => Overwrites
  }

  /** The scan for the slash, which also looks for marks of a netmask. */
  method FindPrefix(s: string) returns (pfx: int, foundmask: bool)
    ensures pfx == LastSlash(s)
    ensures foundmask <==> pfx >= 0 && HasMask(s, pfx)
  {
    pfx, foundmask := -1, false;
    var i := |s| - 1;
    while i >= 0
      invariant -1 <= i < |s|
      invariant forall k :: i < k < |s| ==> s[k] != '/'
      invariant foundmask <==> exists k :: i < k < |s| && IsMaskMark(s[k])
    {
      if IsMaskMark(s[i]) {
        foundmask := true;
      }
      if s[i] == '/' {
        pfx := i;
        break;
      }
      i := i - 1;
    }
    if pfx == -1 {
      foundmask := false;
    } else if !foundmask {
      if At(s, pfx + 1) == '0' && IsX(At(s, pfx + 2)) {
        foundmask := true;
      } else if At(s, pfx + 1) == '0' {
        foundmask := true;
      } else if IsDigit(At(s, pfx + 1)) {
        var n := Strtoul(s, pfx + 1, 10);
        if At(s, n.end) == '\0' && n.value >= 0xFFFF_FFFF_8000_0000 && n.value <= 0xFFFF_FFFF {
          foundmask := true;
        }
      }
    }
  }

  /** The sections of an IPv4 address, one more than its dots; -1 for more than four. */
  method CountSections(s: string, end: nat) returns (nsect: int)
    requires end <= |s|
    ensures nsect == if Dots(s, 0, end) > 3 then -1 else Dots(s, 0, end) + 1
  {
    nsect := 0;
    var buf := Find(s, '.', 0);
    ghost var from := 0;
    while buf < end
      invariant from <= end && buf == Find(s, '.', from)
      invariant 0 <= nsect <= 3 && nsect + Dots(s, from, end) == Dots(s, 0, end)
      decreases |s| - from
    {
      nsect := nsect + 1;
      buf := buf + 1;
      if nsect > 3 {
        return -1;
      }
      from := buf;
      buf := Find(s, '.', buf);
    }
    nsect := nsect + 1;
  }

  // ----- the mask -----

  /** Bits before `start` are ones; of the others those below `p` that lie in octets after `x`, or in octet `x`
      before `cur`. */
  ghost predicate MaskWritten(mask: seq<byte>, start: nat, p: int, x: int, cur: int) {
    && |mask| == 16
    && forall k :: 0 <= k < 128 ==> (Unpack(mask)[k] <==> k < start || (k < p && (k >= 8 * (x + 1) || 8 * x <= k < cur)))
  }

  lemma MaskAllWritten(mask: seq<byte>, start: nat, p: nat)
    requires start % 8 == 0 && start <= p <= 128 && MaskWritten(mask, start, p, start / 8 - 1, 0)
    ensures mask == MaskOf(p)
  {
    hide Unpack;
    assert Unpack(mask) == Ones(p) + Zeros(128 - p);
    UnpackInjective(mask, MaskOf(p));
  }

  lemma MaskBitWritten(mask: seq<byte>, start: nat, p: int, x: nat, cur: nat)
    requires start % 8 == 0 && x < 16 && start <= 8 * x <= cur < 8 * x + 8 && cur < p && MaskWritten(mask, start, p, x, cur)
    ensures MaskWritten(mask[x := OrBit(mask[x], 8 * x + 7 - cur)], start, p, x, cur + 1)
  {
    hide Unpack, OrBit;
    UnpackUpdated(mask, x, 8 * x + 7 - cur);
  }

  lemma MaskNotWritten(mask: seq<byte>, start: nat, p: int)
    requires |mask| == 16 && start % 8 == 0 && start <= 128
    requires forall i :: 0 <= i < 16 ==> mask[i] == if 8 * i < start then 0xFF else 0
    ensures MaskWritten(mask, start, p, 15, 0)
  {
    hide Unpack, ByteBits;
    PlainBytes();
    forall k | 0 <= k < 128 ensures Unpack(mask)[k] == (k < start) {
      UnpackAt(mask, k / 8, k % 8);
    }
  }

  lemma PlainBytes()
    ensures ByteBits(0xFF) == Ones(8) && ByteBits(0) == Zeros(8)
  {
    assert Pow2(8) == 256;
    ValOnes(8);
    ToBitsVal(Ones(8));
    ValZeros(8);
    ToBitsVal(Zeros(8));
  }

  /** The prefix length written into the mask, octet by octet from the last. */
  method SetPrefixBits(toret: Cidr, pflen: int)
    requires toret.Valid() && toret.proto != NoProto && pflen <= 128 - Start(toret.proto)
    requires forall i :: 0 <= i < 16 ==> toret.mask[i] == if 8 * i < Start(toret.proto) then 0xFF else 0
    modifies toret.mask
    ensures toret.mask[..] == MaskOf(Start(toret.proto) + if pflen < 0 then 0 else pflen)
  {
    hide Unpack, OrBit, MaskOf, MaskWritten, ByteBits;
    ghost var start := Start(toret.proto);
    ghost var p := start + if pflen < 0 then 0 else pflen;
    MaskNotWritten(toret.mask[..], start, p);
    if pflen > 0 {
      var first := if toret.proto == IPv4 then 12 else 0;
      var x := 15;
      while x >= first
        invariant first - 1 <= x <= 15
        invariant MaskWritten(toret.mask[..], start, p, x, 0)
      {
        var masknum := 8 * (x - first);
        var j := masknum;
        MaskOctetStarts(toret.mask[..], start, p, x, 8 * x);
        while j < masknum + 8 && j < pflen
          invariant masknum <= j <= masknum + 8
          invariant MaskWritten(toret.mask[..], start, p, x, start + j)
        {
          MaskBitWritten(toret.mask[..], start, p, x, start + j);
          SetBitIn(toret.mask, x, masknum + 7 - j);
          j := j + 1;
        }
        MaskOctetEnds(toret.mask[..], start, p, x, start + j);
        x := x - 1;
      }
    } else {
      MaskEmpty(toret.mask[..], start);
    }
    MaskAllWritten(toret.mask[..], start, p);
  }

  lemma MaskOctetStarts(mask: seq<byte>, start: nat, p: int, x: int, cur: int)
    requires MaskWritten(mask, start, p, x, 0) && x >= 0 && cur == 8 * x
    ensures MaskWritten(mask, start, p, x, cur)
  {
  }

  lemma MaskOctetEnds(mask: seq<byte>, start: nat, p: int, x: int, cur: int)
    requires x >= 0 && MaskWritten(mask, start, p, x, cur) && (cur >= 8 * x + 8 || cur >= p)
    ensures MaskWritten(mask, start, p, x - 1, 0)
  {
  }

  lemma MaskEmpty(mask: seq<byte>, start: nat)
    requires start % 8 == 0 && MaskWritten(mask, start, start, 15, 0)
    ensures MaskWritten(mask, start, start, start / 8 - 1, 0)
  {
  }

  // ----- IPv4 -----

  /** The octets of an IPv4 address, from the last. */
  method ReadV4(s: string, at: int, nsect: int, addr: array<byte>) returns (found: bool)
    requires -1 <= at < |s| && 1 <= nsect <= 4 && addr.Length == 16
    modifies addr
    ensures V4Octets(s, at, nsect, 0, old(addr[..])) == if found then Found(addr[..]) else NotFound
  {
    hide V4Number, MaxLast, Strtoul;
    var i, nocts := at, 0;
    while i >= 0
      invariant -2 <= i < |s| && 0 <= nocts < 4
      invariant V4Octets(s, at, nsect, 0, old(addr[..])) == if i < 0 then NotFound else V4Octets(s, i, nsect, nocts, addr[..])
    {
      if (IsHexDigit(s[i]) || IsX(s[i])) && i > 0 {
        i := i - 1;
        continue;
      }
      if i == 0 {
        i := i - 1;
      }
      var n := V4Number(s, i + 1);
      var c := At(s, n.end);
      if !(c == '.' || c == '/' || c == '\0') {
        return false;
      }
      if (nocts != 0 && n.value > 255) || (nocts == 0 && n.value > MaxLast(nsect)) {
        return false;
      }
      ghost var before := addr[..];
      nocts := StoreV4(addr, n.value, nsect, nocts);
      if nocts == 4 {
        return true;
      }
      i := i - 1;
    }
    found := false;
  }

  /** One number, and the missing sections if it is the last one of the text. */
  method StoreV4(addr: array<byte>, octet: nat, nsect: int, before: nat) returns (nocts: nat)
    requires addr.Length == 16 && 1 <= nsect <= 4 && before < 4
    modifies addr
    ensures addr[..] == V4Store(old(addr[..]), octet, nsect, before) && nocts == V4Stored(nsect, before)
  {
    nocts := before;
    addr[15 - nocts] := octet % 256;
    nocts := nocts + 1;
    if nocts == 1 {
      if nsect <= 3 {
        addr[15 - nocts] := octet / 0x100 % 256;
        nocts := nocts + 1;
      }
      if nsect <= 2 {
        addr[15 - nocts] := octet / 0x1_0000 % 256;
        nocts := nocts + 1;
      }
      if nsect == 1 {
        addr[15 - nocts] := octet / 0x100_0000 % 256;
        nocts := nocts + 1;
      }
    }
  }

  // ----- IPv6 -----

  /** Four dotted decimal octets, backwards from `at`; `i` is where it stopped. */
  method ReadDotted(s: string, at: nat, addr: array<byte>) returns (ok: bool, i: nat, nocts: nat)
    requires at <= |s| && addr.Length == 16
    modifies addr
    ensures V6Dotted(s, at, 0, old(addr[..])) == if ok then Dotted(i, nocts, addr[..]) else BadDotted
  {
    hide Strtoul;
    i, nocts := at, 0;
    while i > 0 && nocts < 4
      invariant i <= |s| && nocts <= 4
      invariant V6Dotted(s, at, 0, old(addr[..])) == V6Dotted(s, i, nocts, addr[..])
    {
      if At(s, i) == ':' && nocts < 3 {
        return false, i, nocts;
      }
      if At(s, i) != '.' && At(s, i) != ':' {
        i := i - 1;
        continue;
      }
      var octet := Strtoul(s, i + 1, 10).value;
      if octet > 255 {
        return false, i, nocts;
      }
      addr[15 - nocts] := octet;
      nocts := nocts + 1;
      i := i - 1;
    }
    ok := true;
  }

  datatype Scan = All | AtGap | Bad

  /** The groups of an IPv6 address from the last one back to a `::` or to the start. */
  method ReadV6Back(s: string, at: int, addr: array<byte>) returns (scan: Scan, i: int, nocts: nat)
    requires -1 <= at < |s| && addr.Length == 16
    modifies addr
    ensures nocts % 2 == 0
    ensures V6Back(s, at, 0, old(addr[..]))
         == match scan
            case All => Whole(addr[..])
            case AtGap => if 0 <= i then Gap(i, addr[..]) else BadBack
            case Bad => BadBack
  {
    hide Strtoul, V6Group;
    i, nocts := at, 0;
    while i >= 0
      invariant -2 <= i < |s| && nocts <= 14 && nocts % 2 == 0
      invariant V6Back(s, at, 0, old(addr[..])) == if i < 0 then BadBack else V6Back(s, i, nocts, addr[..])
    {
      if nocts == 0 && s[i] == '.' {
        i := i + 1;
        var ok;
        ok, i, nocts := ReadDotted(s, i, addr);
        if !ok || nocts != 4 || At(s, i + 1) != ':' {
          return Bad, i, 0;
        }
      }
      assert V6Back(s, at, 0, old(addr[..])) == V6BackFrom(s, i, nocts, addr[..]);
      if s[i] != ':' && i > 0 {
        i := i - 1;
        continue;
      }
      if s[i] == ':' && At(s, i + 1) == ':' {
        if i == 0 {
          return All, i, nocts;
        }
        return AtGap, i, nocts;
      }
      if i == 0 {
        i := i - 1;
      }
      var g := V6Group(s, i + 1);
      if g == -1 {
        return Bad, i, nocts;
      }
      StoreGroup(addr, 14 - nocts, g);
      nocts := nocts + 2;
      if nocts == 16 {
        return All, i, nocts;
      }
      i := i - 1;
    }
    scan := Bad;
  }

  /** Two octets of a group at `k`, in either order. */
  method StoreGroup(addr: array<byte>, k: nat, g: nat)
    requires addr.Length == 16 && k <= 14 && g <= 0xFFFF
    modifies addr
    ensures addr[..] == V6Store(old(addr[..]), k, g / 256, g % 256)
  {
    addr[k + 1] := g % 256;
    addr[k] := g / 256;
  }

  /** The end of the number at `from`, which lies in front of a colon at `j`. */
  method SkipHexDigits(s: string, from: nat, j: nat) returns (i: nat)
    requires from < j < |s| && s[j] == ':'
    ensures i == DigitsEnd(s, from, 16) <= j
  {
    i := from;
    while IsHexDigit(s[i]) && i < j
      invariant from <= i <= j
      invariant DigitsEnd(s, from, 16) == DigitsEnd(s, i, 16)
    {
      i := i + 1;
    }
  }

  /** The groups in front of the `::` at `j`. */
  method ReadV6Forward(s: string, j: nat, eocts: nat, addr: array<byte>) returns (a: Address)
    requires 0 < j < |s| && s[j] == ':' && addr.Length == 16 && eocts % 2 == 0
    modifies addr
    ensures V6Forward(s, 0, j, 0, old(addr[..])) == a
    ensures a.Found? ==> a.addr == addr[..]
  {
    hide Strtoul, V6Group, DigitsEnd;
    var i, nocts := 0, eocts;
    while i < j
      invariant 0 <= i < j && nocts >= eocts && nocts % 2 == 0
      invariant V6Forward(s, 0, j, 0, old(addr[..])) == V6Forward(s, i, j, nocts - eocts, addr[..])
    {
      if i == 0 && !IsHexDigit(s[i]) {
        return NotFound;
      }
      var g := V6Group(s, i);
      if g == -1 {
        return NotFound;
      }
      if nocts - eocts > 14 {
        return OutOfBounds;
      }
      StoreGroup(addr, nocts - eocts, g);
      nocts := nocts + 2;
      i := SkipHexDigits(s, i, j);
      if i == j {
        return Found(addr[..]);
      }
      if s[i] != ':' {
        return NotFound;
      }
      i := i + 1;
      if i == j {
        return NotFound;
      }
    }
    assert false;
  }

  method ReadV6(s: string, at: int, addr: array<byte>) returns (a: Address)
    requires -1 <= at < |s| && addr.Length == 16 && addr[..] == seq(16, _ => 0)
    modifies addr
    ensures a == V6Address(s, at)
    ensures a.Found? ==> a.addr == addr[..]
  {
    hide V6Back, V6Forward;
    var scan, i, nocts := ReadV6Back(s, at, addr);
    if scan == All {
      return Found(addr[..]);
    }
    if scan == Bad || i < 0 {
      return NotFound;
    }
    a := ReadV6Forward(s, i, nocts, addr);
  }

  // ----- the whole text -----

  /** The first twelve octets look like those of an IPv4-mapped address. */
  method InitV4(toret: Cidr)
    requires toret.Valid() && toret.addr[..] == seq(16, _ => 0) && toret.mask[..] == seq(16, _ => 0)
    modifies toret.addr, toret.mask
    ensures toret.addr[..] == V4Mapped
    ensures forall i :: 0 <= i < 16 ==> toret.mask[i] == if i < 12 then 0xFF else 0
  {
    forall i | 0 <= i < 10 {
      toret.addr[i] := 0;
    }
    forall i | 10 <= i < 12 {
      toret.addr[i] := 0xFF;
    }
    forall i | 0 <= i < 12 {
      toret.mask[i] := 0xFF;
    }
    assert toret.addr[..] == V4Mapped;
  }

  /** What both address families do once the prefix length is known. */
  method FinishParse(s: string, pfx: int, pflen: int, nsect: int, toret: Cidr) returns (status: Status)
    requires s != [] && -1 <= pfx < |s| && toret.Valid() && toret.proto != NoProto
    requires toret.addr[..] == seq(16, _ => 0) && toret.mask[..] == seq(16, _ => 0)
    requires toret.proto == IPv4 ==> Dots(s, 0, if pfx == -1 then |s| else pfx) <= 3
    requires toret.proto == IPv4 ==> nsect == Dots(s, 0, if pfx == -1 then |s| else pfx) + 1
    modifies toret.addr, toret.mask
    ensures status == StatusOf(Finish(toret.proto, s, pfx, pflen))
    ensures status == Done ==> Finish(toret.proto, s, pfx, pflen) == Parsed(toret.Value())
  {
    hide MaskOf, V4Octets, V6Address, Dots, Strtoul, Unpack, V4Mapped, Find, DigitsEnd;
    if toret.proto == IPv4 {
      InitV4(toret);
    }
    var most := if toret.proto == IPv4 then 32 else 128;
    if pflen > most {
      return Null;
    }
    SetPrefixBits(toret, pflen);
    var i := if pfx == -1 then |s| - 1 else pfx - 1;
    ghost var end := i;
    while i > 0 && s[i] == '/'
      invariant -1 <= i < |s|
      invariant SkipSlashes(s, end) == SkipSlashes(s, i)
    {
      i := i - 1;
    }
    if toret.proto == IPv4 {
      var found := ReadV4(s, i, nsect, toret.addr);
      return if found then Done else Null;
    }
    var a := ReadV6(s, i, toret.addr);
    status := if a.Found? then Done else if a.NotFound? then Null else Overwrites;
  }

  /** The netmask after the slash, as a prefix length; -1 if it has none. */
  method ReadMask(proto: Proto, ctmp: Cidr) returns (pflen: int)
    requires ctmp.Valid() && proto != NoProto
    modifies ctmp.mask
    ensures pflen == PrefixLength(AsMask(proto, old(ctmp.Value())))
  {
    if proto == IPv4 {
      forall i | 0 <= i < 16 {
        ctmp.mask[i] := if i < 12 then 0 else ctmp.addr[i];
      }
    } else {
      forall i | 0 <= i < 16 {
        ctmp.mask[i] := ctmp.addr[i];
      }
    }
    assert ctmp.Value() == AsMask(proto, old(ctmp.Value()));
    pflen := GetPflen(ctmp);
  }

  /** `cidr_from_str` */
  method CidrFromStr(s: string) returns (toret: Cidr?, status: Status)
    ensures status == StatusOf(Parse(s))
    ensures toret != null <==> Parse(s).Parsed?
    ensures toret != null ==> fresh(toret) && fresh(toret.addr) && fresh(toret.mask) && toret.Valid()
                               && toret.Value() == Parse(s).block
    decreases |s|
  {
    hide Finish, PrefixLength, ProtoOf, Dots, OnlyAddressChars, IsReverseName, Strtoul, StrtolInt, HasMask, AsMask;
    toret := null;
    if |s| < 1 || |s| > 0x1_0000 || !OnlyAddressChars(s) {
      return null, Null;
    }
    if IsReverseName(s) {
      return null, Reverse;
    }
    var block := new Cidr();
    var pfx, foundmask := FindPrefix(s);
    block.proto := ProtoOf(s);
    if block.proto == NoProto {
      return null, Null;
    }
    var nsect := 0;
    if block.proto == IPv4 {
      nsect := CountSections(s, if pfx == -1 then |s| else pfx);
      if nsect == -1 {
        return null, Null;
      }
    }
    var pflen;
    if pfx == -1 || pfx == |s| - 1 {
      pflen := if block.proto == IPv4 then 32 else 128;
    } else if foundmask {
      var ctmp, inner := CidrFromStr(s[pfx + 1..]);
      if ctmp == null {
        return null, inner;
      }
      pflen := ReadMask(block.proto, ctmp);
      if pflen == -1 {
        return null, Null;
      }
    } else {
      pflen := StrtolInt(s, pfx + 1);
    }
    status := FinishParse(s, pfx, pflen, nsect, block);
    if status == Done {
      toret := block;
    }
  }
}
