/** Parsing a block: `cidr_from_str`, as functions on the text and as the loops that compute them. */
module CidrParse {
  import opened Bits
  import opened CidrBlock
  import opened CidrText

  /** A block, a null result, a reverse DNS name (read by a part that is not modelled), or octets written past
      the address. */
  datatype Outcome = Parsed(block: Block) | Rejected | ReverseName | PastTheEnd

  /** The sixteen octets of the address as far as they are known. */
  type Octets = s: seq<byte> | |s| == 16 witness [0, 0, 0, 0, 0, 0, 0, 0, 0, 0, 0, 0, 0, 0, 0, 0]

  // ----- what kind of text it is -----

  predicate IsAddressChar(c: char) {
    IsHexDigit(c) || IsX(c) || c in ".:/in-rpt"
  }

  predicate OnlyAddressChars(s: string) {
    forall k :: 0 <= k < |s| ==> IsAddressChar(s[k])
  }

  function Lower(c: char): char {
    if 'A' <= c <= 'Z' then (c as int + 32) as char else c
  }

  predicate EndsWith(s: string, suffix: string) {
    |suffix| <= |s| && forall k :: 0 <= k < |suffix| ==> Lower(s[|s| - |suffix| + k]) == suffix[k]
  }

  predicate IsReverseName(s: string) {
    EndsWith(s, ".ip6.int") || EndsWith(s, ".arpa")
  }

  /** Where the last slash is; -1 without one. */
  function LastSlash(s: string): (k: int)
    ensures -1 <= k < |s|
    ensures k >= 0 ==> s[k] == '/'
    ensures forall i :: k < i < |s| ==> s[i] != '/'
  {
    if s == [] then -1
    else if s[|s| - 1] == '/' then |s| - 1
    else LastSlash(s[..|s| - 1])
  }

  predicate IsMaskMark(c: char) {
    c == '.' || c == ':'
  }

  /** Whether what follows the slash is read as a netmask. A decimal number of 32 bits never is: it would have to be
      at least `(unsigned long) (1 << 31)`, which is sign-extended to 64 bits, and at most 0xffffffff. */
  predicate HasMask(s: string, slash: nat)
    requires slash < |s|
  {
    (exists k :: slash < k < |s| && IsMaskMark(s[k])) || At(s, slash + 1) == '0'
  }

  predicate IsEnd(c: char) {
    c == '\0' || c == '/'
  }

  function ProtoOf(s: string): Proto {
    var colon, dot := Find(s, ':', 0), Find(s, '.', 0);
    if colon < |s| && colon <= 5 then IPv6
    else if dot < |s| && dot <= 4 then IPv4
    else if IsEnd(At(s, if At(s, 0) == '0' && IsX(At(s, 1)) then DigitsEnd(s, 2, 16)
                        else if At(s, 0) == '0' then DigitsEnd(s, 1, 8)
                        else DigitsEnd(s, 0, 10))) then IPv4
    else NoProto
  }

  // ----- IPv4 -----

  /** The dots from `from` up to `end`. */
  function Dots(s: string, from: nat, end: nat): nat
    requires from <= end <= |s|
    decreases |s| - from
  {
    var k := Find(s, '.', from);
    if k < end then 1 + Dots(s, k + 1, end) else 0
  }

  /** Any of hexadecimal, octal and decimal. */
  function V4Number(s: string, j: nat): (n: Number)
    requires j <= |s|
    ensures 0 <= n.value <= ULONG_MAX && n.end <= |s|
  {
    if At(s, j) == '0' && IsX(At(s, j + 1)) then Strtoul(s, j, 16)
    else if At(s, j) == '0' then Strtoul(s, j, 8)
    else Strtoul(s, j, 10)
  }

  /** The largest number that fits the sections not written out. */
  function MaxLast(nsect: nat): nat
    requires 1 <= nsect <= 4
  {
    if nsect == 1 then 0xFFFF_FFFF else if nsect == 2 then 0xFF_FFFF else if nsect == 3 then 0xFFFF else 0xFF
  }

  predicate V4Fits(n: int, nsect: nat, nocts: nat)
    requires 1 <= nsect <= 4
  {
    if nocts != 0 then n <= 255 else n <= MaxLast(nsect)
  }

  /** The octets a number fills: the last section is extended over the missing ones. */
  function V4Store(addr: Octets, n: nat, nsect: nat, nocts: nat): Octets
    requires nocts < 4
  {
    var a := addr[15 - nocts := n % 256];
    if nocts != 0 || nsect > 3 then a
    else
      var b := a[14 := n / 0x100 % 256];
      if nsect == 3 then b
      else
        var c := b[13 := n / 0x1_0000 % 256];
        if nsect == 2 then c else c[12 := n / 0x100_0000 % 256]
  }

  function V4Stored(nsect: nat, nocts: nat): (k: nat)
    requires 1 <= nsect <= 4
    ensures nocts < k
    ensures nocts < 4 ==> k <= 4
  {
    if nocts != 0 then nocts + 1 else 5 - nsect
  }

  datatype Address = Found(addr: Octets) | NotFound | OutOfBounds

  /** From `i` back to the start of the text, one number after the other. */
  function V4Octets(s: string, i: int, nsect: nat, nocts: nat, addr: Octets): (a: Address)
    requires -1 <= i < |s| && 1 <= nsect <= 4 && nocts < 4
    ensures !a.OutOfBounds?
    decreases i + 1
  {
    if i == -1 then NotFound
    else if (IsHexDigit(s[i]) || IsX(s[i])) && i > 0 then V4Octets(s, i - 1, nsect, nocts, addr)
    else
      var n := V4Number(s, if i == 0 then 0 else i + 1);
      var c := At(s, n.end);
      if !(c == '.' || IsEnd(c)) || !V4Fits(n.value, nsect, nocts) then NotFound
      else
        var a := V4Store(addr, n.value, nsect, nocts);
        if V4Stored(nsect, nocts) == 4 then Found(a)
        else if i == 0 then NotFound
        else V4Octets(s, i - 1, nsect, V4Stored(nsect, nocts), a)
  }

  // ----- IPv6 -----

  /** The number before a colon, a slash or the end; -1 when something else follows, or above 16 bits. */
  function V6Group(s: string, j: nat): (g: int)
    requires j <= |s|
    ensures -1 <= g <= 0xFFFF
  {
    var n := Strtoul(s, j, 16);
    var c := At(s, n.end);
    if (c == ':' || IsEnd(c)) && n.value <= 0xFFFF then n.value else -1
  }

  function V6Store(addr: Octets, k: nat, high: byte, low: byte): Octets
    requires k <= 14
  {
    addr[k := high][k + 1 := low]
  }

  /** Dotted decimal at the end of the text, read backwards: where it stopped, or nothing. */
  datatype Dotted = Dotted(i: nat, nocts: nat, addr: Octets) | BadDotted

  function V6Dotted(s: string, i: nat, nocts: nat, addr: Octets): (d: Dotted)
    requires i <= |s| && nocts <= 4
    ensures d.Dotted? ==> d.i + (d.nocts - nocts) <= i && nocts <= d.nocts <= 4
    decreases i
  {
    if i == 0 || nocts == 4 then Dotted(i, nocts, addr)
    else if At(s, i) == ':' && nocts < 3 then BadDotted
    else if At(s, i) != '.' && At(s, i) != ':' then V6Dotted(s, i - 1, nocts, addr)
    else
      var octet := Strtoul(s, i + 1, 10).value;
      if octet > 255 then BadDotted
      else V6Dotted(s, i - 1, nocts + 1, addr[15 - nocts := octet])
  }

  /** Where the backward scan ended: the whole address, at a `::` not at the start, or in an error. */
  datatype Back = Whole(addr: Octets) | Gap(at: nat, addr: Octets) | BadBack

  function V6Back(s: string, i: int, nocts: nat, addr: Octets): (b: Back)
    requires -1 <= i < |s| && nocts <= 14 && nocts % 2 == 0
    ensures b.Gap? ==> 0 < b.at < |s| && s[b.at] == ':' && At(s, b.at + 1) == ':'
    decreases i + 1
  {
    if i == -1 then BadBack
    else if nocts == 0 && s[i] == '.' then
      var d := V6Dotted(s, i + 1, 0, addr);
      if d.BadDotted? || d.nocts != 4 || At(s, d.i + 1) != ':' then BadBack
      else V6BackFrom(s, d.i, 4, d.addr)
    else V6BackFrom(s, i, nocts, addr)
  }

  /** The rest of one round of the backward scan. */
  function V6BackFrom(s: string, i: nat, nocts: nat, addr: Octets): (b: Back)
    requires 0 <= i < |s| && nocts <= 14 && nocts % 2 == 0
    ensures b.Gap? ==> 0 < b.at < |s| && s[b.at] == ':' && At(s, b.at + 1) == ':'
    decreases i + 1, 0
  {
    if s[i] != ':' && i > 0 then V6Back(s, i - 1, nocts, addr)
    else if s[i] == ':' && At(s, i + 1) == ':' then if i == 0 then Whole(addr) else Gap(i, addr)
    else
      var g := V6Group(s, if i == 0 then 0 else i + 1);
      if g == -1 then BadBack
      else
        var a := V6Store(addr, 14 - nocts, g / 256, g % 256);
        if nocts == 14 then Whole(a)
        else if i == 0 then BadBack
        else V6Back(s, i - 1, nocts + 2, a)
  }

  /** The groups before the `::` at `end`, forwards; `k` octets are stored already. */
  function V6Forward(s: string, i: nat, end: nat, k: nat, addr: Octets): Address
    requires i < end < |s| && s[end] == ':' && k % 2 == 0
    decreases end - i
  {
    if i == 0 && !IsHexDigit(s[0]) then NotFound
    else
      var g := V6Group(s, i);
      if g == -1 then NotFound
      else if k > 14 then OutOfBounds
      else
        var a := V6Store(addr, k, g / 256, g % 256);
        var e := DigitsEnd(s, i, 16);
        if e == end then Found(a)
        else if e > end || s[e] != ':' || e + 1 == end then NotFound
        else V6Forward(s, e + 1, end, k + 2, a)
  }

  function V6Address(s: string, i: int): Address
    requires -1 <= i < |s|
  {
    var b := V6Back(s, i, 0, seq(16, _ => 0));
    if b.BadBack? then NotFound
    else if b.Whole? then Found(b.addr)
    else V6Forward(s, 0, b.at, 0, b.addr)
  }

  // ----- the whole text -----

  /** Back over slashes, but not before the first character. */
  function SkipSlashes(s: string, i: int): (k: int)
    requires -1 <= i < |s|
    ensures -1 <= k <= i
  {
    if i > 0 && s[i] == '/' then SkipSlashes(s, i - 1) else i
  }

  const V4Mapped: Octets := [0, 0, 0, 0, 0, 0, 0, 0, 0, 0, 0xFF, 0xFF, 0, 0, 0, 0]

  /** The mask read after the slash, moved to where the prefix length is counted. */
  function AsMask(proto: Proto, c: Block): (m: Block)
    requires IsBlock(c)
    ensures IsBlock(m)
  {
    if proto == IPv4 then c.(mask := seq(12, _ => 0) + c.addr[12..]) else c.(mask := c.addr)
  }

  /** The address before the slash. */
  function AddressOf(proto: Proto, s: string, slash: int): Address
    requires -1 <= slash < |s| && s != [] && proto != NoProto && (proto == IPv4 ==> Dots(s, 0, if slash == -1 then |s| else slash) <= 3)
  {
    var end := if slash == -1 then |s| else slash;
    var i := SkipSlashes(s, end - 1);
    if proto == IPv4 then V4Octets(s, i, Dots(s, 0, end) + 1, 0, V4Mapped) else V6Address(s, i)
  }

  function Width(proto: Proto): nat {
    if proto == IPv4 then 32 else 128
  }

  function Finish(proto: Proto, s: string, slash: int, pflen: int): Outcome
    requires -1 <= slash < |s| && s != [] && proto != NoProto && (proto == IPv4 ==> Dots(s, 0, if slash == -1 then |s| else slash) <= 3)
  {
    if pflen > Width(proto) then Rejected
    else
      match AddressOf(proto, s, slash)
      case NotFound => Rejected
      case OutOfBounds => PastTheEnd
      case Found(addr) => Parsed(Block(proto, addr, MaskOf(Start(proto) + if pflen < 0 then 0 else pflen)))
  }

  /** `cidr_from_str` */
  function Parse(s: string): (o: Outcome)
    ensures o.Parsed? ==> IsBlock(o.block) && o.block.proto != NoProto
    decreases |s|
  {
    if !(1 <= |s| <= 0x1_0000) || !OnlyAddressChars(s) then Rejected
    else if IsReverseName(s) then ReverseName
    else
      var slash, proto := LastSlash(s), ProtoOf(s);
      if proto == NoProto || (proto == IPv4 && Dots(s, 0, if slash == -1 then |s| else slash) > 3) then Rejected
      else if slash == -1 || slash == |s| - 1 then Finish(proto, s, slash, Width(proto))
      else if HasMask(s, slash) then
        var m := Parse(s[slash + 1..]);
        if !m.Parsed? then m
        else
          var pflen := PrefixLength(AsMask(proto, m.block));
          if pflen == -1 then Rejected else Finish(proto, s, slash, pflen)
      else Finish(proto, s, slash, StrtolInt(s, slash + 1))
  }
}
