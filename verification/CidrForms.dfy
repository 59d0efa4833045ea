/** Every way to write an IPv4 address, and netmasks after the slash. */
module CidrForms {
  import opened Bits
  import opened CidrBlock
  import opened CidrText
  import opened CidrParse
  import opened CidrPrint
  import opened CidrRoundTrip
  import opened CidrLimits

  // ----- numerals -----

  predicate AllDigitsOf(t: string, base: nat) {
    forall k :: 0 <= k < |t| ==> IsDigitOf(t[k], base)
  }

  /** C's decimal, octal and hexadecimal numerals. */
  predicate IsNumeral(t: string) {
    || (t != [] && t[0] != '0' && AllDigitsOf(t, 10))
    || (t != [] && t[0] == '0' && AllDigitsOf(t, 8))
    || (|t| > 2 && t[0] == '0' && IsX(t[1]) && AllDigitsOf(t[2..], 16))
  }

  function NumeralValue(t: string): nat
    requires IsNumeral(t)
  {
    if t[0] != '0' then DigitsValue(t, 10)
    else if |t| > 1 && IsX(t[1]) then DigitsValue(t[2..], 16)
    else DigitsValue(t, 8)
  }

  /** Behind a section of an address. */
  predicate EndsSection(s: string, to: nat) {
    to == |s| || (to < |s| && (s[to] == '.' || s[to] == '/'))
  }

  lemma NumeralReads(s: string, from: nat, to: nat)
    requires from <= to <= |s| && IsNumeral(s[from..to]) && EndsSection(s, to)
    ensures from < to && forall k :: from <= k < to ==> IsHexDigit(s[k]) || IsX(s[k])
    ensures var v := NumeralValue(s[from..to]); V4Number(s, from) == Number(if v > ULONG_MAX then ULONG_MAX else v, to)
  {
    hide DigitsValue, Strtoul;
    var t := s[from..to];
    assert forall k :: from <= k < to ==> s[k] == t[k - from];
    if t[0] != '0' {
      NumberReads(s, from, from, to, 10);
    } else if |t| > 1 && IsX(t[1]) {
      assert forall k :: from + 2 <= k < to ==> s[k] == t[2..][k - from - 2];
      assert s[from + 2..to] == t[2..];
      NumberReads(s, from, from + 2, to, 16);
    } else {
      NumberReads(s, from, from, to, 8);
    }
  }

  lemma NumberReads(s: string, i: nat, from: nat, to: nat, base: nat)
    requires i <= from < to <= |s| && EndsSection(s, to) && (base == 8 || base == 10 || base == 16)
    requires AllDigitsOf(s[from..to], base) && s[i] != '-'
    requires if base == 16 then from == i + 2 && s[i] == '0' && IsX(s[i + 1]) else from == i
    ensures var v := DigitsValue(s[from..to], base); Strtoul(s, i, base) == Number(if v > ULONG_MAX then ULONG_MAX else v, to)
  {
    assert forall k :: from <= k < to ==> s[k] == s[from..to][k - from];
    DigitsEndIs(s, from, to, base);
  }

  // ----- dotted forms -----

  predicate AreNumerals(ts: seq<string>) {
    forall k :: 0 <= k < |ts| ==> IsNumeral(ts[k])
  }

  function Dotted(ts: seq<string>): string {
    if ts == [] then "" else if |ts| == 1 then ts[0] else Dotted(ts[..|ts| - 1]) + "." + ts[|ts| - 1]
  }

  function Values(ts: seq<string>): (vs: seq<nat>)
    requires AreNumerals(ts)
    ensures |vs| == |ts|
  {
    seq(|ts|, k requires 0 <= k < |ts| => NumeralValue(ts[k]))
  }

  /** The last `n` of the four octets of a number. */
  function BigEndian(v: nat, n: nat): (r: seq<byte>)
    requires n <= 4
    ensures |r| == n
  {
    var octets: seq<byte> := [v / 0x100_0000 % 0x100, v / 0x1_0000 % 0x100, v / 0x100 % 0x100, v % 0x100];
    octets[4 - n..]
  }

  function Size(n: nat): nat {
    if n == 0 then 1 else 256 * Size(n - 1)
  }

  /** One octet a section, and the last section fills the rest of the four. */
  predicate Fits(vs: seq<nat>) {
    && 1 <= |vs| <= 4 && vs[|vs| - 1] < Size(5 - |vs|)
    && forall k :: 0 <= k < |vs| - 1 ==> vs[k] <= 255
  }

  function FourOctets(vs: seq<nat>): (r: seq<byte>)
    requires Fits(vs)
    ensures |r| == 4
  {
    vs[..|vs| - 1] + BigEndian(vs[|vs| - 1], 5 - |vs|)
  }

  /** The sixteen octets of such an address. */
  function FormOctets(vs: seq<nat>): (r: Octets)
    requires Fits(vs)
  {
    hide BigEndian, Size, Fits;
    V4Mapped[..12] + FourOctets(vs)
  }

  lemma LastSection(s: string, e: nat, ts: seq<string>)
    requires ts != [] && AreNumerals(ts) && e <= |s| && s[..e] == Dotted(ts)
    ensures var from := e - |ts[|ts| - 1]|;
            && 0 <= from < e && s[from..e] == ts[|ts| - 1]
            && (|ts| == 1 ==> from == 0)
            && (|ts| > 1 ==> from > 1 && s[from - 1] == '.' && s[..from - 1] == Dotted(ts[..|ts| - 1]))
  {
    hide IsNumeral;
    var n := |ts| - 1;
    NumeralIsLong(ts[n]);
    if n > 0 {
      DottedIsLong(ts[..n]);
      SplitText(s, 0, e, Dotted(ts[..n]) + ".", ts[n]);
      SplitText(s, 0, e - |ts[n]|, Dotted(ts[..n]), ".");
      DotAt(s, e - |ts[n]| - 1);
    }
  }

  lemma NumeralIsLong(t: string)
    requires IsNumeral(t)
    ensures t != []
  {
  }

  lemma DottedIsLong(ts: seq<string>)
    requires ts != [] && AreNumerals(ts)
    ensures Dotted(ts) != []
  {
    NumeralIsLong(ts[|ts| - 1]);
  }

  lemma {:induction false} SkipNumeral(s: string, i: nat, j: nat, nsect: nat, nocts: nat, addr: Octets)
    requires j <= i < |s| && 1 <= nsect <= 4 && nocts < 4
    requires forall k :: j < k <= i ==> IsHexDigit(s[k]) || IsX(s[k])
    ensures V4Octets(s, i, nsect, nocts, addr) == V4Octets(s, j, nsect, nocts, addr)
    decreases i - j
  {
    if j < i {
      SkipNumeral(s, i - 1, j, nsect, nocts, addr);
    }
  }

  /** One section, read backwards. */
  lemma SectionStep(s: string, from: nat, e: nat, nsect: nat, nocts: nat, addr: Octets)
    requires from < e <= |s| && IsNumeral(s[from..e]) && EndsSection(s, e) && 1 <= nsect <= 4 && nocts < 4
    requires from == 0 || (from > 1 && s[from - 1] == '.')
    ensures var v := NumeralValue(s[from..e]);
            V4Octets(s, e - 1, nsect, nocts, addr)
            == if !V4Fits(v, nsect, nocts) then NotFound
               else if V4Stored(nsect, nocts) == 4 then Found(V4Store(addr, v, nsect, nocts))
               else if from == 0 then NotFound
               else V4Octets(s, from - 2, nsect, V4Stored(nsect, nocts), V4Store(addr, v, nsect, nocts))
  {
    hide V4Number, IsNumeral, NumeralValue, V4Store, V4Stored, AllDigitsOf;
    NumeralReads(s, from, e);
    SkipNumeral(s, e - 1, if from == 0 then 0 else from - 1, nsect, nocts, addr);
    NumeralStarts(s, from, e);
  }

  lemma NumeralStarts(s: string, from: nat, e: nat)
    requires from < e <= |s| && IsNumeral(s[from..e])
    ensures IsHexDigit(s[from])
  {
    assert s[from] == s[from..e][0];
  }

  /** The sections before the last, read backwards: one octet each. */
  lemma {:induction false} FrontSections(s: string, e: nat, ts: seq<string>, nsect: nat, addr: Octets)
    requires 1 <= |ts| <= 3 && AreNumerals(ts) && e < |s| && s[e] == '.' && s[..e] == Dotted(ts) && 1 <= nsect <= 4
    ensures e > 0
    ensures V4Octets(s, e - 1, nsect, 4 - |ts|, addr)
         == if forall k :: 0 <= k < |ts| ==> Values(ts)[k] <= 255 then Found(addr[..12] + Values(ts) + addr[12 + |ts|..]) else NotFound
    decreases |ts|
  {
    hide IsNumeral, NumeralValue, V4Octets;
    var n := |ts| - 1;
    var v, from := NumeralValue(ts[n]), e - |ts[n]|;
    LastSection(s, e, ts);
    SectionStep(s, from, e, nsect, 3 - n, addr);
    assert V4Store(addr, v, nsect, 3 - n) == addr[12 + n := v % 256];
    assert Values(ts)[n] == v;
    if n > 0 && v <= 255 {
      FrontSections(s, from - 1, ts[..n], nsect, addr[12 + n := v]);
      assert Values(ts) == Values(ts[..n]) + [v];
      assert addr[12 + n := v][..12] == addr[..12] && addr[12 + n := v][12 + n..] == [v] + addr[13 + n..];
      assert forall k :: 0 <= k < n ==> Values(ts)[k] == Values(ts[..n])[k];
      if forall k :: 0 <= k < n ==> Values(ts[..n])[k] <= 255 {
        assert addr[..12] + Values(ts[..n]) + ([v] + addr[13 + n..]) == addr[..12] + Values(ts) + addr[13 + n..];
      }
    }
  }

  lemma SizesAre()
    ensures Size(1) == 0x100 && Size(2) == 0x1_0000 && Size(3) == 0x100_0000 && Size(4) == 0x1_0000_0000
  {
    assert Size(2) == 256 * Size(1) && Size(3) == 256 * Size(2) && Size(4) == 256 * Size(3);
  }

  /** The last section is stored big-endian in the octets that are left. */
  lemma LastStored(v: nat, nsect: nat)
    requires 1 <= nsect <= 4
    ensures V4Store(V4Mapped, v, nsect, 0) == V4Mapped[..11 + nsect] + BigEndian(v, 5 - nsect)
  {
  }

  /** Every dotted form is read as its octets, or not at all if a number is too large. */
  lemma FormReads(s: string, e: nat, ts: seq<string>)
    requires 1 <= |ts| <= 4 && AreNumerals(ts) && e <= |s| && EndsSection(s, e) && s[..e] == Dotted(ts)
    ensures e > 0
    ensures V4Octets(s, e - 1, |ts|, 0, V4Mapped)
         == if Fits(Values(ts)) then Found(FormOctets(Values(ts))) else NotFound
  {
    hide IsNumeral, NumeralValue, V4Octets, Fits, FormOctets, Dotted, EndsSection;
    LastSection(s, e, ts);
    if |ts| == 1 {
      assert Values(ts) == [NumeralValue(ts[0])];
      OneSection(s, e);
    } else {
      MoreSections(s, e, ts, e - |ts[|ts| - 1]|);
    }
  }

  lemma OneSection(s: string, e: nat)
    requires 0 < e <= |s| && EndsSection(s, e) && IsNumeral(s[..e])
    ensures var vs := [NumeralValue(s[..e])];
            V4Octets(s, e - 1, 1, 0, V4Mapped) == if Fits(vs) then Found(FormOctets(vs)) else NotFound
  {
    hide IsNumeral, NumeralValue, V4Octets, V4Store, Fits, FormOctets, V4Fits, V4Stored, EndsSection;
    var vs := [NumeralValue(s[..e])];
    assert s[0..e] == s[..e];
    SectionsStored(1);
    SectionStep(s, 0, e, 1, 0, V4Mapped);
    FormFits(vs);
    if Fits(vs) {
      FormStored(vs);
    }
  }

  lemma MoreSections(s: string, e: nat, ts: seq<string>, from: nat)
    requires 2 <= |ts| <= 4 && AreNumerals(ts) && 1 < from < e <= |s| && EndsSection(s, e) && s[from..e] == ts[|ts| - 1]
    requires s[from - 1] == '.' && s[..from - 1] == Dotted(ts[..|ts| - 1])
    ensures V4Octets(s, e - 1, |ts|, 0, V4Mapped) == if Fits(Values(ts)) then Found(FormOctets(Values(ts))) else NotFound
  {
    hide IsNumeral, NumeralValue, V4Octets, V4Store, Fits, FormOctets, V4Fits, V4Stored, Dotted, EndsSection;
    var n, vs := |ts| - 1, Values(ts);
    var addr := V4Store(V4Mapped, vs[n], |ts|, 0);
    SectionsStored(|ts|);
    SectionStep(s, from, e, |ts|, 0, V4Mapped);
    FormFits(vs);
    assert vs[..n] == Values(ts[..n]);
    if V4Fits(vs[n], |ts|, 0) {
      FrontSections(s, from - 1, ts[..n], |ts|, addr);
    }
    if Fits(vs) {
      FormStored(vs);
    }
  }

  lemma SectionsStored(nsect: nat)
    requires 1 <= nsect <= 4
    ensures V4Stored(nsect, 0) == 5 - nsect
  {
  }

  lemma FormFits(vs: seq<nat>)
    requires 1 <= |vs| <= 4
    ensures var front := vs[..|vs| - 1];
            Fits(vs) <==> V4Fits(vs[|vs| - 1], |vs|, 0) && forall k :: 0 <= k < |front| ==> front[k] <= 255
  {
    SizesAre();
    hide Size;
    assert forall k :: 0 <= k < |vs| - 1 ==> vs[..|vs| - 1][k] == vs[k];
  }

  lemma FormStored(vs: seq<nat>)
    requires Fits(vs)
    ensures var n := |vs| - 1;
            var addr := V4Store(V4Mapped, vs[n], |vs|, 0);
            addr[..12] + vs[..n] + addr[12 + n..] == FormOctets(vs)
    ensures |vs| == 1 ==> V4Store(V4Mapped, vs[0], 1, 0) == FormOctets(vs)
  {
    hide BigEndian, Size, V4Store;
    var n := |vs| - 1;
    LastStored(vs[n], |vs|);
    var last := BigEndian(vs[n], 5 - |vs|);
    var addr := V4Mapped[..12 + n] + last;
    assert addr[..12] == V4Mapped[..12] && addr[12 + n..] == last;
    assert n == 0 ==> vs[..n] + last == last;
  }

  // ----- whole texts -----

  predicate IsFormChar(c: char) {
    IsHexDigit(c) || IsX(c) || c == '.' || c == '/'
  }

  lemma {:induction false} FormChars(ts: seq<string>)
    requires AreNumerals(ts)
    ensures forall k :: 0 <= k < |Dotted(ts)| ==> IsFormChar(Dotted(ts)[k]) && Dotted(ts)[k] != '/'
    decreases |ts|
  {
    if ts != [] {
      var n := |ts| - 1;
      FormChars(ts[..n]);
      NumeralChars(ts[n]);
    }
  }

  lemma NumeralChars(t: string)
    requires IsNumeral(t)
    ensures forall k :: 0 <= k < |t| ==> IsHexDigit(t[k]) || IsX(t[k])
  {
    assert t[..] == t[0..|t|] == t;
    NumeralReads(t, 0, |t|);
  }

  lemma FormIsAddress(s: string)
    requires forall k :: 0 <= k < |s| ==> IsFormChar(s[k])
    ensures OnlyAddressChars(s) && !IsReverseName(s) && Find(s, ':', 0) == |s|
  {
    hide IsReverseName;
    FormIsNoName(s);
    FindIs(s, ':', 0, |s|);
  }

  lemma FormIsNoName(s: string)
    requires forall k :: 0 <= k < |s| ==> IsFormChar(s[k])
    ensures !IsReverseName(s)
  {
    hide Lower;
    forall k | 0 <= k < |s| ensures Lower(s[k]) != 'p' && Lower(s[k]) != 'i' {
      FormLetter(s[k]);
    }
    NoSuffixAt(s, ".arpa", 3);
    NoSuffixAt(s, ".ip6.int", 1);
  }

  lemma FormLetter(c: char)
    requires IsFormChar(c)
    ensures Lower(c) != 'p' && Lower(c) != 'i'
  {
  }

  /** The dots are those between the sections. */
  lemma {:induction false} FormDots(s: string, from: nat, e: nat, ts: seq<string>)
    requires ts != [] && AreNumerals(ts) && from <= e <= |s| && s[from..e] == Dotted(ts)
    ensures Dots(s, from, e) == |ts| - 1
    ensures |ts| > 1 ==> Find(s, '.', from) == from + |ts[0]|
    ensures |ts| == 1 ==> Find(s, '.', from) >= e
    decreases |ts|
  {
    hide IsNumeral;
    NumeralChars(ts[0]);
    var at := from + |ts[0]|;
    if |ts| == 1 {
      assert forall k :: from <= k < e ==> s[k] == ts[0][k - from];
    } else {
      DottedFirst(ts);
      SplitText(s, from, e, ts[0] + ".", Dotted(ts[1..]));
      SplitText(s, from, at + 1, ts[0], ".");
      DotAt(s, at);
      assert forall k :: from <= k < at ==> s[k] == s[from..at][k - from];
      FindIs(s, '.', from, at);
      FormDots(s, at + 1, e, ts[1..]);
    }
  }

  lemma {:induction false} DottedFirst(ts: seq<string>)
    requires |ts| > 1
    ensures Dotted(ts) == ts[0] + "." + Dotted(ts[1..])
    decreases |ts|
  {
    var n := |ts| - 1;
    assert ts[1..][..n - 1] == ts[..n][1..];
    if n > 1 {
      DottedFirst(ts[..n]);
    }
  }

  /** The only trace of a long first section: an address of one section is recognised whatever its length. */
  predicate FirstIsShort(ts: seq<string>)
    requires ts != []
  {
    |ts| == 1 || |ts[0]| <= 4
  }

  lemma FormProto(s: string, e: nat, ts: seq<string>)
    requires ts != [] && AreNumerals(ts) && e <= |s| && s[..e] == Dotted(ts) && (e < |s| ==> s[e] == '/')
    requires forall k :: 0 <= k < |s| ==> IsFormChar(s[k])
    ensures ProtoOf(s) == if FirstIsShort(ts) then IPv4 else NoProto
    ensures Dots(s, 0, e) == |ts| - 1
  {
    hide IsNumeral, Dots;
    assert s[0..e] == s[..e];
    FormIsAddress(s);
    FormDots(s, 0, e, ts);
    FirstNumeral(s, e, ts);
    FirstDigits(s, |ts[0]|);
  }

  lemma FirstNumeral(s: string, e: nat, ts: seq<string>)
    requires ts != [] && AreNumerals(ts) && e <= |s| && s[..e] == Dotted(ts) && (e < |s| ==> s[e] == '/')
    ensures var n := |ts[0]|;
            && n <= e && s[..n] == ts[0] && (if |ts| == 1 then n == e else n < e && s[n] == '.')
  {
    if |ts| > 1 {
      DottedFirst(ts);
      assert s[..e][..|ts[0]|] == ts[0] && s[..e][|ts[0]|] == '.';
    }
  }

  lemma FirstDigits(s: string, n: nat)
    requires n <= |s| && IsNumeral(s[..n]) && EndsSection(s, n)
    ensures n == if At(s, 0) == '0' && IsX(At(s, 1)) then DigitsEnd(s, 2, 16)
                 else if At(s, 0) == '0' then DigitsEnd(s, 1, 8)
                 else DigitsEnd(s, 0, 10)
  {
    var t := s[..n];
    assert forall k :: 0 <= k < n ==> s[k] == t[k];
    if t[0] != '0' {
      DigitsEndIs(s, 0, n, 10);
    } else if |t| > 1 && IsX(t[1]) {
      assert forall k :: 2 <= k < n ==> s[k] == t[2..][k - 2];
      DigitsEndIs(s, 2, n, 16);
    } else {
      DigitsEndIs(s, 1, n, 8);
    }
  }

  /** The address of a form, if it is one. */
  predicate IsAddress(ts: seq<string>)
    requires AreNumerals(ts) && ts != []
  {
    |ts| <= 4 && FirstIsShort(ts) && Fits(Values(ts))
  }

  function AddressIn(ts: seq<string>): (r: Octets)
    requires AreNumerals(ts) && ts != [] && IsAddress(ts)
  {
    FormOctets(Values(ts))
  }

  /** Every text of up to four numerals is read as the address it is, and nothing else of numerals and dots is. */
  lemma FormParses(ts: seq<string>)
    requires ts != [] && AreNumerals(ts) && |Dotted(ts)| <= 0x1_0000
    ensures Parse(Dotted(ts)) == if IsAddress(ts) then Parsed(Block(IPv4, AddressIn(ts), MaskOf(128))) else Rejected
  {
    hide IsNumeral, V4Octets, ProtoOf, Dots, MaskOf, Fits, FourOctets, OnlyAddressChars, IsReverseName, LastSlash, Dotted;
    var s := Dotted(ts);
    assert s[..|s|] == s;
    DottedIsLong(ts);
    FormChars(ts);
    FormIsAddress(s);
    FormProto(s, |s|, ts);
    NoSlash(s);
    if |ts| <= 4 {
      FormReads(s, |s|, ts);
    }
  }

  lemma NoSlash(s: string)
    requires s != [] && forall k :: 0 <= k < |s| ==> s[k] != '/'
    ensures LastSlash(s) == -1 && SkipSlashes(s, |s| - 1) == |s| - 1
  {
  }

  // ----- netmasks in the forms of an IPv4 address -----

  /** The octets are `p` ones and then zeros. */
  predicate IsMask(octets: seq<byte>, p: nat) {
    p <= 8 * |octets| && Unpack(octets) == Ones(p) + Zeros(8 * |octets| - p)
  }

  /** What the parser finds of a netmask: its prefix length, or -1. */
  lemma MaskLength(c: Block)
    requires c.proto == IPv4 && IsBlock(c)
    ensures forall p: nat :: IsMask(c.addr[12..], p) ==> PrefixLength(AsMask(IPv4, c)) == p
    ensures (forall p: nat :: !IsMask(c.addr[12..], p)) ==> PrefixLength(AsMask(IPv4, c)) == -1
  {
    hide Unpack, LeadingOnes;
    var m, octets := AsMask(IPv4, c), c.addr[12..];
    assert m.mask[12..] == octets;
    UnpackSlice(m.mask, 12);
    OwnMask(m, octets);
  }

  /** The prefix length by the octets that belong to the protocol. */
  lemma OwnMask(m: Block, octets: seq<byte>)
    requires IsBlock(m) && m.proto != NoProto && |octets| == 16 - Start(m.proto) / 8
    requires Unpack(octets) == MaskBits(m)[Start(m.proto)..]
    ensures forall p: nat :: IsMask(octets, p) ==> PrefixLength(m) == p
    ensures (forall p: nat :: !IsMask(octets, p)) ==> PrefixLength(m) == -1
  {
    hide Unpack, LeadingOnes;
    var bits := Unpack(octets);
    forall p: nat | IsMask(octets, p) ensures PrefixLength(m) == p {
      LeadingOnesAre(bits, p);
      assert bits[p..] == Zeros(|bits| - p);
    }
    var n := LeadingOnes(bits);
    if PrefixLength(m) != -1 {
      assert bits[..n] == Ones(n);
      assert bits == bits[..n] + bits[n..];
      assert IsMask(octets, n);
    }
  }

  lemma Slashed(a: string, m: string)
    ensures var s := a + "/" + m; s[..|a|] == a && s[|a|] == '/' && s[|a| + 1..] == m
  {
  }

  lemma SlashedChars(s: string, e: nat)
    requires e < |s| && s[e] == '/'
    requires (forall k :: 0 <= k < e ==> IsFormChar(s[..e][k]) && s[..e][k] != '/')
    requires var m := s[e + 1..]; forall k :: 0 <= k < |m| ==> IsFormChar(m[k]) && m[k] != '/'
    ensures forall k :: 0 <= k < |s| ==> IsFormChar(s[k]) && (s[k] == '/' <==> k == e)
  {
    hide IsHexDigit, IsX;
    forall k | 0 <= k < |s| ensures IsFormChar(s[k]) && (s[k] == '/' <==> k == e) {
      if k < e {
        assert s[k] == s[..e][k];
      } else if k > e {
        assert s[k] == s[e + 1..][k - e - 1];
      }
    }
  }

  lemma SlashAt(s: string, e: nat)
    requires 0 < e < |s| && s[e] == '/' && s[e - 1] != '/' && forall k :: e < k < |s| ==> s[k] != '/'
    ensures LastSlash(s) == e && SkipSlashes(s, e - 1) == e - 1
  {
    hide LastSlash;
  }

  lemma MaskAfter(s: string, e: nat)
    requires e + 1 < |s|
    ensures var m := s[e + 1..]; HasMask(s, e) <==> m[0] == '0' || exists k :: 0 <= k < |m| && IsMaskMark(m[k])
  {
    hide IsMaskMark;
    var m := s[e + 1..];
    assert forall k :: 0 <= k < |m| ==> m[k] == s[e + 1 + k];
    if k :| e < k < |s| && IsMaskMark(s[k]) {
      assert IsMaskMark(m[k - e - 1]);
    }
  }

  /** A netmask is recognised by a dot or by a leading zero. */
  predicate LooksLikeMask(ms: seq<string>)
    requires ms != [] && AreNumerals(ms)
  {
    |ms| > 1 || ms[0][0] == '0'
  }

  /** An address in any form, and behind the slash a netmask in any form: the block of that many ones if the octets of
      the mask are ones and then zeros, and nothing else. */
  lemma NetmaskParses(ts: seq<string>, ms: seq<string>)
    requires ts != [] && ms != [] && AreNumerals(ts) && AreNumerals(ms) && LooksLikeMask(ms)
    requires |Dotted(ts) + "/" + Dotted(ms)| <= 0x1_0000
    ensures var o := Parse(Dotted(ts) + "/" + Dotted(ms));
            if IsAddress(ts) && IsAddress(ms) then
              && (forall p: nat :: IsMask(FourOctets(Values(ms)), p) ==> o == Parsed(Block(IPv4, AddressIn(ts), MaskOf(96 + p))))
              && ((forall p: nat :: !IsMask(FourOctets(Values(ms)), p)) ==> o == Rejected)
            else o == Rejected
  {
    hide IsNumeral, V4Octets, ProtoOf, Dots, MaskOf, Fits, FourOctets, OnlyAddressChars, IsReverseName, LastSlash, Dotted, HasMask,
         PrefixLength, AsMask, IsMask, SkipSlashes;
    var a, m := Dotted(ts), Dotted(ms);
    var s := a + "/" + m;
    DottedIsLong(ts);
    DottedIsLong(ms);
    FormChars(ts);
    FormChars(ms);
    Slashed(a, m);
    SlashedChars(s, |a|);
    SlashAt(s, |a|);
    MaskAfter(s, |a|);
    MaskIsRecognised(ms);
    FormIsAddress(s);
    FormProto(s, |a|, ts);
    FormParses(ms);
    if |ts| <= 4 {
      FormReads(s, |a|, ts);
    }
    if IsAddress(ms) {
      var c := Block(IPv4, AddressIn(ms), MaskOf(128));
      assert c.addr[12..] == FourOctets(Values(ms));
      MaskLength(c);
    }
  }

  lemma MaskIsRecognised(ms: seq<string>)
    requires ms != [] && AreNumerals(ms) && Dotted(ms) != []
    ensures LooksLikeMask(ms) <==> Dotted(ms)[0] == '0' || exists k :: 0 <= k < |Dotted(ms)| && IsMaskMark(Dotted(ms)[k])
  {
    hide IsNumeral;
    var m := Dotted(ms);
    NumeralIsLong(ms[0]);
    if |ms| > 1 {
      DottedFirst(ms);
      assert m[|ms[0]|] == '.';
    } else {
      NumeralChars(ms[0]);
    }
  }

  // ----- printed netmasks -----

  /** The four sections of a printed address. */
  function Sections(addr: seq<byte>): (ts: seq<string>)
    requires |addr| == 16
  {
    [Digits(addr[12], 10), Digits(addr[13], 10), Digits(addr[14], 10), Digits(addr[15], 10)]
  }

  lemma DigitsAreNumeral(v: nat)
    ensures IsNumeral(Digits(v, 10)) && NumeralValue(Digits(v, 10)) == v
  {
    hide Digits, DigitsValue;
    DigitsRead(v, 10);
    if v == 0 {
      assert "0"[..0] == "";
      ZeroIsOctal();
    }
  }

  lemma ZeroIsOctal()
    ensures IsNumeral("0") && NumeralValue("0") == 0
  {
    assert "0"[..0] == "";
  }

  lemma PrintedForm(addr: seq<byte>)
    requires |addr| == 16
    ensures var ts := Sections(addr); AreNumerals(ts) && Dotted(ts) == V4Text(addr) && IsAddress(ts)
    ensures FourOctets(Values(Sections(addr))) == addr[12..]
  {
    hide Digits, IsNumeral, NumeralValue;
    var ts := Sections(addr);
    forall k | 0 <= k < 4 ensures IsNumeral(ts[k]) && NumeralValue(ts[k]) == addr[12 + k] {
      DigitsAreNumeral(addr[12 + k]);
    }
    PrintedDots(addr);
    ShortDigits(addr[12]);
    assert Values(ts) == addr[12..];
    FitsFour(Values(ts));
  }

  lemma PrintedDots(addr: seq<byte>)
    requires |addr| == 16
    ensures Dotted(Sections(addr)) == V4Text(addr)
  {
    hide Digits;
    var ts := Sections(addr);
    assert ts[..3] == [ts[0], ts[1], ts[2]] && ts[..3][..2] == [ts[0], ts[1]] && ts[..3][..2][..1] == [ts[0]];
    assert Dotted(ts[..3][..2]) == ts[0] + "." + ts[1];
    assert Dotted(ts[..3]) == ts[0] + "." + ts[1] + "." + ts[2];
  }

  lemma FitsFour(vs: seq<nat>)
    requires |vs| == 4 && forall k :: 0 <= k < 4 ==> vs[k] <= 255
    ensures Fits(vs) && FourOctets(vs) == vs
  {
    SizesAre();
    assert BigEndian(vs[3], 1) == [vs[3]];
  }

  /** A printed IPv4 address, a slash and a printed netmask: the block of the netmask's ones, or nothing if its octets are
      not ones and then zeros. */
  lemma PrintedNetmask(addr: seq<byte>, mask: seq<byte>)
    requires |addr| == 16 && |mask| == 16
    ensures var o := Parse(V4Text(addr) + "/" + V4Text(mask));
            && (forall p: nat :: IsMask(mask[12..], p) ==> o == Parsed(Block(IPv4, V4Mapped[..12] + addr[12..], MaskOf(96 + p))))
            && ((forall p: nat :: !IsMask(mask[12..], p)) ==> o == Rejected)
  {
    hide Digits, IsNumeral, NumeralValue, IsMask, Parse, MaskOf, Dotted, V4Text, Sections;
    PrintedForm(addr);
    PrintedForm(mask);
    ShortText(addr);
    ShortText(mask);
    SectionsAreFour(mask);
    NetmaskParses(Sections(addr), Sections(mask));
  }

  lemma SectionsAreFour(addr: seq<byte>)
    requires |addr| == 16
    ensures |Sections(addr)| == 4
  {
  }

  lemma ShortText(addr: seq<byte>)
    requires |addr| == 16
    ensures |V4Text(addr)| <= 15
  {
    hide Digits;
    ShortDigits(addr[12]);
    ShortDigits(addr[13]);
    ShortDigits(addr[14]);
    ShortDigits(addr[15]);
  }

  /** Numbers as they are printed. */
  lemma PrintedNumbers()
    ensures Digits(192, 10) == "192" && Digits(10, 10) == "10" && Digits(0x42, 16) == "42" && Digits(0xab0f, 16) == "ab0f"
  {
    assert Digits(1, 10) == "1" && Digits(19, 10) == "19";
    assert Digits(0xa, 16) == "a" && Digits(0xab, 16) == "ab" && Digits(0xab0, 16) == "ab0" && Digits(4, 16) == "4";
  }

  // ----- prefix lengths behind addresses in any form -----

  function Slashes(n: nat): string {
    seq(n, _ => '/')
  }

  lemma {:induction false} SlashesAreSkipped(s: string, e: nat, k: nat)
    requires 0 < e <= k <= |s| && s[e - 1] != '/' && forall i :: e <= i < k ==> s[i] == '/'
    ensures SkipSlashes(s, k - 1) == e - 1
    decreases k - e
  {
    if e < k {
      SlashesAreSkipped(s, e, k - 1);
    }
  }

  /** The address in front of any number of slashes. */
  lemma SlashedAddress(s: string, e: nat, slash: nat, ts: seq<string>)
    requires ts != [] && AreNumerals(ts) && e <= slash < |s| && s[..e] == Dotted(ts) && |ts| <= 4
    requires forall k :: e <= k <= slash ==> s[k] == '/'
    requires forall k :: 0 <= k < |s| ==> IsFormChar(s[k])
    ensures ProtoOf(s) == (if FirstIsShort(ts) then IPv4 else NoProto) && Dots(s, 0, slash) == |ts| - 1
    ensures AddressOf(IPv4, s, slash) == if Fits(Values(ts)) then Found(FormOctets(Values(ts))) else NotFound
  {
    hide IsNumeral, V4Octets, ProtoOf, Dots, Fits, FourOctets, FormOctets, Dotted, IsHexDigit, IsX, Values, V4Fits, FirstIsShort;
    DottedIsLong(ts);
    FormChars(ts);
    assert s[e - 1] == s[..e][e - 1];
    FormProto(s, e, ts);
    SlashesAreSkipped(s, e, slash);
    NoMoreDots(s, e, slash);
    FormReads(s, e, ts);
  }

  /** Slashes add no dots. */
  lemma NoMoreDots(s: string, e: nat, slash: nat)
    requires e <= slash <= |s| && forall k :: e <= k < slash ==> s[k] == '/'
    ensures Dots(s, 0, slash) == Dots(s, 0, e)
  {
    DotsFrom(s, 0, e, slash);
  }

  lemma {:induction false} DotsFrom(s: string, from: nat, e: nat, slash: nat)
    requires from <= e <= slash <= |s| && forall k :: e <= k < slash ==> s[k] == '/'
    ensures Dots(s, from, slash) == Dots(s, from, e)
    decreases |s| - from
  {
    var k := Find(s, '.', from);
    if k < e {
      DotsFrom(s, k + 1, e, slash);
    }
  }

  /** An address in any form, slashes, and a decimal number: the block of that prefix length, as far as it is one. */
  lemma FormWithPrefix(ts: seq<string>, n: nat, d: string)
    requires ts != [] && AreNumerals(ts) && |ts| <= 4 && IsDecimal(d) && |Dotted(ts) + Slashes(n) + "/" + d| <= 0x1_0000
    ensures var given := PrefixGiven(IPv4, DigitsValue(d, 10));
            Parse(Dotted(ts) + Slashes(n) + "/" + d)
            == if IsAddress(ts) && given.Some? then Parsed(Block(IPv4, AddressIn(ts), MaskOf(96 + given.value))) else Rejected
  {
    hide IsNumeral, ProtoOf, Dots, MaskOf, Fits, FourOctets, Dotted, PrefixGiven, DigitsValue, Parse, AddressOf;
    var a := Dotted(ts) + Slashes(n);
    var s, e := a + "/" + d, |Dotted(ts)|;
    FormChars(ts);
    PrefixChars(Dotted(ts), n, d);
    FormIsAddress(a);
    DecimalPrefix(s, a, d);
    assert s[..e] == Dotted(ts);
    SlashedAddress(s, e, |a|, ts);
  }

  lemma PrefixChars(t: string, n: nat, d: string)
    requires (forall k :: 0 <= k < |t| ==> IsFormChar(t[k])) && IsDecimal(d)
    ensures var a := t + Slashes(n); forall k :: 0 <= k < |a| ==> IsFormChar(a[k])
    ensures var s := t + Slashes(n) + "/" + d;
            (forall k :: 0 <= k < |s| ==> IsFormChar(s[k])) && forall k :: |t| <= k <= |t| + n ==> s[k] == '/'
  {
  }

  /** A slash at the very end is as good as none. */
  lemma FormWithSlash(ts: seq<string>, n: nat)
    requires ts != [] && AreNumerals(ts) && |ts| <= 4 && |Dotted(ts) + Slashes(n) + "/"| <= 0x1_0000
    ensures Parse(Dotted(ts) + Slashes(n) + "/") == if IsAddress(ts) then Parsed(Block(IPv4, AddressIn(ts), MaskOf(128))) else Rejected
  {
    hide IsNumeral, ProtoOf, Dots, MaskOf, Fits, FourOctets, Dotted, AddressOf, OnlyAddressChars, IsReverseName;
    var s, e := Dotted(ts) + Slashes(n) + "/", |Dotted(ts)|;
    FormChars(ts);
    PrefixChars(Dotted(ts), n, "1");
    assert s + "1" == Dotted(ts) + Slashes(n) + "/" + "1";
    assert forall k :: 0 <= k < |s| ==> s[k] == (s + "1")[k];
    FormIsAddress(s);
    assert s[..e] == Dotted(ts);
    SlashedAddress(s, e, |s| - 1, ts);
  }
}
