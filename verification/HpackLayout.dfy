/** The representations of section 6 of RFC 7541 as any encoder may write them, and what both decoders make of them. */
module HpackLayout {
  import opened Bits
  import opened HpackInteger
  import opened HpackTable
  import opened HpackEncoder
  import opened HpackDecoder
  import opened HpackStandard
  import Ref = HpackReference
  import opened HpackRoundTrip
  import Huffman = HuffmanCoder

  // ----- integers, section 5.1 -----

  /** Groups of seven bits, the lowest first. */
  function Grouped(bytes: seq<byte>): nat {
    if bytes == [] then 0 else bytes[0] % 128 + 128 * Grouped(bytes[1..])
  }

  /** A prefix of ones that is not the whole number is followed by the rest in groups, all but the last with the top bit. */
  lemma IntegerLayout(v: nat, n: nat)
    requires 1 <= n <= 8
    ensures var bytes := EncodedInt(v, n);
            && (v < Pow2(n) - 1 ==> bytes == [v])
            && (v >= Pow2(n) - 1 ==> |bytes| > 1 && bytes[0] == Pow2(n) - 1 && v == Pow2(n) - 1 + Grouped(bytes[1..]))
            && forall k :: 1 <= k < |bytes| ==> (bytes[k] >= 128 <==> k < |bytes| - 1)
  {
    hide Pow2, Continuation;
    EncodedIntIs(v, n);
    if v >= Pow2(n) - 1 {
      ContinuationLayout(v - (Pow2(n) - 1));
    }
  }

  lemma {:induction false} ContinuationLayout(v: nat)
    ensures var bytes := Continuation(v);
            Grouped(bytes) == v && forall k :: 0 <= k < |bytes| ==> (bytes[k] >= 128 <==> k < |bytes| - 1)
  {
    if v >= 128 {
      ContinuationLayout(v / 128);
      assert Continuation(v)[1..] == Continuation(v / 128);
    }
  }

  // ----- strings and representations -----

  datatype Coded = Coded(text: Text, huffman: bool)

  function Payload(c: Coded): seq<byte> {
    if c.huffman then Huffman.Encoded(c.text) else c.text
  }

  /** Section 5.2: a flag and the length in seven bits, then the string. */
  function StringBytes(c: Coded): (r: seq<byte>)
    ensures |r| > 0
  {
    SevenBits();
    Flagged(EncodedInt(|Payload(c)|, 7), if c.huffman then 0x80 else 0) + Payload(c)
  }

  datatype Name = Index(index: nat) | Spelled(name: Coded)

  datatype Kind = Incremental | WithoutIndexing | NeverIndexed

  datatype Representation = Indexed(index: nat) | LiteralField(kind: Kind, name: Name, value: Coded) | SizeUpdate(size: nat)

  function Pattern(kind: Kind): byte {
    match kind
    case Incremental => 0x40
    case WithoutIndexing => 0x00
    case NeverIndexed => 0x10
  }

  function PrefixBits(kind: Kind): (n: nat)
    ensures 1 <= n <= 8 && AbovePrefix(Pattern(kind), n)
  {
    PatternsFit();
    if kind == Incremental then 6 else 4
  }

  lemma PatternsFit()
    ensures AbovePrefix(0x40, 6) && AbovePrefix(0, 4) && AbovePrefix(0x10, 4) && AbovePrefix(0x20, 5) && AbovePrefix(0x80, 7)
    ensures AbovePrefix(0, 7)
    ensures Pow2(4) == 16 && Pow2(5) == 32 && Pow2(6) == 64 && Pow2(7) == 128
  {
  }

  /** Sections 6.1 to 6.3 */
  function Layout(r: Representation): (bytes: seq<byte>)
    ensures |bytes| > 0
  {
    PatternsFit();
    match r
    case Indexed(index) => Flagged(EncodedInt(index, 7), 0x80)
    case SizeUpdate(size) => Flagged(EncodedInt(size, 5), 0x20)
    case LiteralField(kind, Index(index), value) => Flagged(EncodedInt(index, PrefixBits(kind)), Pattern(kind)) + StringBytes(value)
    case LiteralField(kind, Spelled(name), value) => [Pattern(kind)] + StringBytes(name) + StringBytes(value)
  }

  predicate StringFits(c: Coded) {
    |Payload(c)| < INT_LIMIT
  }

  /** The numbers fit the decoder's integer, and a literal's index is none of its spelled names. */
  predicate Fits(r: Representation) {
    match r
    case Indexed(index) => index < INT_LIMIT
    case SizeUpdate(size) => size < INT_LIMIT
    case LiteralField(_, Index(index), value) => 1 <= index < INT_LIMIT && StringFits(value)
    case LiteralField(_, Spelled(name), value) => StringFits(name) && StringFits(value)
  }

  // ----- strings are read -----

  lemma StringBytesAreCounted(c: Coded)
    requires StringFits(c)
    ensures StringBytes(c) == Ref.Counted(Payload(c), if c.huffman then HUFFMAN_FLAG else 0)
  {
    hide Huffman.Encoded, EncodedInt;
  }

  lemma StringReads(before: seq<byte>, c: Coded, after: seq<byte>)
    requires StringFits(c)
    ensures var data, end := before + StringBytes(c) + after, |before + StringBytes(c)|;
            && Ref.ReadString(data, |before|) == Ref.StringAt(c.text, end)
            && ReadString(data, |before|) == if Payload(c) == [] && after == [] then Throws else Read(c.text, end)
  {
    hide Huffman.Encoded, Huffman.Walk, EncodedInt, DecodedInt, Ref.Counted, StringBytes, Unpack;
    var flags := if c.huffman then HUFFMAN_FLAG else 0;
    StringBytesAreCounted(c);
    Ref.CountedReads(before, Payload(c), flags, after);
    if c.huffman {
      Huffman.DecodeUndoesEncode(c.text);
      Ref.CodedStringReads(before, Payload(c), c.text, after);
    }
    StringsAgree(before + StringBytes(c) + after, |before|);
  }

  /** `StringReads` wherever the string stands. */
  ghost predicate ReadsEverywhere(bytes: seq<byte>, c: Coded) {
    && |bytes| > 0
    && forall b: seq<byte>, a: seq<byte> ::
         && Ref.ReadString(b + bytes + a, |b|) == Ref.StringAt(c.text, |b + bytes|)
         && ReadString(b + bytes + a, |b|) == if Payload(c) == [] && a == [] then Throws else Read(c.text, |b + bytes|)
  }

  lemma StringReadsEverywhere(c: Coded)
    requires StringFits(c)
    ensures ReadsEverywhere(StringBytes(c), c)
  {
    hide Ref.ReadString, ReadString, StringBytes, StringFits, Payload;
    var bytes := StringBytes(c);
    forall b: seq<byte>, a: seq<byte>
      ensures Ref.ReadString(b + bytes + a, |b|) == Ref.StringAt(c.text, |b + bytes|)
      ensures ReadString(b + bytes + a, |b|) == if Payload(c) == [] && a == [] then Throws else Read(c.text, |b + bytes|)
    {
      StringReads(b, c, a);
    }
  }

  // ----- the program's decoder -----

  /** The name of a literal; that of an unknown index is empty. */
  function NameOf(name: Name, queue: seq<Header>): Text {
    match name
    case Spelled(c) => c.text
    case Index(index) => match HeaderAt(queue, index) case Some(h) => h.name case None => []
  }

  /** What the program's decoder makes of a representation that ends at `end`, with or without bytes behind it. */
  function Expected(r: Representation, s: DecoderState, end: nat, last: bool): StepResult {
    match r
    case Indexed(index) =>
      if index == 0 then Stop(Returned(false))
      else
        (match HeaderAt(s.table.queue, index)
         case Some(h) => Next(end, s.(headers := Noted(s.headers, h.name, h.value)))
         case None => Next(end, s))
    case SizeUpdate(size) => Next(end, s.(table := Applied(s.table, Resize(size))))
    case LiteralField(_, name, value) =>
      if last && Payload(value) == [] then Stop(Thrown)
      else Next(end, s.(headers := Noted(s.headers, NameOf(name, s.table.queue), value.text)))
  }

  /** Every representation is read, with every index, wherever it stands and whoever has written it. */
  lemma LayoutIsRead(before: seq<byte>, r: Representation, after: seq<byte>, s: DecoderState)
    requires Fits(r)
    ensures Step(before + Layout(r) + after, |before|, s) == Expected(r, s, |before + Layout(r)|, after == [])
  {
    hide EncodedInt, DecodedInt, ReadString, StringBytes, HeaderAt, Applied, Noted;
    PatternsFit();
    match r
    case Indexed(index) => IntegerRoundTrip(before, index, 7, 0x80, after);
    case SizeUpdate(size) => IntegerRoundTrip(before, size, 5, 0x20, after);
    case LiteralField(kind, Index(index), value) => IndexedLiteralIsRead(before, kind, index, value, after, s);
    case LiteralField(kind, Spelled(name), value) => SpelledLiteralIsRead(before, kind, name, value, after, s);
  }

  /** The first byte shows the kind, and holds the index in as many bits as the kind leaves. */
  lemma FirstByte(before: seq<byte>, kind: Kind, index: nat, rest: seq<byte>)
    requires index < INT_LIMIT
    ensures var bytes := Flagged(EncodedInt(index, PrefixBits(kind)), Pattern(kind));
            var data, pos := before + bytes + rest, |before|;
            && DecodedInt(data, pos, PrefixBits(kind)) == Int(index, |before + bytes|)
            && data[pos] < 128 && data[pos] / 32 != 1 && (data[pos] / 64 == 1 <==> kind == Incremental)
  {
    hide EncodedInt, DecodedInt;
    PatternsFit();
    var n, bytes := PrefixBits(kind), Flagged(EncodedInt(index, PrefixBits(kind)), Pattern(kind));
    IntegerRoundTrip(before, index, n, Pattern(kind), rest);
    assert (before + bytes + rest)[|before|] == bytes[0];
  }

  lemma IndexedLiteralIsRead(before: seq<byte>, kind: Kind, index: nat, value: Coded, after: seq<byte>, s: DecoderState)
    requires Fits(LiteralField(kind, Index(index), value))
    ensures var r := LiteralField(kind, Index(index), value);
            Step(before + Layout(r) + after, |before|, s) == Expected(r, s, |before + Layout(r)|, after == [])
  {
    hide EncodedInt, DecodedInt, ReadString, StringBytes, HeaderAt, Applied, Noted, Payload, Ref.ReadString, Flagged;
    var head, tail := Flagged(EncodedInt(index, PrefixBits(kind)), Pattern(kind)), StringBytes(value);
    FirstByte(before, kind, index, tail + after);
    StringReadsEverywhere(value);
    assert before + (head + tail) + after == before + head + (tail + after) == (before + head) + tail + after;
    assert |(before + head) + tail| == |before + (head + tail)|;
  }

  lemma SpelledLiteralIsRead(before: seq<byte>, kind: Kind, name: Coded, value: Coded, after: seq<byte>, s: DecoderState)
    requires Fits(LiteralField(kind, Spelled(name), value))
    ensures var r := LiteralField(kind, Spelled(name), value);
            Step(before + Layout(r) + after, |before|, s) == Expected(r, s, |before + Layout(r)|, after == [])
  {
    hide EncodedInt, DecodedInt, ReadString, StringBytes, HeaderAt, Applied, Noted, Payload, Ref.ReadString, Flagged;
    var head, first, tail := [Pattern(kind)], StringBytes(name), StringBytes(value);
    PatternIsZero(kind);
    FirstByte(before, kind, 0, first + tail + after);
    StringReadsEverywhere(name);
    StringReadsEverywhere(value);
    assert before + (head + first + tail) + after == before + head + (first + tail + after);
    assert before + (head + first + tail) + after == (before + head) + first + (tail + after);
    assert before + (head + first + tail) + after == (before + head + first) + tail + after;
    assert |(before + head + first) + tail| == |before + (head + first + tail)|;
  }

  lemma PatternIsZero(kind: Kind)
    ensures Flagged(EncodedInt(0, PrefixBits(kind)), Pattern(kind)) == [Pattern(kind)]
  {
    PatternsFit();
  }

  // ----- whole blocks -----

  function LayoutAll(rs: seq<Representation>): seq<byte> {
    if rs == [] then [] else Layout(rs[0]) + LayoutAll(rs[1..])
  }

  predicate AllFit(rs: seq<Representation>) {
    forall k :: 0 <= k < |rs| ==> Fits(rs[k])
  }

  /** One representation after the other, up to the limit of rounds. */
  function ExpectedOfAll(rs: seq<Representation>, loop: nat, s: DecoderState): (Outcome, DecoderState) {
    if rs == [] || loop >= MAX_LOOPS then (Returned(true), s)
    else
      match Expected(rs[0], s, 0, rs[1..] == [])
      case Stop(outcome) => (outcome, s)
      case Next(_, s') => ExpectedOfAll(rs[1..], loop + 1, s')
  }

  lemma {:induction false} BlockIsRead(before: seq<byte>, rs: seq<Representation>, loop: nat, s: DecoderState)
    requires AllFit(rs)
    ensures Run(before + LayoutAll(rs), |before|, loop, s) == ExpectedOfAll(rs, loop, s)
    decreases |rs|
  {
    hide Step, Layout, Expected, Fits;
    var data := before + LayoutAll(rs);
    RunStep(data, |before|, loop, s);
    if rs != [] {
      var first, rest := Layout(rs[0]), LayoutAll(rs[1..]);
      assert data == before + first + rest;
      LayoutIsRead(before, rs[0], rest, s);
      OnlyTheEnd(rs[0], s, |before + first|, rest == []);
      NothingLeft(rs[1..]);
      if loop < MAX_LOOPS && Expected(rs[0], s, 0, rest == []).Next? {
        BlockIsRead(before + first, rs[1..], loop + 1, Expected(rs[0], s, 0, rest == []).state);
      }
    }
  }

  lemma NothingLeft(rs: seq<Representation>)
    ensures LayoutAll(rs) == [] <==> rs == []
  {
  }

  lemma OnlyTheEnd(r: Representation, s: DecoderState, end: nat, last: bool)
    ensures var a, b := Expected(r, s, 0, last), Expected(r, s, end, last);
            if a.Next? then b == Next(end, a.state) else b == a
  {
    hide Noted, Applied;
  }

  /** The decoder object on a block of anyone's representations. */
  method DecodeLayout(decoder: Decoder, rs: seq<Representation>) returns (outcome: Outcome)
    requires decoder.Valid() && AllFit(rs) && rs != []
    modifies decoder, decoder.m_dynamic
    ensures decoder.Valid() && (outcome, decoder.State()) == ExpectedOfAll(rs, 0, old(decoder.State()))
  {
    hide Run, ExpectedOfAll, Fits;
    NothingLeft(rs);
    BlockIsRead([], rs, 0, decoder.State());
    assert [] + LayoutAll(rs) == LayoutAll(rs);
    outcome := decoder.Decode(LayoutAll(rs));
  }

  // ----- the standard's reading, and this encoder's writing -----

  /** What section 6 says of a representation. */
  ghost function Standard(e: Eviction, r: Representation, table: TableState, end: nat): Ref.One {
    match r
    case Indexed(index) =>
      if index == 0 || HeaderAt(table.queue, index).None? then Ref.Bad else Ref.Header(HeaderAt(table.queue, index).value, end, table)
    case SizeUpdate(size) => Ref.Update(end, Updated(e, table, Resize(size)))
    case LiteralField(kind, name, value) =>
      if name.Index? && HeaderAt(table.queue, name.index).None? then Ref.Bad
      else
        var h := Header(NameOf(name, table.queue), value.text);
        Ref.Header(h, end, if kind == Incremental then Updated(e, table, Insert(h)) else table)
  }

  lemma LayoutByStandard(e: Eviction, before: seq<byte>, r: Representation, after: seq<byte>, table: TableState)
    requires Fits(r)
    ensures Ref.ReadOne(e, before + Layout(r) + after, |before|, table) == Standard(e, r, table, |before + Layout(r)|)
  {
    hide EncodedInt, DecodedInt, Ref.ReadString, StringBytes, HeaderAt, Updated;
    PatternsFit();
    match r
    case Indexed(index) => IntegerRoundTrip(before, index, 7, 0x80, after);
    case SizeUpdate(size) => IntegerRoundTrip(before, size, 5, 0x20, after);
    case LiteralField(kind, Index(index), value) => IndexedLiteralByStandard(e, before, kind, index, value, after, table);
    case LiteralField(kind, Spelled(name), value) => SpelledLiteralByStandard(e, before, kind, name, value, after, table);
  }

  lemma IndexedLiteralByStandard(e: Eviction, before: seq<byte>, kind: Kind, index: nat, value: Coded, after: seq<byte>, table: TableState)
    requires Fits(LiteralField(kind, Index(index), value))
    ensures var r := LiteralField(kind, Index(index), value);
            Ref.ReadOne(e, before + Layout(r) + after, |before|, table) == Standard(e, r, table, |before + Layout(r)|)
  {
    hide EncodedInt, DecodedInt, ReadString, StringBytes, HeaderAt, Updated, Payload, Ref.ReadString, Flagged;
    var head, tail := Flagged(EncodedInt(index, PrefixBits(kind)), Pattern(kind)), StringBytes(value);
    FirstByte(before, kind, index, tail + after);
    StringReadsEverywhere(value);
    assert before + (head + tail) + after == before + head + (tail + after) == (before + head) + tail + after;
    assert |(before + head) + tail| == |before + (head + tail)|;
  }

  lemma SpelledLiteralByStandard(e: Eviction, before: seq<byte>, kind: Kind, name: Coded, value: Coded, after: seq<byte>, table: TableState)
    requires Fits(LiteralField(kind, Spelled(name), value))
    ensures var r := LiteralField(kind, Spelled(name), value);
            Ref.ReadOne(e, before + Layout(r) + after, |before|, table) == Standard(e, r, table, |before + Layout(r)|)
  {
    hide EncodedInt, DecodedInt, ReadString, StringBytes, HeaderAt, Updated, Payload, Ref.ReadString, Flagged;
    var head, first, tail := [Pattern(kind)], StringBytes(name), StringBytes(value);
    PatternIsZero(kind);
    FirstByte(before, kind, 0, first + tail + after);
    StringReadsEverywhere(name);
    StringReadsEverywhere(value);
    assert before + (head + first + tail) + after == before + head + (first + tail + after);
    assert before + (head + first + tail) + after == (before + head) + first + (tail + after);
    assert before + (head + first + tail) + after == (before + head + first) + tail + after;
    assert |(before + head + first) + tail| == |before + (head + first + tail)|;
  }

  /** How this encoder represents a request. */
  function Represented(r: Request, queue: seq<Header>): Representation {
    var h, f := r.header, Found(r.header, queue);
    if r.neverIndexed then LiteralField(NeverIndexed, Spelled(Coded(h.name, false)), Coded(h.value, false))
    else if f.exact then Indexed(f.index)
    else if f.index != -1 then LiteralField(Incremental, Index(f.index), Coded(h.value, r.huffman))
    else LiteralField(Incremental, Spelled(Coded(h.name, r.huffman)), Coded(h.value, r.huffman))
  }

  /** Whatever can be read back is written as the standard lays it out. */
  lemma WrittenIsLayout(r: Request, queue: seq<Header>)
    requires Ref.Faithful(r, queue)
    ensures Fits(Represented(r, queue)) && Written(r, queue) == Layout(Represented(r, queue))
  {
    hide EncodedInt, Huffman.Encoded, StaticAt, Found, Pow2, StringBytes, PlainString, HuffmanString, Ref.PlainFits, Ref.HuffmanFits, StringFits,
         Flagged;
    StringsAreLayout(r.header.name);
    StringsAreLayout(r.header.value);
    FoundLeadsBack(r.header, queue);
    FoundIsSmall(r.header, queue);
  }

  lemma FoundIsSmall(h: Header, queue: seq<Header>)
    ensures var f := Found(h, queue); f.index == -1 || 1 <= f.index < STATIC_SIZE + |queue|
  {
    hide Found;
  }

  lemma StringsAreLayout(s: Text)
    ensures Ref.PlainFits(s) ==> StringFits(Coded(s, false)) && PlainString(s) == StringBytes(Coded(s, false))
    ensures Ref.HuffmanFits(s) ==> StringFits(Coded(s, true)) && HuffmanString(s) == StringBytes(Coded(s, true))
  {
    hide EncodedInt, Huffman.Encoded, Ref.Counted, StringBytes, PlainString, HuffmanString;
    if Ref.PlainFits(s) {
      Ref.PlainIsCounted(s);
      StringBytesAreCounted(Coded(s, false));
    }
    if Ref.HuffmanFits(s) {
      Ref.HuffmanIsCounted(s);
      StringBytesAreCounted(Coded(s, true));
    }
  }

  // ----- any bytes -----

  /** On any bytes, and with the same table, the program's decoder does what the standard says of them: it notes the
      header and goes on where the standard does, unless an empty value ends the data; and a change of the size is made. */
  lemma StepByStandard(data: seq<byte>, pos: nat, s: DecoderState)
    requires pos < |data|
    ensures var one, step := Ref.ReadOne(OfSource, data, pos, s.table), Step(data, pos, s);
            match one
            case Header(h, next, _) =>
              var seen := Next(next, s.(headers := Noted(s.headers, h.name, h.value)));
              if h.value != [] || next < |data| then step == seen else step == seen || step == Stop(Thrown)
            case Update(next, table) => step == Next(next, s.(table := table))
            case Bad => step.Stop? || (Unknown(data, pos, s.table.queue) && step.state.table == s.table)
  {
    hide EncodedInt, DecodedInt, ReadString, Ref.ReadString, HeaderAt, Noted, Applied, LiteralAt;
    if data[pos] < 128 && data[pos] / 32 != 1 {
      LiteralByStandard(data, pos, s);
    } else {
      KnownIndex(s.table.queue);
    }
  }

  /** The representation has an index without an entry. */
  predicate Unknown(data: seq<byte>, pos: nat, queue: seq<Header>)
    requires pos < |data|
  {
    var index := DecodedInt(data, pos, if data[pos] >= 128 then 7 else if data[pos] >= 64 then 6 else 4);
    index.Int? && index.value >= STATIC_SIZE + |queue|
  }

  lemma KnownIndex(queue: seq<Header>)
    ensures forall index: nat :: HeaderAt(queue, index).None? <==> index >= STATIC_SIZE + |queue|
  {
    hide StaticAt;
  }

  lemma LiteralByStandard(data: seq<byte>, pos: nat, s: DecoderState)
    requires pos < |data| && data[pos] < 128 && data[pos] / 32 != 1
    ensures var one, literal := Ref.ReadOne(OfSource, data, pos, s.table), LiteralAt(data, pos, s.table.queue);
            && !one.Update?
            && (one.Header? ==>
                  var seen := Literal(one.header.name, one.header.value, one.next);
                  if one.header.value != [] || one.next < |data| then literal == seen else literal == seen || literal == NoLiteral(Thrown))
            && (one.Bad? ==> literal.NoLiteral? || Unknown(data, pos, s.table.queue))
  {
    hide DecodedInt, ReadString, Ref.ReadString, HeaderAt, Updated;
    KnownIndex(s.table.queue);
    var index := DecodedInt(data, pos, if data[pos] / 64 == 1 then 6 else 4);
    if index.Int? && index.next < |data| {
      BothRead(data, index.next);
      if index.value == 0 && Ref.ReadString(data, index.next).StringAt? && Ref.ReadString(data, index.next).next < |data| {
        BothRead(data, Ref.ReadString(data, index.next).next);
      }
    }
  }

  /** The two readers of strings agree, but for an empty string at the end. */
  lemma BothRead(data: seq<byte>, pos: nat)
    requires pos < |data|
    ensures var a, b := Ref.ReadString(data, pos), ReadString(data, pos);
            && (b.Read? ==> a == Ref.StringAt(b.text, b.next))
            && (a.StringAt? ==> if a.text != [] || a.next < |data| then b == Read(a.text, a.next) else b == Read(a.text, a.next) || b == Throws)
  {
    hide Huffman.Walk, DecodedInt;
    NothingCoded();
    assert data[|data|..|data|] == [];
  }

  lemma NothingCoded()
    ensures Huffman.Walk(Unpack([]), [], []) == Huffman.Decoded([])
  {
  }
}
