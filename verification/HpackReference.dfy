/** A decoder for whole blocks that inserts what section 6.2.1 of RFC 7541 says to insert. With the source's own
    eviction it recovers exactly what the encoder was given; with the standard's, exactly when every index that
    the encoder gives is still in the standard's table. */
module HpackReference {
  import opened Bits
  import opened HpackInteger
  import opened HpackTable
  import opened HpackEncoder
  import opened HpackStandard
  import opened HuffmanHigh
  import Huffman = HuffmanCoder

  datatype StringAt = StringAt(text: Text, next: nat) | NoString

  /** Section 5.2 */
  ghost function ReadString(data: seq<byte>, pos: nat): (r: StringAt)
    ensures r.StringAt? ==> pos < r.next <= |data|
  {
    match DecodedInt(data, pos, 7)
    case Undefined => NoString
    case Int(len, next) =>
      if next + len > |data| then NoString
      else if data[pos] < 128 then StringAt(data[next..next + len], next + len)
      else
        match Huffman.Walk(Unpack(data[next..next + len]), [], [])
        case Decoded(text) => StringAt(text, next + len)
        case _ => NoString
  }

  datatype One = Header(header: HpackTable.Header, next: nat, table: TableState) | Update(next: nat, table: TableState) | Bad

  /** Sections 6.1 to 6.3: one representation, and the table after it. */
  ghost function ReadOne(e: Eviction, data: seq<byte>, pos: nat, table: TableState): (r: One)
    requires pos < |data|
    ensures !r.Bad? ==> pos < r.next <= |data|
  {
    var b := data[pos];
    if b / 32 == 1 then
      match DecodedInt(data, pos, 5)
      case Undefined => Bad
      case Int(size, next) => Update(next, Updated(e, table, Resize(size)))
    else if b >= 128 then
      match DecodedInt(data, pos, 7)
      case Undefined => Bad
      case Int(index, next) =>
        if index == 0 || HeaderAt(table.queue, index).None? then Bad
        else One.Header(HeaderAt(table.queue, index).value, next, table)
    else
      match DecodedInt(data, pos, if b / 64 == 1 then 6 else 4)
      case Undefined => Bad
      case Int(index, next) =>
        var name := if index == 0 then ReadString(data, next) else NameAt(table.queue, index, next);
        if name.NoString? then Bad
        else
          var value := ReadString(data, name.next);
          if value.NoString? then Bad
          else
            var h := HpackTable.Header(name.text, value.text);
            One.Header(h, value.next, if b / 64 == 1 then Updated(e, table, Insert(h)) else table)
  }

  function NameAt(queue: seq<HpackTable.Header>, index: nat, next: nat): StringAt {
    match HeaderAt(queue, index)
    case Some(h) => StringAt(h.name, next)
    case None => NoString
  }

  datatype Block = Block(headers: seq<HpackTable.Header>, table: TableState) | Malformed

  ghost function ReadBlock(e: Eviction, data: seq<byte>, pos: nat, table: TableState): Block
    requires pos <= |data|
    decreases |data| - pos
  {
    if pos == |data| then Block([], table)
    else
      match ReadOne(e, data, pos, table)
      case Bad => Malformed
      case Update(next, table') => ReadBlock(e, data, next, table')
      case Header(h, next, table') =>
        match ReadBlock(e, data, next, table')
        case Malformed => Malformed
        case Block(hs, last) => Block([h] + hs, last)
  }

  // ----- strings -----

  predicate PlainFits(s: Text) {
    |s| < INT_LIMIT
  }

  /** The guard of `huff_encode` writes a length of exactly 127 as if it fitted the prefix. */
  predicate HuffmanFits(s: Text) {
    |Huffman.Encoded(s)| != 127 && |Huffman.Encoded(s)| < INT_LIMIT
  }

  /** A length, plain or flagged, followed by that many bytes. */
  function Counted(payload: seq<byte>, flags: nat): (r: seq<byte>)
    requires |payload| < UINT_LIMIT && (flags == 0 || flags == HUFFMAN_FLAG)
    ensures |r| > 0
  {
    assert Pow2(7) == 128;
    Flagged(EncodedInt(|payload|, 7), flags) + payload
  }

  lemma CountedReads(before: seq<byte>, payload: seq<byte>, flags: nat, after: seq<byte>)
    requires |payload| < UINT_LIMIT && (flags == 0 || flags == HUFFMAN_FLAG)
    ensures var data, end := before + Counted(payload, flags) + after, |before + Counted(payload, flags)|;
            && DecodedInt(data, |before|, 7) == (if |payload| < INT_LIMIT then Int(|payload|, end - |payload|) else Undefined)
            && data[end - |payload|..end] == payload
            && (data[|before|] >= 128 <==> flags == HUFFMAN_FLAG)
  {
    hide EncodedInt, DecodedInt, AbovePrefix;
    FlagsAbovePrefixes();
    NoFlags();
    assert Pow2(7) == 128;
    var len := Flagged(EncodedInt(|payload|, 7), flags);
    IntegerRoundTrip(before, |payload|, 7, flags, payload + after);
    assert before + Counted(payload, flags) + after == before + len + (payload + after);
  }

  lemma NoFlags()
    ensures AbovePrefix(0, 7)
  {
    assert Pow2(7) == 128;
  }

  lemma PlainStringReads(before: seq<byte>, s: Text, after: seq<byte>)
    requires PlainFits(s)
    ensures ReadString(before + PlainString(s) + after, |before|) == StringAt(s, |before + PlainString(s)|)
  {
    hide EncodedInt, DecodedInt, PlainString, Counted, Huffman.Walk;
    CountedReads(before, s, 0, after);
    PlainIsCounted(s);
  }

  lemma PlainIsCounted(s: Text)
    requires |s| < UINT_LIMIT
    ensures PlainString(s) == Counted(s, 0)
  {
    hide EncodedInt, Pow2;
    var len := EncodedInt(|s|, 7);
    assert [len[0]] + len[1..] == len;
  }

  lemma HuffmanIsCounted(s: Text)
    requires |Huffman.Encoded(s)| != 127 && |Huffman.Encoded(s)| < UINT_LIMIT
    ensures HuffmanString(s) == Counted(Huffman.Encoded(s), HUFFMAN_FLAG)
  {
    hide *;
    HuffmanStringParts([], s);
    LengthIsFlagged(Huffman.Encoded(s));
    assert [] + HuffmanString(s) == HuffmanString(s);
  }

  /** But for a length of 127, it is written as the decoder reads it. */
  lemma LengthIsFlagged(payload: seq<byte>)
    requires |payload| != 127 && |payload| < UINT_LIMIT
    ensures AbovePrefix(HUFFMAN_FLAG, 7)
    ensures var prefix := if |payload| < 128 then [HUFFMAN_FLAG + |payload|]
                          else Flagged(EncodedInt(|payload| % UINT_LIMIT, 7), HUFFMAN_FLAG);
            [] + prefix + payload == Counted(payload, HUFFMAN_FLAG)
  {
    hide Pow2, AbovePrefix;
    FlagsAbovePrefixes();
    SevenBits();
    if |payload| < 127 {
      ShortLength(|payload|);
    }
  }

  lemma ShortLength(n: nat)
    requires n < 127
    ensures EncodedInt(n, 7) == [n]
  {
    assert Pow2(7) == 128;
  }

  /** A coded string, given by what it is decoded to. */
  lemma CodedStringReads(before: seq<byte>, payload: seq<byte>, text: Text, after: seq<byte>)
    requires |payload| < INT_LIMIT && Huffman.Walk(Unpack(payload), [], []) == Huffman.Decoded(text)
    ensures var counted := Counted(payload, HUFFMAN_FLAG);
            ReadString(before + counted + after, |before|) == StringAt(text, |before + counted|)
  {
    hide Counted, Huffman.Walk, DecodedInt, EncodedInt, Unpack, Pow2;
    CountedReads(before, payload, HUFFMAN_FLAG, after);
  }

  lemma HuffmanStringReads(before: seq<byte>, s: Text, after: seq<byte>)
    requires HuffmanFits(s)
    ensures ReadString(before + HuffmanString(s) + after, |before|) == StringAt(s, |before + HuffmanString(s)|)
  {
    hide HuffmanString, Counted, Huffman.Walk, Huffman.Encoded, ReadString, Unpack;
    HuffmanIsCounted(s);
    Huffman.DecodeUndoesEncode(s);
    CodedStringReads(before, Huffman.Encoded(s), s, after);
  }

  /** Wherever it stands, a Huffman-coded string reads back exactly when its coded length is one the encoder prefixes
      rightly and the decoder can sum. */
  lemma HuffmanStringExactly(before: seq<byte>, s: Text, after: seq<byte>)
    requires |Huffman.Encoded(s)| < UINT_LIMIT
    ensures ReadString(before + HuffmanString(s) + after, |before|) == StringAt(s, |before + HuffmanString(s)|) <==> HuffmanFits(s)
  {
    hide HuffmanString, Counted, Huffman.Walk, Huffman.Encoded, DecodedInt;
    if HuffmanFits(s) {
      HuffmanStringReads(before, s, after);
    } else if |Huffman.Encoded(s)| == 127 {
      LengthOf127(before, s, after);
    } else {
      HuffmanIsCounted(s);
      CountedReads(before, Huffman.Encoded(s), HUFFMAN_FLAG, after);
    }
  }

  /** With a coded length of 127 the decoder takes bytes of the string for its length, and bytes behind the string
      for the string. */
  lemma LengthOf127(before: seq<byte>, s: Text, after: seq<byte>)
    requires |Huffman.Encoded(s)| == 127
    ensures var r := ReadString(before + HuffmanString(s) + after, |before|);
            r.StringAt? ==> r.next > |before + HuffmanString(s)|
  {
    hide Huffman.Encoded, Huffman.Walk;
    var data, pos := before + HuffmanString(s) + after, |before|;
    assert Pow2(7) == 128;
    assert HuffmanString(s) == [255] + Huffman.Encoded(s);
    assert data[pos] == 255 && data[pos] % Pow2(7) == 127;
    RestAtLeast(data, pos + 1, 127, 0);
  }

  lemma {:induction false} RestAtLeast(data: seq<byte>, at: nat, i: nat, m: nat)
    requires m < 256
    ensures var r := DecodedRest(data, at, i, m); r.Int? ==> r.value >= i && r.next > at
    decreases |data| - at
  {
    if at < |data| {
      var sum := i + data[at] % 128 * Pow2(m);
      ProductOfNats(data[at] % 128, Pow2(m));
      RestAtLeast(data, at + 1, sum, (m + 7) % 256);
    }
  }

  /** Such strings exist: 203 zeros take 127 bytes. */
  lemma LengthOf127Happens()
    ensures |Huffman.Encoded(seq(203, _ => '0' as int))| == 127
  {
    hide Huffman.EncodedBits;
    ZerosLength(203);
  }

  lemma {:induction false} ZerosLength(n: nat)
    ensures |Huffman.EncodedBits(seq(n, _ => '0' as int))| == 5 * n
  {
    if n > 0 {
      var s: Text := seq(n, _ => '0' as int);
      assert s[..n - 1] == seq(n - 1, _ => '0' as int);
      ZerosLength(n - 1);
    }
  }

  // ----- blocks -----

  /** What keeps a request readable: its lengths and index fit the decoder's integer, no Huffman length
      is 127, and a value whose name is indexed is Huffman coded. */
  predicate Faithful(r: Request, queue: seq<HpackTable.Header>) {
    var h, f := r.header, Found(r.header, queue);
    && STATIC_SIZE + |queue| <= INT_LIMIT
    && if r.neverIndexed then PlainFits(h.name) && PlainFits(h.value)
       else if f.exact then true
       else if f.index != -1 then r.huffman && HuffmanFits(h.value)
       else if r.huffman then HuffmanFits(h.name) && HuffmanFits(h.value)
       else PlainFits(h.name) && PlainFits(h.value)
  }

  predicate FaithfulAll(rs: seq<Request>, queue: seq<HpackTable.Header>, max: nat) {
    rs == [] || (Faithful(rs[0], queue) && FaithfulAll(rs[1..], QueueAfter(rs[0], queue, max), max))
  }

  function HeadersOf(rs: seq<Request>): (hs: seq<HpackTable.Header>)
    ensures |hs| == |rs|
    ensures forall i :: 0 <= i < |rs| ==> hs[i] == rs[i].header
  {
    if rs == [] then [] else [rs[0].header] + HeadersOf(rs[1..])
  }

  lemma IndexReads(before: seq<byte>, index: nat, n: nat, flag: nat, after: seq<byte>)
    requires index < INT_LIMIT && ((n == 7 && flag == INDEXED) || (n == 6 && flag == INCREMENTAL))
    ensures AbovePrefix(flag, n)
    ensures var data := before + IndexBytes(index, n, flag) + after;
            && DecodedInt(data, |before|, n) == Int(index, |before + IndexBytes(index, n, flag)|)
            && flag <= data[|before|] < 2 * flag
  {
    hide EncodedInt, DecodedInt, AbovePrefix;
    FlagsAbovePrefixes();
    assert Pow2(7) == 128 && Pow2(6) == 64;
    IntegerRoundTrip(before, index, n, flag, after);
  }

  /** A pattern byte alone holds index 0. */
  lemma PatternReads(data: seq<byte>, pos: nat, pattern: byte)
    requires pos < |data| && data[pos] == pattern && (pattern == INCREMENTAL || pattern == NEVER_INDEXED)
    ensures DecodedInt(data, pos, if pattern / 64 == 1 then 6 else 4) == Int(0, pos + 1)
  {
    assert Pow2(6) == 64 && Pow2(4) == 16;
  }

  /** A literal whose name follows: the first byte holds only the pattern. */
  lemma LiteralReads(e: Eviction, before: seq<byte>, pattern: byte, name: seq<byte>, value: seq<byte>, h: HpackTable.Header,
                     after: seq<byte>, table: TableState)
    requires pattern == INCREMENTAL || pattern == NEVER_INDEXED
    requires |name| > 0 && |value| > 0
    requires forall b, a :: ReadString(b + name + a, |b|) == StringAt(h.name, |b + name|)
    requires forall b, a :: ReadString(b + value + a, |b|) == StringAt(h.value, |b + value|)
    ensures var bytes := [pattern] + name + value;
            ReadOne(e, before + bytes + after, |before|, table)
            == One.Header(h, |before + bytes|, if pattern == INCREMENTAL then Updated(e, table, Insert(h)) else table)
  {
    hide ReadString, DecodedInt, Updated;
    var bytes := [pattern] + name + value;
    var data, front := before + bytes + after, before + [pattern];
    assert data == front + name + (value + after);
    assert data == (front + name) + value + after;
    assert |(front + name) + value| == |before + bytes|;
    PatternReads(data, |before|, pattern);
  }

  /** A literal with an indexed name, whose value is `value`; a name that is not in the table is an error. */
  lemma IndexedNameReads(e: Eviction, before: seq<byte>, index: nat, value: seq<byte>, h: HpackTable.Header, after: seq<byte>,
                         table: TableState)
    requires 1 <= index < INT_LIMIT
    requires forall b, a :: ReadString(b + value + a, |b|) == StringAt(h.value, |b + value|)
    ensures AbovePrefix(INCREMENTAL, 6)
    ensures var bytes, one := IndexBytes(index, 6, INCREMENTAL) + value,
                              ReadOne(e, before + (IndexBytes(index, 6, INCREMENTAL) + value) + after, |before|, table);
            && (NameAt(table.queue, index, 0) == StringAt(h.name, 0) ==> one == One.Header(h, |before + bytes|, Updated(e, table, Insert(h))))
            && (NameAt(table.queue, index, 0).NoString? ==> one == Bad)
  {
    hide ReadString, EncodedInt, DecodedInt, StaticAt, Updated;
    FlagsAbovePrefixes();
    var index' := IndexBytes(index, 6, INCREMENTAL);
    var bytes := index' + value;
    IndexReads(before, index, 6, INCREMENTAL, value + after);
    var data := before + bytes + after;
    assert data == before + index' + (value + after);
    assert data == (before + index') + value + after;
    assert |(before + index') + value| == |before + bytes|;
  }

  /** The decoder's table is the beginning of the encoder's, and the whole of it under the same eviction. */
  predicate Follows(e: Eviction, table: TableState, queue: seq<HpackTable.Header>, max: nat) {
    table.max == max && table.queue <= queue && (e == OfSource ==> table.queue == queue)
  }

  /** The entry that the encoder gives the index of is in a table of `size` entries. */
  predicate InReach(r: Request, queue: seq<HpackTable.Header>, size: nat) {
    r.neverIndexed || Found(r.header, queue).index < STATIC_SIZE + size
  }

  /** The decoder's table after a request. */
  function TableAfter(e: Eviction, r: Request, queue: seq<HpackTable.Header>, table: TableState): TableState {
    if r.neverIndexed || Found(r.header, queue).exact then table else Updated(e, table, Insert(r.header))
  }

  lemma StillFollows(e: Eviction, r: Request, queue: seq<HpackTable.Header>, max: nat, table: TableState)
    requires Follows(e, table, queue, max)
    ensures Follows(e, TableAfter(e, r, queue, table), QueueAfter(r, queue, max), max)
  {
    hide Found, Added, StandardAdded;
    AddedIsPrefix(table.queue, queue, max, r.header);
  }

  lemma SameEntries(index: nat, some: seq<HpackTable.Header>, queue: seq<HpackTable.Header>)
    requires some <= queue
    ensures index < STATIC_SIZE + |some| ==> HeaderAt(some, index) == HeaderAt(queue, index)
    ensures index >= STATIC_SIZE + |some| ==> HeaderAt(some, index).None?
  {
  }

  lemma StringsRead(s: Text)
    ensures PlainFits(s) ==> forall b, a :: ReadString(b + PlainString(s) + a, |b|) == StringAt(s, |b + PlainString(s)|)
    ensures HuffmanFits(s) ==> forall b, a :: ReadString(b + HuffmanString(s) + a, |b|) == StringAt(s, |b + HuffmanString(s)|)
  {
    hide ReadString, HuffmanString, PlainString, HuffmanFits, PlainFits;
    forall b, a | PlainFits(s) ensures ReadString(b + PlainString(s) + a, |b|) == StringAt(s, |b + PlainString(s)|) {
      PlainStringReads(b, s, a);
    }
    forall b, a | HuffmanFits(s) ensures ReadString(b + HuffmanString(s) + a, |b|) == StringAt(s, |b + HuffmanString(s)|) {
      HuffmanStringReads(b, s, a);
    }
  }

  /** One request is read back, unless the entry it points to is missing from the decoder's table. */
  lemma WrittenReads(e: Eviction, before: seq<byte>, r: Request, queue: seq<HpackTable.Header>, after: seq<byte>, table: TableState)
    requires Faithful(r, queue) && table.queue <= queue
    ensures var one := ReadOne(e, before + Written(r, queue) + after, |before|, table);
            one == if InReach(r, queue, |table.queue|)
                   then One.Header(r.header, |before + Written(r, queue)|, TableAfter(e, r, queue, table)) else Bad
  {
    hide ReadString, EncodedInt, DecodedInt, StaticAt, Found, HuffmanString, PlainString, HuffmanFits, IndexBytes, Updated;
    var h, f := r.header, Found(r.header, queue);
    FoundLeadsBack(h, queue);
    StringsRead(h.name);
    StringsRead(h.value);
    if f.index >= 0 {
      SameEntries(f.index, table.queue, queue);
    }
    if r.neverIndexed {
      LiteralReads(e, before, NEVER_INDEXED, PlainString(h.name), PlainString(h.value), h, after, table);
    } else if f.exact {
      IndexReads(before, f.index, 7, INDEXED, after);
    } else if f.index != -1 {
      IndexedNameReads(e, before, f.index, HuffmanString(h.value), h, after, table);
    } else if r.huffman {
      LiteralReads(e, before, INCREMENTAL, HuffmanString(h.name), HuffmanString(h.value), h, after, table);
    } else {
      LiteralReads(e, before, INCREMENTAL, PlainString(h.name), PlainString(h.value), h, after, table);
    }
  }

  predicate InReachAll(e: Eviction, rs: seq<Request>, queue: seq<HpackTable.Header>, max: nat, table: TableState) {
    rs == []
    || (InReach(rs[0], queue, |table.queue|)
        && InReachAll(e, rs[1..], QueueAfter(rs[0], queue, max), max, TableAfter(e, rs[0], queue, table)))
  }

  function TableAfterAll(e: Eviction, rs: seq<Request>, queue: seq<HpackTable.Header>, max: nat, table: TableState): TableState {
    if rs == [] then table
    else TableAfterAll(e, rs[1..], QueueAfter(rs[0], queue, max), max, TableAfter(e, rs[0], queue, table))
  }

  /** A block reads back to exactly the headers it was made from, or not at all. */
  lemma {:induction false} BlockReads(e: Eviction, before: seq<byte>, rs: seq<Request>, queue: seq<HpackTable.Header>, max: nat,
                                      table: TableState)
    requires FaithfulAll(rs, queue, max) && Follows(e, table, queue, max)
    ensures ReadBlock(e, before + WrittenAll(rs, queue, max), |before|, table)
            == if InReachAll(e, rs, queue, max, table) then Block(HeadersOf(rs), TableAfterAll(e, rs, queue, max, table)) else Malformed
    decreases |rs|
  {
    hide ReadOne, Written, QueueAfter, Faithful, TableAfter, InReach, Updated;
    if rs != [] {
      var first, queue' := Written(rs[0], queue), QueueAfter(rs[0], queue, max);
      var rest := WrittenAll(rs[1..], queue', max);
      assert before + WrittenAll(rs, queue, max) == before + first + rest;
      WrittenReads(e, before, rs[0], queue, rest, table);
      StillFollows(e, rs[0], queue, max, table);
      BlockReads(e, before + first, rs[1..], queue', max, TableAfter(e, rs[0], queue, table));
    }
  }

  /** Losslessness: a decoder with the same eviction recovers the headers of every block, and has the encoder's table. */
  lemma Lossless(rs: seq<Request>, max: nat)
    requires FaithfulAll(rs, [], max)
    ensures ReadBlock(OfSource, WrittenAll(rs, [], max), 0, TableState(max, []))
            == Block(HeadersOf(rs), TableState(max, QueueAfterAll(rs, [], max)))
  {
    BlockReads(OfSource, [], rs, [], max, TableState(max, []));
    assert [] + WrittenAll(rs, [], max) == WrittenAll(rs, [], max);
    AlwaysInReach(rs, [], max);
  }

  lemma {:induction false} AlwaysInReach(rs: seq<Request>, queue: seq<HpackTable.Header>, max: nat)
    ensures InReachAll(OfSource, rs, queue, max, TableState(max, queue))
    ensures TableAfterAll(OfSource, rs, queue, max, TableState(max, queue)) == TableState(max, QueueAfterAll(rs, queue, max))
  {
    hide Found, Added;
    if rs != [] {
      AlwaysInReach(rs[1..], QueueAfter(rs[0], queue, max), max);
    }
  }

  /** A decoder that evicts as the standard says recovers the block if and only if the encoder never gives the index
      of an entry that the standard's table, always the beginning of the encoder's, has evicted; else it stops. */
  lemma LosslessByStandard(rs: seq<Request>, max: nat)
    requires FaithfulAll(rs, [], max)
    ensures var read := ReadBlock(OfStandard, WrittenAll(rs, [], max), 0, TableState(max, []));
            && (InReachAll(OfStandard, rs, [], max, TableState(max, [])) <==> read.Block? && read.headers == HeadersOf(rs))
            && (read.Block? ==> read.table.queue <= QueueAfterAll(rs, [], max))
            && (read.Malformed? <==> !InReachAll(OfStandard, rs, [], max, TableState(max, [])))
  {
    BlockReads(OfStandard, [], rs, [], max, TableState(max, []));
    assert [] + WrittenAll(rs, [], max) == WrittenAll(rs, [], max);
    TableStaysPrefix(rs, [], max, TableState(max, []));
  }

  lemma {:induction false} TableStaysPrefix(rs: seq<Request>, queue: seq<HpackTable.Header>, max: nat, table: TableState)
    requires Follows(OfStandard, table, queue, max)
    ensures Follows(OfStandard, TableAfterAll(OfStandard, rs, queue, max, table), QueueAfterAll(rs, queue, max), max)
  {
    hide QueueAfter, TableAfter;
    if rs != [] {
      StillFollows(OfStandard, rs[0], queue, max, table);
      TableStaysPrefix(rs[1..], QueueAfter(rs[0], queue, max), max, TableAfter(OfStandard, rs[0], queue, table));
    }
  }

  /** That is so whenever all headers of the block together fit the standard's table. */
  lemma {:induction false} SmallBlocksAreInReach(rs: seq<Request>, queue: seq<HpackTable.Header>, max: nat)
    requires StandardSize(queue) + StandardSize(HeadersOf(rs)) <= max
    ensures InReachAll(OfStandard, rs, queue, max, TableState(max, queue))
  {
    hide Found;
    if rs != [] {
      var h := rs[0].header;
      assert HeadersOf(rs)[1..] == HeadersOf(rs[1..]);
      StandardIsLarger(queue);
      assert ([h] + queue)[1..] == queue;
      SmallBlocksAreInReach(rs[1..], QueueAfter(rs[0], queue, max), max);
    }
  }

  /** It is not always so: in a table of 40 octets the source keeps two headers of two octets, the standard one. */
  lemma OutOfReachHappens()
    ensures var a, b := Request(HpackTable.Header([97], [98]), false, false), Request(HpackTable.Header([99], [100]), false, false);
            && FaithfulAll([a, b, a], [], 40)
            && ReadBlock(OfStandard, WrittenAll([a, b, a], [], 40), 0, TableState(40, [])) == Malformed
  {
    hide StaticAt, Found, FoundStatic, Written, ReadOne;
    var h, g := HpackTable.Header([97], [98]), HpackTable.Header([99], [100]);
    var a, b := Request(h, false, false), Request(g, false, false);
    NotStatic(h, []);
    NotStatic(g, [h]);
    NotStatic(h, [g, h]);
    assert FirstNamed([g, h], [97]) == 1 + FirstNamed([h], [97]);
    assert FirstNamed([h], [99]) == 1;
    var t0 := TableState(40, []);
    assert [a, b, a][1..] == [b, a] && [b, a][1..] == [a] && [a][1..] == [];
    assert QueueAfter(a, [], 40) == [h] && QueueAfter(b, [h], 40) == [g, h] by {
      assert TableSize([h]) == 2;
    }
    var t1 := TableAfter(OfStandard, a, [], t0);
    assert t1.queue == [h] by {
      assert StandardSize([]) == 0;
    }
    var t2 := TableAfter(OfStandard, b, [h], t1);
    assert t2.queue == [g] by {
      assert StandardSize([h]) == 34 && [h][..0] == [];
    }
    assert !InReach(a, [g, h], 1);
    assert FaithfulAll([a], [g, h], 40);
    assert FaithfulAll([b, a], [h], 40);
    assert FaithfulAll([a, b, a], [], 40);
    assert !InReachAll(OfStandard, [a], [g, h], 40, t2);
    assert !InReachAll(OfStandard, [b, a], [h], 40, t1);
    LosslessByStandard([a, b, a], 40);
  }

  /** Names of one letter are not in the static table. */
  lemma NotStatic(h: HpackTable.Header, queue: seq<HpackTable.Header>)
    requires |h.name| == 1
    ensures var k := FirstNamed(queue, h.name);
            Found(h, queue) == if k < |queue| then Lookup(queue[k].value == h.value, STATIC_SIZE + k) else Lookup(false, -1)
  {
    hide StaticAt;
    var s := FoundStatic(h, 1, -1);
    if s.index != -1 {
      StaticNamesAreLong(s.index);
    }
  }

  lemma StaticNamesAreLong(i: nat)
    requires i < STATIC_SIZE
    ensures |StaticAt(i).name| > 1
  {
    hide Ascii;
  }

  /** The branch that writes a value without its length. */
  predicate DropsLength(r: Request, queue: seq<HpackTable.Header>) {
    !r.neverIndexed && !r.huffman && !Found(r.header, queue).exact && Found(r.header, queue).index != -1
  }

  /** What such a request writes, and what becomes of its first bytes. */
  lemma DroppedLength(e: Eviction, before: seq<byte>, r: Request, queue: seq<HpackTable.Header>, after: seq<byte>, table: TableState)
    returns (front: seq<byte>)
    requires DropsLength(r, queue) && STATIC_SIZE + |queue| <= INT_LIMIT
    ensures before + Written(r, queue) + after == front + r.header.value + after
    ensures var data, index := before + Written(r, queue) + after, Found(r.header, queue).index;
            var one, value, name := ReadOne(e, data, |before|, table), ReadString(data, |front|), NameAt(table.queue, index, 0);
            && (one.Header? <==> name.StringAt? && value.StringAt?)
            && (one.Header? ==> one.header == HpackTable.Header(name.text, value.text) && one.next == value.next)
            && !one.Update?
  {
    hide EncodedInt, DecodedInt, StaticAt, Found, ReadString, Updated;
    var index := Found(r.header, queue).index;
    FlagsAbovePrefixes();
    var bytes := IndexBytes(index, 6, INCREMENTAL);
    IndexReads(before, index, 6, INCREMENTAL, r.header.value + after);
    front := before + bytes;
    assert before + Written(r, queue) + after == before + bytes + (r.header.value + after) == front + r.header.value + after;
  }

  /** The branch that drops the length never gives its header back and ends where the request ends, for no bytes
      are a string that spells them. */
  lemma IndexedNameWithoutHuffman(e: Eviction, before: seq<byte>, r: Request, queue: seq<HpackTable.Header>, after: seq<byte>,
                                  table: TableState)
    requires DropsLength(r, queue) && STATIC_SIZE + |queue| <= INT_LIMIT
    ensures var one := ReadOne(e, before + Written(r, queue) + after, |before|, table);
            && !one.Update?
            && (one.Header? ==> one.header.value != r.header.value || one.next > |before + Written(r, queue)|)
  {
    hide Found, ReadOne, ReadString, NameAt, Written;
    var front := DroppedLength(e, before, r, queue, after, table);
    NothingSpellsItself(front, r.header.value, after);
  }

  /** So a block that ends with such a request does not give it back at all. */
  lemma DroppedLengthAtTheEnd(e: Eviction, r: Request, queue: seq<HpackTable.Header>, table: TableState)
    requires DropsLength(r, queue) && STATIC_SIZE + |queue| <= INT_LIMIT
    ensures var block := ReadBlock(e, Written(r, queue), 0, table); block.Block? ==> block.headers != [r.header]
  {
    hide Found, ReadOne, Written;
    IndexedNameWithoutHuffman(e, [], r, queue, [], table);
    assert [] + Written(r, queue) + [] == Written(r, queue);
    var one := ReadOne(e, Written(r, queue), 0, table);
    var block := ReadBlock(e, Written(r, queue), 0, table);
    assert block.Block? ==> block.headers[0] == one.header;
  }

  /** What a string read from the first byte of `value` on says is not `value`, unless it goes on behind it: inside,
      plain text is shorter by its length, and coded text has fewer bytes of 128 and above. */
  lemma NothingSpellsItself(before: seq<byte>, value: seq<byte>, after: seq<byte>)
    ensures var r := ReadString(before + value + after, |before|);
            r.StringAt? ==> r.text != value || r.next > |before + value|
  {
    hide DecodedInt, Huffman.Walk, Unpack, High;
    var data, pos := before + value + after, |before|;
    var r := ReadString(data, pos);
    if r.StringAt? && r.next <= |before + value| {
      var next := DecodedInt(data, pos, 7).next;
      Inside(before, value, after, next - pos, r.next - pos);
      if data[pos] >= 128 {
        DecodedHigh(data[next..r.next]);
        HighInside(value, next - pos, r.next - pos);
      }
    }
  }

  lemma Inside(before: seq<byte>, value: seq<byte>, after: seq<byte>, i: nat, j: nat)
    requires i <= j <= |value|
    ensures (before + value + after)[|before| + i..|before| + j] == value[i..j]
  {
    assert before + value + after == before + value[..i] + value[i..j] + (value[j..] + after);
  }

  lemma HighInside(value: seq<byte>, i: nat, j: nat)
    requires 0 < i <= j <= |value| && value[0] >= 128
    ensures High(value[i..j]) < High(value)
  {
    assert value == value[..i] + value[i..j] + value[j..];
    HighConcat(value[..i] + value[i..j], value[j..]);
    HighConcat(value[..i], value[i..j]);
  }

  /** The value is `n` times the byte `n`, and one more follows. */
  predicate CountsItself(value: seq<byte>, after: seq<byte>) {
    after != [] && after[0] == |value| && forall k :: 0 <= k < |value| ==> value[k] == |value|
  }

  /** With a first byte that is a whole plain length, the value is read exactly if it counts itself. */
  lemma ReadByChance(before: seq<byte>, value: seq<byte>, after: seq<byte>)
    requires value != [] && value[0] < 127
    ensures var r := ReadString(before + value + after, |before|);
            && (r.StringAt? && r.text == value <==> CountsItself(value, after))
            && (CountsItself(value, after) ==> r.next == |before + value| + 1)
  {
    hide ReadString;
    var data, pos, n := before + value + after, |before|, |value|;
    assert data[pos] == value[0];
    ShortPlainReads(data, pos);
    if after != [] {
      ShiftedByOne(before, value, after);
      SameNeighbours(value, after[0]);
    }
  }

  lemma ShortPlainReads(data: seq<byte>, pos: nat)
    requires pos < |data| && data[pos] < 127
    ensures var next := pos + 1 + data[pos];
            ReadString(data, pos) == if next <= |data| then StringAt(data[pos + 1..next], next) else NoString
  {
    SevenBits();
  }

  lemma ShiftedByOne(before: seq<byte>, value: seq<byte>, after: seq<byte>)
    requires value != [] && after != []
    ensures (before + value + after)[|before| + 1..|before| + 1 + |value|] == value[1..] + [after[0]]
  {
    assert before + value + after == before + value[..1] + (value[1..] + [after[0]]) + after[1..];
  }

  /** Only a repeated element is the same one place on. */
  lemma {:induction false} SameNeighbours(value: seq<byte>, last: byte)
    requires value != []
    ensures value == value[1..] + [last] <==> forall k :: 0 <= k < |value| ==> value[k] == last
  {
    if |value| > 1 {
      SameNeighbours(value[1..], last);
      var one := value[1..] + [last];
      assert one[1..] == value[1..][1..] + [last];
      assert value == one ==> value[1..] == one[1..];
      assert value[0] == value[1] && value[1..] == one[1..] ==> value == one;
      assert forall k :: 0 < k < |value| ==> value[k] == value[1..][k - 1];
    }
  }

  /** Then the header is read by chance, though not its end. */
  lemma HeaderByChance(e: Eviction, before: seq<byte>, r: Request, queue: seq<HpackTable.Header>, after: seq<byte>, table: TableState)
    requires DropsLength(r, queue) && STATIC_SIZE + |queue| <= INT_LIMIT && table.queue <= queue && InReach(r, queue, |table.queue|)
    requires r.header.value != [] && r.header.value[0] < 127
    ensures var one := ReadOne(e, before + Written(r, queue) + after, |before|, table);
            && (one.Header? && one.header == r.header <==> CountsItself(r.header.value, after))
            && (CountsItself(r.header.value, after) ==> one.next == |before + Written(r, queue)| + 1)
  {
    hide Found, ReadOne, ReadString, Written, StaticAt;
    FoundLeadsBack(r.header, queue);
    SameEntries(Found(r.header, queue).index, table.queue, queue);
    var front := DroppedLength(e, before, r, queue, after, table);
    ReadByChance(front, r.header.value, after);
  }

  /** It happens: an authority of sixteen bytes 16, in front of a request that is never indexed. */
  lemma ReadByChanceHappens(e: Eviction, max: nat, after: seq<byte>)
    ensures var h := HpackTable.Header(Ascii(":authority"), seq(16, _ => 16));
            var one := ReadOne(e, Written(Request(h, false, false), []) + ([NEVER_INDEXED] + after), 0, TableState(max, []));
            one.Header? && one.header == h && one.next == |Written(Request(h, false, false), [])| + 1
  {
    hide Found, ReadOne, Written;
    var h := HpackTable.Header(Ascii(":authority"), seq(16, _ => 16));
    AuthorityIsFirst(h);
    var r := Request(h, false, false);
    HeaderByChance(e, [], r, [], [NEVER_INDEXED] + after, TableState(max, []));
    assert [] + Written(r, []) + ([NEVER_INDEXED] + after) == Written(r, []) + ([NEVER_INDEXED] + after);
    assert [] + Written(r, []) == Written(r, []);
  }

  lemma AuthorityIsFirst(h: HpackTable.Header)
    requires h.name == Ascii(":authority") && h.value != []
    ensures Found(h, []) == Lookup(false, 1)
  {
    hide StaticAt, FoundStatic, Ascii;
    FoundStaticIs(h, 1, -1);
    FirstStatic();
    var s := FoundStatic(h, 1, -1);
    if s.index > 1 {
      OnlyAuthority(s.index);
    }
  }

  lemma FirstStatic()
    ensures StaticAt(1) == HpackTable.Header(Ascii(":authority"), [])
  {
    assert Ascii("") == [];
  }

  lemma OnlyAuthority(i: nat)
    requires 1 < i < STATIC_SIZE
    ensures StaticAt(i).name != Ascii(":authority")
  {
    assert Ascii(":authority")[0] == 58 && Ascii(":authority")[1] == 97;
  }
}
