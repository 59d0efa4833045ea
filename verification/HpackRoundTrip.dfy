/** What the repository's own decoder makes of the repository's own encoder's blocks. */
module HpackRoundTrip {
  import opened Bits
  import opened HpackInteger
  import opened HpackTable
  import opened HpackEncoder
  import opened HpackDecoder
  import Ref = HpackReference
  import Huffman = HuffmanCoder
  import HuffmanCode

  // ----- one request -----

  /** The headers the decoder notes for a request: it does not know the dynamic indices. */
  function Seen(r: Request, queue: seq<Header>): seq<Header> {
    var h, f := r.header, Found(r.header, queue);
    if r.neverIndexed || f.index < STATIC_SIZE then [h]
    else if f.exact then []
    else [Header([], h.value)]
  }

  /** The request is written with an empty value string at its very end. */
  predicate EndsEmpty(r: Request, queue: seq<Header>) {
    r.header.value == [] && (r.neverIndexed || !Found(r.header, queue).exact)
  }

  function NotedAll(headers: HeaderMap, hs: seq<Header>): HeaderMap
    decreases |hs|
  {
    if hs == [] then headers else NotedAll(Noted(headers, hs[0].name, hs[0].value), hs[1..])
  }

  /** The decoder reads strings as the reference does, but throws where an empty one ends the data. */
  lemma StringsAgree(data: seq<byte>, pos: nat)
    requires pos < |data| && Ref.ReadString(data, pos).StringAt?
    ensures var s := Ref.ReadString(data, pos);
            ReadString(data, pos) == if DecodedInt(data, pos, 7).next >= |data| then Throws else Read(s.text, s.next)
  {
  }

  lemma PlainReads(before: seq<byte>, s: Text, after: seq<byte>)
    requires Ref.PlainFits(s)
    ensures ReadString(before + PlainString(s) + after, |before|)
            == if s == [] && after == [] then Throws else Read(s, |before + PlainString(s)|)
  {
    hide EncodedInt, DecodedInt, Huffman.Walk;
    Ref.PlainStringReads(before, s, after);
    Ref.CountedReads(before, s, 0, after);
    assert PlainString(s) == Ref.Counted(s, 0);
    StringsAgree(before + PlainString(s) + after, |before|);
  }

  lemma HuffmanReads(before: seq<byte>, s: Text, after: seq<byte>)
    requires Ref.HuffmanFits(s)
    ensures ReadString(before + HuffmanString(s) + after, |before|)
            == if s == [] && after == [] then Throws else Read(s, |before + HuffmanString(s)|)
  {
    hide EncodedInt, DecodedInt, Huffman.Walk, Huffman.Encoded, Ref.Counted, HuffmanString;
    Ref.HuffmanStringReads(before, s, after);
    Ref.HuffmanIsCounted(s);
    Ref.CountedReads(before, Huffman.Encoded(s), HUFFMAN_FLAG, after);
    EmptyOnlyForEmpty(s);
    StringsAgree(before + HuffmanString(s) + after, |before|);
  }

  lemma EmptyOnlyForEmpty(s: Text)
    ensures Huffman.Encoded(s) == [] <==> s == []
  {
    hide HuffmanCode.Word;
    if s != [] {
      var _ := HuffmanCode.WordRange(s[|s| - 1]);
      assert |Huffman.EncodedBits(s)| > 0;
      assert |Unpack(Huffman.Encoded(s))| > 0;
    } else {
      assert Unpack([]) == [] == Huffman.Padded([]);
      UnpackInjective(Huffman.Encoded(s), []);
    }
  }

  /** One round of the decoder over one request's bytes. */
  lemma RequestSeen(before: seq<byte>, r: Request, queue: seq<Header>, after: seq<byte>, s: DecoderState)
    requires Ref.Faithful(r, queue) && s.table.queue == []
    ensures Step(before + Written(r, queue) + after, |before|, s)
            == if EndsEmpty(r, queue) && after == [] then Stop(Thrown)
               else Next(|before + Written(r, queue)|, s.(headers := NotedAll(s.headers, Seen(r, queue))))
  {
    hide ReadString, EncodedInt, DecodedInt, StaticAt, Found, HuffmanString, PlainString, Ref.HuffmanFits, IndexBytes;
    var h, f := r.header, Found(r.header, queue);
    FoundLeadsBack(h, queue);
    StringsRead(h.name);
    StringsRead(h.value);
    SameStatic(queue, f.index);
    if r.neverIndexed {
      LiteralSeen(before, NEVER_INDEXED, PlainString(h.name), PlainString(h.value), h, after, s);
    } else if f.exact {
      Ref.IndexReads(before, f.index, 7, INDEXED, after);
    } else if f.index != -1 {
      IndexedNameSeen(before, f.index, HuffmanString(h.value), h.value, after, s);
    } else if r.huffman {
      LiteralSeen(before, INCREMENTAL, HuffmanString(h.name), HuffmanString(h.value), h, after, s);
    } else {
      LiteralSeen(before, INCREMENTAL, PlainString(h.name), PlainString(h.value), h, after, s);
    }
  }

  /** `bytes` reads as `text`, except that an empty text at the end of the data throws. */
  ghost predicate ReadsAs(bytes: seq<byte>, text: Text) {
    && bytes != []
    && forall b: seq<byte>, a: seq<byte> ::
      ReadString(b + bytes + a, |b|) == if text == [] && a == [] then Throws else Read(text, |b + bytes|)
  }

  lemma StringsRead(s: Text)
    ensures Ref.PlainFits(s) ==> ReadsAs(PlainString(s), s)
    ensures Ref.HuffmanFits(s) ==> ReadsAs(HuffmanString(s), s)
  {
    hide ReadString, HuffmanString, PlainString, Ref.HuffmanFits, Ref.PlainFits;
    var plain, coded := PlainString(s), HuffmanString(s);
    forall b: seq<byte>, a: seq<byte> | Ref.PlainFits(s)
      ensures ReadString(b + plain + a, |b|) == if s == [] && a == [] then Throws else Read(s, |b + plain|)
    {
      PlainReads(b, s, a);
    }
    forall b: seq<byte>, a: seq<byte> | Ref.HuffmanFits(s)
      ensures ReadString(b + coded + a, |b|) == if s == [] && a == [] then Throws else Read(s, |b + coded|)
    {
      HuffmanReads(b, s, a);
    }
  }

  lemma SameStatic(queue: seq<Header>, index: int)
    ensures 0 <= index < STATIC_SIZE ==> HeaderAt([], index) == HeaderAt(queue, index)
    ensures index >= STATIC_SIZE ==> HeaderAt([], index).None?
  {
  }

  lemma LiteralSeen(before: seq<byte>, pattern: byte, name: seq<byte>, value: seq<byte>, h: Header, after: seq<byte>, s: DecoderState)
    requires pattern == INCREMENTAL || pattern == NEVER_INDEXED
    requires name != [] && value != [] && ReadsAs(name, h.name) && ReadsAs(value, h.value)
    ensures var bytes := [pattern] + name + value;
            Step(before + bytes + after, |before|, s)
            == if h.value == [] && after == [] then Stop(Thrown)
               else Next(|before + bytes|, s.(headers := Noted(s.headers, h.name, h.value)))
  {
    hide ReadString, DecodedInt, Noted;
    var bytes := [pattern] + name + value;
    var data, front := before + bytes + after, before + [pattern];
    assert data == front + name + (value + after);
    assert data == (front + name) + value + after;
    assert |(front + name) + value| == |before + bytes|;
    Ref.PatternReads(data, |before|, pattern);
  }

  lemma IndexedNameSeen(before: seq<byte>, index: nat, value: seq<byte>, text: Text, after: seq<byte>, s: DecoderState)
    requires 1 <= index < INT_LIMIT && s.table.queue == []
    requires value != [] && ReadsAs(value, text)
    ensures AbovePrefix(INCREMENTAL, 6)
    ensures var bytes := IndexBytes(index, 6, INCREMENTAL) + value;
            Step(before + bytes + after, |before|, s)
            == if text == [] && after == [] then Stop(Thrown)
               else Next(|before + bytes|, s.(headers := Noted(s.headers, NameOrEmpty(index), text)))
  {
    hide ReadString, EncodedInt, DecodedInt, StaticAt;
    FlagsAbovePrefixes();
    var index' := IndexBytes(index, 6, INCREMENTAL);
    var bytes := index' + value;
    Ref.IndexReads(before, index, 6, INCREMENTAL, value + after);
    var data := before + bytes + after;
    assert data == before + index' + (value + after);
    assert data == (before + index') + value + after;
    assert |(before + index') + value| == |before + bytes|;
  }

  function NameOrEmpty(index: nat): Text {
    match HeaderAt([], index)
    case Some(h) => h.name
    case None => []
  }

  // ----- a block -----

  /** What a run over a whole block ends with, and the headers it notes, from round `loop` on. */
  function Expected(rs: seq<Request>, queue: seq<Header>, max: nat, loop: nat): (Outcome, seq<Header>)
    decreases |rs|
  {
    if rs == [] || loop >= MAX_LOOPS then (Returned(true), [])
    else if |rs| == 1 && EndsEmpty(rs[0], queue) then (Thrown, [])
    else
      var (outcome, hs) := Expected(rs[1..], QueueAfter(rs[0], queue, max), max, loop + 1);
      (outcome, Seen(rs[0], queue) + hs)
  }

  lemma {:induction false} BlockSeen(before: seq<byte>, rs: seq<Request>, queue: seq<Header>, max: nat, loop: nat, s: DecoderState)
    requires Ref.FaithfulAll(rs, queue, max) && s.table.queue == []
    ensures var (outcome, hs) := Expected(rs, queue, max, loop);
            Run(before + WrittenAll(rs, queue, max), |before|, loop, s)
            == (outcome, s.(headers := NotedAll(s.headers, hs)))
    decreases |rs|
  {
    hide Step, Written, QueueAfter, Ref.Faithful, Seen, EndsEmpty;
    if rs == [] {
      assert before + WrittenAll(rs, queue, max) == before;
    } else if loop < MAX_LOOPS {
      var first, queue' := Written(rs[0], queue), QueueAfter(rs[0], queue, max);
      var rest := WrittenAll(rs[1..], queue', max);
      assert before + WrittenAll(rs, queue, max) == before + first + rest;
      RequestSeen(before, rs[0], queue, rest, s);
      RestEmpty(rs[1..], queue', max);
      var s' := s.(headers := NotedAll(s.headers, Seen(rs[0], queue)));
      BlockSeen(before + first, rs[1..], queue', max, loop + 1, s');
      NotedConcat(s.headers, Seen(rs[0], queue), Expected(rs[1..], queue', max, loop + 1).1);
    }
  }

  lemma RestEmpty(rs: seq<Request>, queue: seq<Header>, max: nat)
    ensures WrittenAll(rs, queue, max) == [] <==> rs == []
  {
  }

  lemma {:induction false} NotedConcat(headers: HeaderMap, a: seq<Header>, b: seq<Header>)
    ensures NotedAll(headers, a + b) == NotedAll(NotedAll(headers, a), b)
    decreases |a|
  {
    if a == [] {
      assert a + b == b;
    } else {
      assert (a + b)[1..] == a[1..] + b;
      NotedConcat(Noted(headers, a[0].name, a[0].value), a[1..], b);
    }
  }

  // ----- when the decoder returns the headers that went in -----

  /** The headers grouped by name, each group in order. */
  function Grouped(hs: seq<Header>): HeaderMap {
    NotedAll(map[], hs)
  }

  /** How many of `hs` have this name. */
  function Named(hs: seq<Header>, name: Text): nat {
    if hs == [] then 0 else Named(hs[1..], name) + if hs[0].name == name then 1 else 0
  }

  function GroupSize(headers: HeaderMap, name: Text): nat {
    if name in headers then |headers[name]| else 0
  }

  lemma {:induction false} GroupSizes(headers: HeaderMap, hs: seq<Header>, name: Text)
    ensures GroupSize(NotedAll(headers, hs), name) == GroupSize(headers, name) + Named(hs, name)
    decreases |hs|
  {
    if hs != [] {
      GroupSizes(Noted(headers, hs[0].name, hs[0].value), hs[1..], name);
    }
  }

  /** The decoder notes this request's header as it is: it is never indexed, or uses a static index or
      none, or only its name is indexed and that name is empty, which is what an unknown index gives. */
  predicate Kept(r: Request, queue: seq<Header>) {
    var f := Found(r.header, queue);
    r.neverIndexed || f.index < STATIC_SIZE || (!f.exact && r.header.name == [])
  }

  /** Every request is kept, within the decoder's rounds, and no empty string ends the block. */
  predicate AllKept(rs: seq<Request>, queue: seq<Header>, max: nat, loop: nat)
    decreases |rs|
  {
    rs == []
    || (&& loop < MAX_LOOPS && Kept(rs[0], queue)
        && (|rs| == 1 ==> !EndsEmpty(rs[0], queue))
        && AllKept(rs[1..], QueueAfter(rs[0], queue, max), max, loop + 1))
  }

  /** The decoder gives up after 100 rounds. */
  lemma {:induction false} KeptAreFew(rs: seq<Request>, queue: seq<Header>, max: nat, loop: nat)
    requires AllKept(rs, queue, max, loop) && rs != []
    ensures loop + |rs| <= 100
    decreases |rs|
  {
    hide Kept, QueueAfter, EndsEmpty;
    if |rs| > 1 {
      KeptAreFew(rs[1..], QueueAfter(rs[0], queue, max), max, loop + 1);
    }
  }

  lemma {:induction false} KeptIsExpected(rs: seq<Request>, queue: seq<Header>, max: nat, loop: nat)
    requires AllKept(rs, queue, max, loop)
    ensures Expected(rs, queue, max, loop) == (Returned(true), Ref.HeadersOf(rs))
    decreases |rs|
  {
    hide Found, QueueAfter;
    if rs != [] {
      KeptIsExpected(rs[1..], QueueAfter(rs[0], queue, max), max, loop + 1);
      if !rs[0].neverIndexed && Found(rs[0].header, queue).index >= STATIC_SIZE {
        assert Header([], rs[0].header.value) == rs[0].header;
      }
    }
  }

  lemma {:induction false} NamedConcat(a: seq<Header>, b: seq<Header>, name: Text)
    ensures Named(a + b, name) == Named(a, name) + Named(b, name)
  {
    if a == [] {
      assert a + b == b;
    } else {
      assert (a + b)[1..] == a[1..] + b;
      NamedConcat(a[1..], b, name);
    }
  }

  /** What the first request adds to the two counts. */
  lemma FirstCounts(r: Request, queue: seq<Header>, noted: seq<Header>, sent: seq<Header>, name: Text)
    ensures Named([r.header] + sent, name) == Named(sent, name) + if r.header.name == name then 1 else 0
    ensures var gained := Named(Seen(r, queue) + noted, name) - Named(noted, name);
            && (Kept(r, queue) ==> gained == if r.header.name == name then 1 else 0)
            && (!Kept(r, queue) && name != [] ==> gained == 0)
            && (!Kept(r, queue) && r.header.name == [] ==> gained == 0)
  {
    hide Found;
    NamedConcat([r.header], sent, name);
    NamedConcat(Seen(r, queue), noted, name);
  }

  /** A non-empty name is never noted more often than it was sent. */
  lemma {:induction false} NotedAtMost(rs: seq<Request>, queue: seq<Header>, max: nat, loop: nat, name: Text)
    requires name != []
    ensures Named(Expected(rs, queue, max, loop).1, name) <= Named(Ref.HeadersOf(rs), name)
    decreases |rs|
  {
    hide QueueAfter, EndsEmpty, Seen, Named;
    if rs != [] {
      var queue' := QueueAfter(rs[0], queue, max);
      NotedAtMost(rs[1..], queue', max, loop + 1, name);
      FirstCounts(rs[0], queue, Expected(rs[1..], queue', max, loop + 1).1, Ref.HeadersOf(rs[1..]), name);
      NothingNamed(name);
    }
  }

  lemma NothingNamed(name: Text)
    ensures Named([], name) == 0
  {
  }

  /** If a request is lost, some name is noted less often than it was sent. */
  lemma {:induction false} LossShows(rs: seq<Request>, queue: seq<Header>, max: nat, loop: nat) returns (name: Text)
    requires !AllKept(rs, queue, max, loop) && Expected(rs, queue, max, loop).0 == Returned(true)
    ensures Named(Expected(rs, queue, max, loop).1, name) < Named(Ref.HeadersOf(rs), name)
    decreases |rs|
  {
    hide QueueAfter, EndsEmpty, Seen, Named, Kept;
    var h, queue' := rs[0].header, QueueAfter(rs[0], queue, max);
    var noted, sent := Expected(rs[1..], queue', max, loop + 1).1, Ref.HeadersOf(rs[1..]);
    name := h.name;
    if loop < MAX_LOOPS {
      if Kept(rs[0], queue) || (h.name == [] && !AllKept(rs[1..], queue', max, loop + 1)) {
        name := LossShows(rs[1..], queue', max, loop + 1);
      } else if h.name == [] {
        KeptIsExpected(rs[1..], queue', max, loop + 1);
      } else {
        NotedAtMost(rs[1..], queue', max, loop + 1, h.name);
      }
    }
    FirstCounts(rs[0], queue, noted, sent, name);
    NothingNamed(name);
  }

  /** A fresh decoder, given a fresh encoder's block, returns true and holds exactly the headers sent,
      grouped by name and in order, if and only if every request is kept. */
  lemma BlockRoundTrip(rs: seq<Request>, max: nat, decoderMax: nat)
    requires rs != [] && Ref.FaithfulAll(rs, [], max)
    ensures var start := DecoderState(map[], TableState(decoderMax, []));
            var (outcome, state) := Run(WrittenAll(rs, [], max), 0, 0, start);
            outcome == Returned(true) && state.headers == Grouped(Ref.HeadersOf(rs)) <==> AllKept(rs, [], max, 0)
  {
    hide Expected, AllKept, Run, WrittenAll, Ref.FaithfulAll;
    var start := DecoderState(map[], TableState(decoderMax, []));
    BlockSeen([], rs, [], max, 0, start);
    assert [] + WrittenAll(rs, [], max) == WrittenAll(rs, [], max);
    var (outcome, noted) := Expected(rs, [], max, 0);
    if AllKept(rs, [], max, 0) {
      KeptIsExpected(rs, [], max, 0);
    } else if outcome == Returned(true) {
      var name := LossShows(rs, [], max, 0);
      GroupSizes(map[], noted, name);
      GroupSizes(map[], Ref.HeadersOf(rs), name);
    }
  }

  // ----- the usual case -----

  /** The header has an exact match in the static table. */
  predicate ExactStatic(h: Header) {
    FoundStatic(h, 1, -1).exact
  }

  /** Values are not empty, and the names of headers without an exact static match differ pairwise. */
  predicate Ordinary(rs: seq<Request>) {
    && (forall i :: 0 <= i < |rs| ==> rs[i].header.value != [])
    && (forall i, j :: 0 <= i < j < |rs| && !ExactStatic(rs[i].header) && !ExactStatic(rs[j].header)
          ==> rs[i].header.name != rs[j].header.name)
  }

  /** No header without an exact static match has a name that is in the table already. */
  predicate NewNames(rs: seq<Request>, queue: seq<Header>) {
    forall i, k :: 0 <= i < |rs| && 0 <= k < |queue| && !ExactStatic(rs[i].header) ==> queue[k].name != rs[i].header.name
  }

  /** Up to 100 such headers are always kept. */
  lemma {:induction false} OrdinaryIsKept(rs: seq<Request>, queue: seq<Header>, max: nat, loop: nat)
    requires Ordinary(rs) && NewNames(rs, queue) && loop + |rs| <= 100
    ensures AllKept(rs, queue, max, loop)
    decreases |rs|
  {
    hide Ordinary, NewNames, Kept, QueueAfter, EndsEmpty;
    if rs != [] {
      FirstIsKept(rs, queue);
      OrdinaryRest(rs, queue, max);
      OrdinaryIsKept(rs[1..], QueueAfter(rs[0], queue, max), max, loop + 1);
    }
  }

  lemma FirstIsKept(rs: seq<Request>, queue: seq<Header>)
    requires rs != [] && Ordinary(rs) && NewNames(rs, queue)
    ensures Kept(rs[0], queue) && !EndsEmpty(rs[0], queue)
  {
    hide ExactStatic, Found;
    OrdinaryFirst(rs[0], queue, 0);
  }

  lemma OrdinaryRest(rs: seq<Request>, queue: seq<Header>, max: nat)
    requires rs != [] && Ordinary(rs) && NewNames(rs, queue)
    ensures Ordinary(rs[1..]) && NewNames(rs[1..], QueueAfter(rs[0], queue, max))
  {
    hide ExactStatic, QueueAfter, Found, Kept;
    OrdinaryFirst(rs[0], queue, max);
    var queue' := QueueAfter(rs[0], queue, max);
    forall i, k | 0 <= i < |rs[1..]| && 0 <= k < |queue'| && !ExactStatic(rs[1..][i].header)
      ensures queue'[k].name != rs[1..][i].header.name
    {
      assert rs[1..][i] == rs[i + 1];
    }
  }

  lemma OrdinaryFirst(r: Request, queue: seq<Header>, max: nat)
    requires !ExactStatic(r.header) ==> forall k :: 0 <= k < |queue| ==> queue[k].name != r.header.name
    ensures Kept(r, queue)
    ensures ExactStatic(r.header) ==> Found(r.header, queue).exact || r.neverIndexed
    ensures forall k :: 0 <= k < |QueueAfter(r, queue, max)| ==>
              QueueAfter(r, queue, max)[k] in queue || (!ExactStatic(r.header) && QueueAfter(r, queue, max)[k] == r.header)
  {
    hide StaticAt, FoundStatic;
  }

  // ----- the two objects together -----

  lemma {:induction false} WrittenSnoc(rs: seq<Request>, r: Request, queue: seq<Header>, max: nat)
    ensures var last := QueueAfterAll(rs, queue, max);
            && WrittenAll(rs + [r], queue, max) == WrittenAll(rs, queue, max) + Written(r, last)
            && QueueAfterAll(rs + [r], queue, max) == QueueAfter(r, last, max)
    decreases |rs|
  {
    hide Written, QueueAfter;
    if rs == [] {
      assert rs + [r] == [r];
    } else {
      assert (rs + [r])[1..] == rs[1..] + [r];
      WrittenSnoc(rs[1..], r, QueueAfter(rs[0], queue, max), max);
    }
  }

  method EncodeBlock(rs: seq<Request>) returns (data: seq<byte>)
    ensures data == WrittenAll(rs, [], 4096)
  {
    hide Written, QueueAfter;
    var encoder := new Encoder();
    for i := 0 to |rs|
      invariant encoder.Valid() && fresh(encoder) && fresh(encoder.m_dynamic) && fresh(encoder.m_huffman)
      invariant encoder.m_dynamic.m_max == 4096
      invariant encoder.m_buf == WrittenAll(rs[..i], [], 4096)
      invariant encoder.m_dynamic.m_queue == QueueAfterAll(rs[..i], [], 4096)
    {
      assert rs[..i + 1] == rs[..i] + [rs[i]];
      WrittenSnoc(rs[..i], rs[i], [], 4096);
      encoder.Add(rs[i]);
    }
    assert rs[..|rs|] == rs;
    data := encoder.m_buf;
  }

  /** Sends `rs` through a fresh encoder and a fresh decoder. */
  method Deliver(rs: seq<Request>) returns (outcome: Outcome, headers: HeaderMap)
    requires rs != [] && Ref.FaithfulAll(rs, [], 4096)
    ensures outcome == Returned(true) && headers == Grouped(Ref.HeadersOf(rs)) <==> AllKept(rs, [], 4096, 0)
  {
    hide Run, AllKept, WrittenAll, Ref.FaithfulAll, Grouped;
    RestEmpty(rs, [], 4096);
    BlockRoundTrip(rs, 4096, 4096);
    var data := EncodeBlock(rs);
    var decoder := new Decoder();
    outcome := decoder.Decode(data);
    headers := decoder.m_headers;
  }
}
