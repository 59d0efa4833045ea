/** The HPACK header encoder. */
module HpackEncoder {
  import opened Bits
  import opened HpackInteger
  import opened HpackTable
  import Huffman = HuffmanCoder
  import opened Wrappers

  const HUFFMAN_FLAG := 0x80
  const INDEXED := 0x80
  const INCREMENTAL := 0x40
  const NEVER_INDEXED := 0x10

  // ----- looking a header up -----

  /** `index` is -1 when no entry has the name; `exact` when the value agrees too. */
  datatype Lookup = Lookup(exact: bool, index: int)

  /** The static entries from `from` on: the first exact match, else the last match by name, be it an earlier one. */
  function FoundStatic(h: Header, from: nat, index: int): (r: Lookup)
    requires 1 <= from <= STATIC_SIZE
    requires index == -1 || (1 <= index < from && StaticAt(index).name == h.name)
    ensures r.exact ==> from <= r.index < STATIC_SIZE && StaticAt(r.index) == h
    ensures !r.exact && r.index != -1 ==> 1 <= r.index < STATIC_SIZE && StaticAt(r.index).name == h.name
    decreases STATIC_SIZE - from
  {
    if from == STATIC_SIZE then Lookup(false, index)
    else if StaticAt(from).name == h.name && StaticAt(from).value == h.value then Lookup(true, from)
    else if StaticAt(from).name == h.name then FoundStatic(h, from + 1, from)
    else FoundStatic(h, from + 1, index)
  }

  /** Searched from the start: the first exact match, else the last match by name, or none. */
  lemma {:induction false} FoundStaticIs(h: Header, from: nat, index: int)
    requires 1 <= from <= STATIC_SIZE
    requires index == -1 || (1 <= index < from && StaticAt(index).name == h.name)
    ensures var r := FoundStatic(h, from, index);
            && (r.exact ==> forall i :: from <= i < r.index ==> StaticAt(i) != h)
            && (!r.exact ==> forall i :: from <= i < STATIC_SIZE ==> StaticAt(i) != h)
            && (!r.exact ==> r.index == index || r.index >= from)
            && (!r.exact ==> forall i :: from <= i < STATIC_SIZE && r.index < i ==> StaticAt(i).name != h.name)
    decreases STATIC_SIZE - from
  {
    hide StaticAt;
    if from < STATIC_SIZE {
      FoundStaticIs(h, from + 1, if StaticAt(from).name == h.name then from else index);
    }
  }

  /** An exact static match wins; then the dynamic table's first match by name; then the static name. */
  function Found(h: Header, queue: seq<Header>): (r: Lookup)
    ensures r.index == -1 || 1 <= r.index < STATIC_SIZE + |queue|
    ensures r.exact ==> r.index != -1
  {
    var s, k := FoundStatic(h, 1, -1), FirstNamed(queue, h.name);
    if s.exact then s
    else if k < |queue| then Lookup(queue[k].value == h.value, STATIC_SIZE + k)
    else s
  }

  /** The index leads back to the header, or at least to one of its name; there is none for a new name. */
  lemma FoundLeadsBack(h: Header, queue: seq<Header>)
    ensures var r := Found(h, queue);
            && (r.exact ==> HeaderAt(queue, r.index) == Some(h))
            && (!r.exact && r.index != -1 ==> HeaderAt(queue, r.index).Some? && HeaderAt(queue, r.index).value.name == h.name)
            && (r.index == -1 <==> (forall i :: 0 <= i < |queue| ==> queue[i].name != h.name)
                                   && (forall i :: 1 <= i < STATIC_SIZE ==> StaticAt(i).name != h.name))
  {
    hide StaticAt, FoundStatic;
    FoundStaticIs(h, 1, -1);
  }

  /** In that order: the first exact static match; else the newest dynamic entry of the name, exact or not; else the last
      static entry of the name. */
  lemma FoundInOrder(h: Header, queue: seq<Header>)
    ensures var r := Found(h, queue);
            && (forall i :: 1 <= i < STATIC_SIZE && StaticAt(i) == h && (forall k :: 1 <= k < i ==> StaticAt(k) != h) ==> r == Lookup(true, i))
            && ((forall i :: 1 <= i < STATIC_SIZE ==> StaticAt(i) != h) ==>
                  && (forall k :: 0 <= k < |queue| && queue[k].name == h.name && (forall m :: 0 <= m < k ==> queue[m].name != h.name) ==>
                        r == Lookup(queue[k].value == h.value, STATIC_SIZE + k))
                  && ((forall k :: 0 <= k < |queue| ==> queue[k].name != h.name) ==>
                        && !r.exact
                        && forall i :: 1 <= i < STATIC_SIZE && StaticAt(i).name == h.name ==> i <= r.index))
  {
    hide StaticAt, FoundStatic;
    FoundStaticIs(h, 1, -1);
  }

  // ----- the bytes written -----

  function PlainString(s: Text): (r: seq<byte>)
    ensures |r| > 0
  {
    EncodedInt(|s| % UINT_LIMIT, 7) + s
  }

  function HuffmanString(s: Text): (r: seq<byte>)
    ensures |r| > 0
  {
    var huffbuff := Huffman.Encoded(s);
    assert Pow2(7) == 128;
    (if |huffbuff| < 128 then [HUFFMAN_FLAG + |huffbuff|]
     else Flagged(EncodedInt(|huffbuff| % UINT_LIMIT, 7), HUFFMAN_FLAG))
    + huffbuff
  }

  function IndexBytes(index: nat, n: nat, flag: nat): (r: seq<byte>)
    requires 1 <= n <= 8 && AbovePrefix(flag, n)
    ensures |r| > 0
  {
    Flagged(EncodedInt(index % UINT_LIMIT, n), flag)
  }

  lemma SevenBits()
    ensures Pow2(7) == 128
  {
  }

  lemma FlagsAbovePrefixes()
    ensures AbovePrefix(HUFFMAN_FLAG, 7) && AbovePrefix(INDEXED, 7) && AbovePrefix(INCREMENTAL, 6)
  {
    assert Pow2(7) == 128 && Pow2(6) == 64;
  }

  /** What one `add` asks for. */
  datatype Request = Request(header: Header, huffman: bool, neverIndexed: bool)

  function Written(r: Request, queue: seq<Header>): (bytes: seq<byte>)
    ensures |bytes| > 0
  {
    hide Found, FoundStatic, StaticAt, EncodedInt, Pow2, AbovePrefix, Flagged, Huffman.Encoded;
    FlagsAbovePrefixes();
    var h, f := r.header, Found(r.header, queue);
    if r.neverIndexed then [NEVER_INDEXED] + PlainString(h.name) + PlainString(h.value)
    else if f.exact then IndexBytes(f.index, 7, INDEXED)
    else if f.index != -1 then
      // without Huffman coding this branch writes the value but not its length
      IndexBytes(f.index, 6, INCREMENTAL) + (if r.huffman then HuffmanString(h.value) else h.value)
    else if r.huffman then [INCREMENTAL] + HuffmanString(h.name) + HuffmanString(h.value)
    else [INCREMENTAL] + PlainString(h.name) + PlainString(h.value)
  }

  function QueueAfter(r: Request, queue: seq<Header>, max: nat): seq<Header> {
    if r.neverIndexed || Found(r.header, queue).exact then queue else Added(queue, max, r.header)
  }

  /** A block: every request's bytes, each looked up in the table its predecessors left. */
  function WrittenAll(rs: seq<Request>, queue: seq<Header>, max: nat): seq<byte> {
    if rs == [] then [] else Written(rs[0], queue) + WrittenAll(rs[1..], QueueAfter(rs[0], queue, max), max)
  }

  function QueueAfterAll(rs: seq<Request>, queue: seq<Header>, max: nat): seq<Header> {
    if rs == [] then queue else QueueAfterAll(rs[1..], QueueAfter(rs[0], queue, max), max)
  }

  lemma HuffmanStringParts(before: seq<byte>, s: Text)
    ensures AbovePrefix(HUFFMAN_FLAG, 7)
    ensures var huffbuff := Huffman.Encoded(s);
            var prefix := if |huffbuff| < 128 then [HUFFMAN_FLAG + |huffbuff|]
                          else Flagged(EncodedInt(|huffbuff| % UINT_LIMIT, 7), HUFFMAN_FLAG);
            before + HuffmanString(s) == before + prefix + huffbuff
  {
    hide Pow2, EncodedInt, Huffman.Encoded, Flagged, AbovePrefix;
    FlagsAbovePrefixes();
    SevenBits();
    var huffbuff := Huffman.Encoded(s);
    var prefix := if |huffbuff| < 128 then [HUFFMAN_FLAG + |huffbuff|] else Flagged(EncodedInt(|huffbuff| % UINT_LIMIT, 7), HUFFMAN_FLAG);
    assert HuffmanString(s) == prefix + huffbuff;
    hide HuffmanString;
    Associated(before, prefix, huffbuff);
  }

  lemma Associated(a: seq<byte>, b: seq<byte>, c: seq<byte>)
    ensures a + (b + c) == a + b + c
  {
  }

  /** A length with the Huffman flag set in its first byte. */
  method FlaggedLength(len: nat) returns (tmp: seq<byte>)
    requires len < UINT_LIMIT
    ensures AbovePrefix(HUFFMAN_FLAG, 7) && tmp == Flagged(EncodedInt(len, 7), HUFFMAN_FLAG)
  {
    hide Pow2, EncodedInt;
    FlagsAbovePrefixes();
    SevenBits();
    tmp := EncodeInteger([], len, 7);
    assert [] + EncodedInt(len, 7) == EncodedInt(len, 7);
    tmp := [tmp[0] + HUFFMAN_FLAG] + tmp[1..];
  }

  /** `encoder_t` */
  class Encoder {
    var m_buf: seq<byte>
    const m_dynamic: RingTable
    const m_huffman: Huffman.HuffmanEncoder

    ghost predicate Valid()
      reads this, m_huffman
    {
      m_huffman.Idle()
    }

    constructor (max: nat := 4096)
      ensures Valid() && fresh(m_dynamic) && fresh(m_huffman)
      ensures m_buf == [] && m_dynamic.State() == TableState(max, [])
    {
      m_buf := [];
      m_dynamic := new RingTable(max);
      m_huffman := new Huffman.HuffmanEncoder();
    }

    method MaxTableSize(max: nat)
      modifies m_dynamic
      ensures m_dynamic.State() == Applied(old(m_dynamic.State()), Resize(max))
    {
      m_dynamic.SetMax(max);
    }

    method HuffEncode(str: Text)
      requires Valid()
      modifies this, m_huffman
      ensures Valid() && m_buf == old(m_buf) + HuffmanString(str)
    {
      hide Pow2, EncodedInt, Huffman.Encoded, Flagged, AbovePrefix, HuffmanString;
      ghost var before := m_buf;
      var huffbuff := m_huffman.Encode(str);
      if |huffbuff| < 128 {
        m_buf := m_buf + [HUFFMAN_FLAG + |huffbuff|];
      } else {
        var tmp := FlaggedLength(|huffbuff| % UINT_LIMIT);
        m_buf := m_buf + tmp;
      }
      m_buf := m_buf + huffbuff;
      HuffmanStringParts(before, str);
    }

    method PlainEncode(str: Text)
      modifies this
      ensures m_buf == old(m_buf) + PlainString(str)
    {
      var buf := EncodeInteger([], |str| % UINT_LIMIT, 7);
      m_buf := m_buf + buf;
      m_buf := m_buf + str;
    }

    method Find(h: Header) returns (exact: bool, index: int)
      ensures Lookup(exact, index) == Found(h, m_dynamic.m_queue)
    {
      index := -1;
      for idx := 1 to STATIC_SIZE
        invariant index == -1 || (1 <= index < idx && StaticAt(index).name == h.name)
        invariant FoundStatic(h, 1, -1) == FoundStatic(h, idx, index)
      {
        if StaticAt(idx).name == h.name && StaticAt(idx).value == h.value {
          return true, idx;
        } else if StaticAt(idx).name == h.name {
          index := idx;
        }
      }
      var savedIndex := index;
      exact, index := m_dynamic.Find(h);
      if exact {
        return true, index;
      } else if index != -1 {
        return false, index;
      }
      if savedIndex != -1 {
        index := savedIndex;
      }
      return false, index;
    }

    method EncodeIndex(index: nat, n: nat, flag: nat)
      requires 1 <= n <= 8 && AbovePrefix(flag, n)
      modifies this
      ensures m_buf == old(m_buf) + IndexBytes(index, n, flag)
    {
      var buf := EncodeInteger([], index % UINT_LIMIT, n);
      buf := buf[0 := buf[0] + flag];
      m_buf := m_buf + buf;
    }

    method Add(r: Request)
      requires Valid()
      modifies this, m_dynamic, m_huffman
      ensures Valid() && m_dynamic.m_max == old(m_dynamic.m_max)
      ensures m_buf == old(m_buf) + Written(r, old(m_dynamic.m_queue))
      ensures m_dynamic.m_queue == QueueAfter(r, old(m_dynamic.m_queue), m_dynamic.m_max)
    {
      hide HuffmanString, PlainString, IndexBytes, Found, AbovePrefix, Added;
      FlagsAbovePrefixes();
      var h := r.header;
      var exact, index := false, 0;
      ghost var before := m_buf;
      if !r.neverIndexed {
        exact, index := Find(h);
      }
      if !r.neverIndexed && exact {
        EncodeIndex(index, 7, INDEXED);
      } else if !r.neverIndexed && index != -1 {
        m_dynamic.Add(h);
        EncodeIndex(index, 6, INCREMENTAL);
        ghost var front := IndexBytes(index, 6, INCREMENTAL);
        if r.huffman {
          HuffEncode(h.value);
          assert (before + front) + HuffmanString(h.value) == before + (front + HuffmanString(h.value));
        } else {
          m_buf := m_buf + h.value;
          assert (before + front) + h.value == before + (front + h.value);
        }
      } else {
        ghost var front := [if r.neverIndexed then NEVER_INDEXED else INCREMENTAL];
        if !r.neverIndexed {
          m_dynamic.Add(h);
          m_buf := m_buf + [INCREMENTAL];
        } else {
          m_buf := m_buf + [NEVER_INDEXED];
        }
        if r.huffman && !r.neverIndexed {
          HuffEncode(h.name);
          HuffEncode(h.value);
          Appended(before, front, HuffmanString(h.name), HuffmanString(h.value));
        } else {
          PlainEncode(h.name);
          PlainEncode(h.value);
          Appended(before, front, PlainString(h.name), PlainString(h.value));
        }
      }
    }
  }

  lemma Appended(a: seq<byte>, b: seq<byte>, c: seq<byte>, d: seq<byte>)
    ensures ((a + b) + c) + d == a + (b + c + d)
  {
  }
}
