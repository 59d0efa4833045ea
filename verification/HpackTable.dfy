/** HPACK header tables: the static one, and the dynamic table with its eviction. */
module HpackTable {
  import opened Bits
  import opened Wrappers

  type Text = seq<byte>

  datatype Header = Header(name: Text, value: Text)
  const STATIC_SIZE := 62  // entry 0 is a placeholder

  function Ascii(s: string): (t: Text)
    ensures |t| == |s|
  {
    seq(|s|, i requires 0 <= i < |s| => s[i] as int % 256)
  }

  function StaticRow0(i: nat): Header {
    if i == 0 then Header(Ascii("INVALIDINDEX"), Ascii("INVALIDINDEX")) else
    if i == 1 then Header(Ascii(":authority"), Ascii("")) else
    if i == 2 then Header(Ascii(":method"), Ascii("GET")) else
    if i == 3 then Header(Ascii(":method"), Ascii("POST")) else
    if i == 4 then Header(Ascii(":path"), Ascii("/")) else
    if i == 5 then Header(Ascii(":path"), Ascii("/index.html")) else
    if i == 6 then Header(Ascii(":scheme"), Ascii("http")) else
    if i == 7 then Header(Ascii(":scheme"), Ascii("https")) else
    if i == 8 then Header(Ascii(":status"), Ascii("200")) else
    if i == 9 then Header(Ascii(":status"), Ascii("204")) else
    if i == 10 then Header(Ascii(":status"), Ascii("206")) else
    if i == 11 then Header(Ascii(":status"), Ascii("304")) else
    if i == 12 then Header(Ascii(":status"), Ascii("400")) else
    if i == 13 then Header(Ascii(":status"), Ascii("404")) else
    if i == 14 then Header(Ascii(":status"), Ascii("500")) else
    Header(Ascii("accept-charset"), Ascii(""))
  }

  function StaticRow1(i: nat): Header {
    if i == 16 then Header(Ascii("accept-encoding"), Ascii("gzip, deflate")) else
    if i == 17 then Header(Ascii("accept-language"), Ascii("")) else
    if i == 18 then Header(Ascii("accept-ranges"), Ascii("")) else
    if i == 19 then Header(Ascii("accept"), Ascii("")) else
    if i == 20 then Header(Ascii("access-control-allow-origin"), Ascii("")) else
    if i == 21 then Header(Ascii("age"), Ascii("")) else
    if i == 22 then Header(Ascii("allow"), Ascii("")) else
    if i == 23 then Header(Ascii("authorization"), Ascii("")) else
    if i == 24 then Header(Ascii("cache-control"), Ascii("")) else
    if i == 25 then Header(Ascii("content-disposition"), Ascii("")) else
    if i == 26 then Header(Ascii("content-encoding"), Ascii("")) else
    if i == 27 then Header(Ascii("content-language"), Ascii("")) else
    if i == 28 then Header(Ascii("content-length"), Ascii("")) else
    if i == 29 then Header(Ascii("content-location"), Ascii("")) else
    if i == 30 then Header(Ascii("content-range"), Ascii("")) else
    Header(Ascii("content-type"), Ascii(""))
  }

  function StaticRow2(i: nat): Header {
    if i == 32 then Header(Ascii("cookie"), Ascii("")) else
    if i == 33 then Header(Ascii("date"), Ascii("")) else
    if i == 34 then Header(Ascii("etag"), Ascii("")) else
    if i == 35 then Header(Ascii("expect"), Ascii("")) else
    if i == 36 then Header(Ascii("expires"), Ascii("")) else
    if i == 37 then Header(Ascii("from"), Ascii("")) else
    if i == 38 then Header(Ascii("host"), Ascii("")) else
    if i == 39 then Header(Ascii("if-match"), Ascii("")) else
    if i == 40 then Header(Ascii("if-modified-since"), Ascii("")) else
    if i == 41 then Header(Ascii("if-none-match"), Ascii("")) else
    if i == 42 then Header(Ascii("if-range"), Ascii("")) else
    if i == 43 then Header(Ascii("if-unmodified-since"), Ascii("")) else
    if i == 44 then Header(Ascii("last-modified"), Ascii("")) else
    if i == 45 then Header(Ascii("link"), Ascii("")) else
    if i == 46 then Header(Ascii("location"), Ascii("")) else
    Header(Ascii("max-forwards"), Ascii(""))
  }

  function StaticRow3(i: nat): Header {
    if i == 48 then Header(Ascii("proxy-authenticate"), Ascii("")) else
    if i == 49 then Header(Ascii("proxy-authorization"), Ascii("")) else
    if i == 50 then Header(Ascii("range"), Ascii("")) else
    if i == 51 then Header(Ascii("referer"), Ascii("")) else
    if i == 52 then Header(Ascii("refresh"), Ascii("")) else
    if i == 53 then Header(Ascii("retry-after"), Ascii("")) else
    if i == 54 then Header(Ascii("server"), Ascii("")) else
    if i == 55 then Header(Ascii("set-cookie"), Ascii("")) else
    if i == 56 then Header(Ascii("strict-transport-security"), Ascii("")) else
    if i == 57 then Header(Ascii("transfer-encoding"), Ascii("")) else
    if i == 58 then Header(Ascii("user-agent"), Ascii("")) else
    if i == 59 then Header(Ascii("vary"), Ascii("")) else
    if i == 60 then Header(Ascii("via"), Ascii("")) else
    Header(Ascii("www-authenticate"), Ascii(""))
  }

  /** `predefined_headers` (RFC 7541, appendix A). */
  function StaticAt(i: nat): Header
    requires i < STATIC_SIZE
  {
    if i < 16 then StaticRow0(i)
    else if i < 32 then StaticRow1(i)
    else if i < 48 then StaticRow2(i)
    else StaticRow3(i)
  }

  // ----- what the dynamic table holds -----

  /** The octets of the names and values; the source adds no per-entry overhead. */
  function TableSize(queue: seq<Header>): nat {
    if queue == [] then 0
    else |queue[0].name| + |queue[0].value| + TableSize(queue[1..])
  }

  /** `queue` after dropping oldest entries until it is smaller than `max`; everything if `max` is 0. */
  function Evicted(queue: seq<Header>, max: nat): (r: seq<Header>)
    ensures r <= queue
  {
    if max == 0 then []
    else if TableSize(queue) >= max then Evicted(queue[..|queue| - 1], max)
    else queue
  }

  function Added(queue: seq<Header>, max: nat, h: Header): seq<Header> {
    [h] + Evicted(queue, max)
  }

  /** The header an index stands for: static below 62, then the newest insertions. */
  function HeaderAt(queue: seq<Header>, index: nat): Option<Header> {
    if index < STATIC_SIZE then Some(StaticAt(index))
    else if index < STATIC_SIZE + |queue| then Some(queue[index - STATIC_SIZE])
    else None
  }

  /** Position of the first entry with this name, or the length of the queue. */
  function FirstNamed(queue: seq<Header>, name: Text): (k: nat)
    ensures k <= |queue|
    ensures forall i :: 0 <= i < k ==> queue[i].name != name
    ensures k < |queue| ==> queue[k].name == name
  {
    if queue == [] then 0
    else if queue[0].name == name then 0
    else 1 + FirstNamed(queue[1..], name)
  }

  lemma {:induction false} TableSizePrefix(queue: seq<Header>, k: nat)
    requires k <= |queue|
    ensures TableSize(queue[..k]) <= TableSize(queue)
  {
    if k > 0 {
      assert queue[..k][1..] == queue[1..][..k - 1];
      TableSizePrefix(queue[1..], k - 1);
    }
  }

  /** Eviction keeps as much as it may: one entry more would be too large. */
  lemma {:induction false} EvictsFewest(queue: seq<Header>, max: nat)
    requires max > 0
    ensures var kept := Evicted(queue, max);
            && TableSize(kept) < max
            && (|kept| < |queue| ==> TableSize(queue[..|kept| + 1]) >= max)
  {
    if TableSize(queue) >= max {
      var shorter := queue[..|queue| - 1];
      EvictsFewest(shorter, max);
      var kept := Evicted(shorter, max);
      assert |kept| < |shorter| ==> queue[..|kept| + 1] == shorter[..|kept| + 1];
      assert |kept| == |shorter| ==> queue[..|kept| + 1] == queue;
    }
  }

  /** An insertion keeps the new entry, whatever its size, and of the others the longest beginning that is smaller than the
      maximum; with a maximum of 0 none. */
  lemma AddedExactly(queue: seq<Header>, max: nat, h: Header, n: nat)
    requires n <= |queue|
    ensures Added(queue, max, h) != [] && Added(queue, max, h)[0] == h && Added(queue, max, h)[1..] <= queue
    ensures n < |Added(queue, max, h)| <==> n == 0 || (max > 0 && TableSize(queue[..n]) < max)
  {
    var kept := Evicted(queue, max);
    assert ([h] + kept)[1..] == kept;
    if max > 0 {
      EvictsFewest(queue, max);
      assert kept == queue[..|kept|];
      if n <= |kept| {
        assert queue[..|kept|][..n] == queue[..n];
        TableSizePrefix(queue[..|kept|], n);
      } else {
        assert queue[..n][..|kept| + 1] == queue[..|kept| + 1];
        TableSizePrefix(queue[..n], |kept| + 1);
      }
    }
  }

  // ----- the table over a whole run -----

  datatype TableOp = Insert(header: Header) | Resize(max: nat)
  datatype TableState = TableState(max: nat, queue: seq<Header>)

  function Applied(s: TableState, op: TableOp): TableState {
    match op
    case Insert(h) => s.(queue := Added(s.queue, s.max, h))
    case Resize(max) => TableState(max, Evicted(s.queue, max))
  }

  function Ran(max: nat, ops: seq<TableOp>): TableState {
    if ops == [] then TableState(max, []) else Applied(Ran(max, ops[..|ops| - 1]), ops[|ops| - 1])
  }

  /** All insertions of a run, newest first. */
  function Insertions(ops: seq<TableOp>): seq<Header> {
    if ops == [] then []
    else
      var earlier := Insertions(ops[..|ops| - 1]);
      match ops[|ops| - 1]
      case Insert(h) => [h] + earlier
      case Resize(_) => earlier
  }

  /** After any run the table is a prefix of the insertions, newest first; all entries but the newest
      are smaller together than a non-zero maximum, and a zero maximum leaves at most one. */
  lemma {:induction false} TableHistory(max: nat, ops: seq<TableOp>)
    ensures var s := Ran(max, ops);
            && s.queue <= Insertions(ops)
            && (s.max > 0 && s.queue != [] ==> TableSize(s.queue[1..]) < s.max)
            && (s.max == 0 ==> |s.queue| <= 1)
  {
    if ops != [] {
      var before := Ran(max, ops[..|ops| - 1]);
      TableHistory(max, ops[..|ops| - 1]);
      if before.max > 0 {
        EvictsFewest(before.queue, before.max);
      }
      match ops[|ops| - 1]
      case Insert(h) =>
        assert ([h] + Evicted(before.queue, before.max))[1..] == Evicted(before.queue, before.max);
      case Resize(m) =>
        if m > 0 {
          EvictsFewest(before.queue, m);
          var kept := Evicted(before.queue, m);
          if kept != [] {
            assert TableSize(kept[1..]) <= TableSize(kept);
          }
        }
    }
  }

  /** An index tells the age: 62 is the newest insertion, and every further index the one before it, as far as the
      table reaches. Right after an insertion the newest is there, whatever its size; a change of the size can empty
      the table. */
  lemma IndexIsAge(max: nat, ops: seq<TableOp>, age: nat)
    ensures var queue := Ran(max, ops).queue;
            && |queue| <= |Insertions(ops)|
            && HeaderAt(queue, STATIC_SIZE + age) == if age < |queue| then Some(Insertions(ops)[age]) else None
    ensures ops != [] && ops[|ops| - 1].Insert? ==> Ran(max, ops).queue != []
  {
    TableHistory(max, ops);
  }

  // ----- the table object -----

  /** `ringtable_t` */
  class RingTable {
    var m_max: nat
    var m_queue: seq<Header>

    constructor (max: nat := 4096)
      ensures m_max == max && m_queue == []
    {
      m_max, m_queue := max, [];
    }

    ghost function State(): TableState
      reads this
    {
      TableState(m_max, m_queue)
    }

    method Length() returns (size: nat)
      ensures size == TableSize(m_queue)
    {
      size := 0;
      for i := 0 to |m_queue|
        invariant size + TableSize(m_queue[i..]) == TableSize(m_queue)
      {
        assert m_queue[i..][1..] == m_queue[i + 1..];
        size := size + |m_queue[i].name| + |m_queue[i].value|;
      }
    }

    /** The eviction loop that `max` and `add` share. */
    method Evict()
      modifies this`m_queue
      ensures m_queue == Evicted(old(m_queue), m_max)
    {
      if m_max == 0 {
        m_queue := [];
      } else {
        var length := Length();
        while length >= m_max
          invariant length == TableSize(m_queue)
          invariant Evicted(m_queue, m_max) == Evicted(old(m_queue), m_max)
          decreases |m_queue|
        {
          m_queue := m_queue[..|m_queue| - 1];
          length := Length();
        }
      }
    }

    method SetMax(max: nat)
      modifies this
      ensures State() == Applied(old(State()), Resize(max))
    {
      m_max := max;
      Evict();
    }

    method Add(h: Header)
      modifies this
      ensures State() == Applied(old(State()), Insert(h))
    {
      Evict();
      m_queue := [h] + m_queue;
    }

    /** Stops at the first entry with the name: the index is its index, the result whether the value agrees. */
    method Find(h: Header) returns (found: bool, index: int)
      ensures var k := FirstNamed(m_queue, h.name);
              && index == (if k < |m_queue| then STATIC_SIZE + k else -1)
              && (found <==> k < |m_queue| && m_queue[k].value == h.value)
    {
      index := -1;
      for idx := 0 to |m_queue|
        invariant forall i :: 0 <= i < idx ==> m_queue[i].name != h.name
      {
        if m_queue[idx].name == h.name {
          return m_queue[idx].value == h.value, STATIC_SIZE + idx;
        }
      }
      return false, -1;
    }

    method GetHeader(index: nat) returns (h: Option<Header>)
      ensures h == HeaderAt(m_queue, index)
    {
      if index < STATIC_SIZE {
        return Some(StaticAt(index));
      } else if index < STATIC_SIZE + |m_queue| {
        return Some(m_queue[index - STATIC_SIZE]);
      }
      return None;
    }
  }
}
