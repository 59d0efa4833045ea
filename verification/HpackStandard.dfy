/** The dynamic table as RFC 7541 describes it, beside the one of the source. */
module HpackStandard {
  import opened HpackTable

  const OVERHEAD := 32

  /** Section 4.1 */
  function EntrySize(h: Header): nat {
    |h.name| + |h.value| + OVERHEAD
  }

  function StandardSize(queue: seq<Header>): nat {
    if queue == [] then 0 else EntrySize(queue[0]) + StandardSize(queue[1..])
  }

  /** Section 4.3 */
  function StandardEvicted(queue: seq<Header>, limit: nat): (r: seq<Header>)
    ensures r <= queue && StandardSize(r) <= limit
  {
    if StandardSize(queue) <= limit then queue else StandardEvicted(queue[..|queue| - 1], limit)
  }

  /** Section 4.4: an entry that is larger than the whole table empties it. */
  function StandardAdded(queue: seq<Header>, max: nat, h: Header): seq<Header> {
    if EntrySize(h) > max then [] else [h] + StandardEvicted(queue, max - EntrySize(h))
  }

  /** Whose eviction a decoder follows. */
  datatype Eviction = OfSource | OfStandard

  function Updated(e: Eviction, s: TableState, op: TableOp): TableState {
    if e == OfSource then Applied(s, op)
    else
      match op
      case Insert(h) => s.(queue := StandardAdded(s.queue, s.max, h))
      case Resize(max) => TableState(max, StandardEvicted(s.queue, max))
  }

  lemma {:induction false} StandardIsLarger(queue: seq<Header>)
    ensures TableSize(queue) <= StandardSize(queue)
  {
    if queue != [] {
      StandardIsLarger(queue[1..]);
    }
  }

  /** A part that is small enough survives the source's eviction. */
  lemma SmallSurvives(part: seq<Header>, queue: seq<Header>, max: nat)
    requires part <= queue && TableSize(part) < max
    ensures part <= Evicted(queue, max)
  {
    hide TableSize;
    EvictsFewest(queue, max);
    var kept := Evicted(queue, max);
    if |kept| < |part| {
      assert queue[..|kept| + 1] == part[..|kept| + 1];
      TableSizePrefix(part, |kept| + 1);
    }
  }

  /** The standard's table stays a prefix of the source's: it evicts at least as much. */
  lemma AddedIsPrefix(some: seq<Header>, queue: seq<Header>, max: nat, h: Header)
    requires some <= queue
    ensures StandardAdded(some, max, h) <= Added(queue, max, h)
  {
    if EntrySize(h) <= max {
      var kept := StandardEvicted(some, max - EntrySize(h));
      StandardIsLarger(kept);
      SmallSurvives(kept, queue, max);
    }
  }
}
