/** The HPACK header decoder of the repository, which never inserts into its dynamic table. */
module HpackDecoder {
  import opened Bits
  import opened HpackInteger
  import opened HpackTable
  import Huffman = HuffmanCoder
  import HuffmanTable
  import HuffmanTree

  const MAX_LOOPS := 100

  /** `Throws`: an exception; `Overrun`: a read past the end or an integer overflow. */
  datatype Reading = Read(text: Text, next: nat) | Throws | Overrun

  datatype Outcome = Returned(ok: bool) | Thrown | Unspecified

  type HeaderMap = map<Text, seq<Text>>

  datatype DecoderState = DecoderState(headers: HeaderMap, table: TableState)

  datatype StepResult = Next(pos: nat, state: DecoderState) | Stop(outcome: Outcome)

  /** `m_headers[name].emplace_back(value)` */
  function Noted(headers: HeaderMap, name: Text, value: Text): HeaderMap {
    headers[name := (if name in headers then headers[name] else []) + [value]]
  }

  /** `parse_string`: a string that would start at the end of the data throws, even an empty one. */
  ghost function ReadString(data: seq<byte>, pos: nat): (r: Reading)
    requires pos < |data|
    ensures r.Read? ==> pos < r.next <= |data|
  {
    match DecodedInt(data, pos, 7)
    case Undefined => Overrun
    case Int(len, next) =>
      if next >= |data| then Throws
      else if next + len > |data| then Overrun
      else if data[pos] < 128 then Read(data[next..next + len], next + len)
      else
        match Huffman.Walk(Unpack(data[next..next + len]), [], [])
        case Decoded(text) => Read(text, next + len)
        case _ => Throws
  }

  /** One round of `decode`: reads the representation at `pos`. */
  ghost function Step(data: seq<byte>, pos: nat, s: DecoderState): (r: StepResult)
    requires pos < |data|
    ensures r.Next? ==> pos < r.pos <= |data|
  {
    if data[pos] / 32 == 1 then StepSize(data, pos, s)
    else if data[pos] >= 128 then StepIndexed(data, pos, s)
    else StepLiteral(data, pos, s)
  }

  ghost function StepSize(data: seq<byte>, pos: nat, s: DecoderState): (r: StepResult)
    requires pos < |data|
    ensures r.Next? ==> pos < r.pos <= |data|
  {
    match DecodedInt(data, pos, 5)
    case Undefined => Stop(Unspecified)
    case Int(size, next) => Next(next, s.(table := Applied(s.table, Resize(size))))
  }

  /** An index without an entry is passed over. */
  ghost function StepIndexed(data: seq<byte>, pos: nat, s: DecoderState): (r: StepResult)
    requires pos < |data|
    ensures r.Next? ==> pos < r.pos <= |data|
  {
    match DecodedInt(data, pos, 7)
    case Undefined => Stop(Unspecified)
    case Int(index, next) =>
      if index == 0 then Stop(Returned(false))
      else
        match HeaderAt(s.table.queue, index)
        case Some(h) => Next(next, s.(headers := Noted(s.headers, h.name, h.value)))
        case None => Next(next, s)
  }

  /** A literal is noted and the table left as it is. */
  ghost function StepLiteral(data: seq<byte>, pos: nat, s: DecoderState): (r: StepResult)
    requires pos < |data|
    ensures r.Next? ==> pos < r.pos <= |data|
  {
    match LiteralAt(data, pos, s.table.queue)
    case NoLiteral(outcome) => Stop(outcome)
    case Literal(name, value, next) => Next(next, s.(headers := Noted(s.headers, name, value)))
  }

  datatype LiteralRead = Literal(name: Text, value: Text, next: nat) | NoLiteral(outcome: Outcome)

  ghost function LiteralAt(data: seq<byte>, pos: nat, queue: seq<Header>): (r: LiteralRead)
    requires pos < |data|
    ensures r.Literal? ==> pos < r.next <= |data|
  {
    match DecodedInt(data, pos, if data[pos] / 64 == 1 then 6 else 4)
    case Undefined => NoLiteral(Unspecified)
    case Int(index, next) =>
      match LiteralName(data, index, next, queue)
      case Throws => NoLiteral(Thrown)
      case Overrun => NoLiteral(Unspecified)
      case Read(name, at) =>
        if at >= |data| then NoLiteral(Unspecified)
        else
          match ReadString(data, at)
          case Throws => NoLiteral(Thrown)
          case Overrun => NoLiteral(Unspecified)
          case Read(value, end) => Literal(name, value, end)
  }

  /** The name of a literal: indexed (empty if the index is unknown), or a string that follows. */
  ghost function LiteralName(data: seq<byte>, index: nat, next: nat, queue: seq<Header>): (r: Reading)
    ensures r.Read? ==> next <= r.next
  {
    if index != 0 then
      match HeaderAt(queue, index)
      case Some(h) => Read(h.name, next)
      case None => Read([], next)
    else if next >= |data| then Overrun
    else ReadString(data, next)
  }

  ghost function Run(data: seq<byte>, pos: nat, loop: nat, s: DecoderState): (Outcome, DecoderState)
    requires pos <= |data|
    decreases |data| - pos
  {
    if pos == |data| || loop >= MAX_LOOPS then (Returned(true), s)
    else
      match Step(data, pos, s)
      case Stop(outcome) => (outcome, s)
      case Next(next, s') => Run(data, next, loop + 1, s')
  }

  lemma RunStep(data: seq<byte>, pos: nat, loop: nat, s: DecoderState)
    requires pos <= |data|
    ensures pos == |data| || loop >= MAX_LOOPS ==> Run(data, pos, loop, s) == (Returned(true), s)
    ensures pos < |data| && loop < MAX_LOOPS && Step(data, pos, s).Stop? ==>
              Run(data, pos, loop, s) == (Step(data, pos, s).outcome, s)
    ensures pos < |data| && loop < MAX_LOOPS && Step(data, pos, s).Next? ==>
              Run(data, pos, loop, s) == Run(data, Step(data, pos, s).pos, loop + 1, Step(data, pos, s).state)
  {
    hide Step;
  }

  /** `decoder_t` */
  class Decoder {
    var m_headers: HeaderMap
    const m_dynamic: RingTable
    const m_huffman: HuffmanTree.Tree

    ghost predicate Valid()
      reads this, m_huffman, m_huffman.nodes.Values
    {
      m_huffman.Valid() && m_huffman.Holds(HuffmanTable.SYMBOLS, [])
    }

    ghost function State(): DecoderState
      reads this, m_dynamic
    {
      DecoderState(m_headers, m_dynamic.State())
    }

    constructor (max: nat := 4096)
      ensures Valid() && fresh(m_dynamic) && State() == DecoderState(map[], TableState(max, []))
    {
      m_headers := map[];
      m_dynamic := new RingTable(max);
      m_huffman := new HuffmanTree.Tree();
    }

    method ParseString(data: seq<byte>, itr: nat) returns (r: Reading)
      requires Valid() && itr < |data|
      ensures r == ReadString(data, itr)
    {
      hide Valid, Huffman.Walk, DecodedInt, Unpack, Pow2;
      var huff := data[itr] >= 128;
      var len := DecodeInteger(data, itr, 7);
      if len.Undefined? {
        return Overrun;
      }
      if len.next >= |data| {
        return Throws;
      }
      if len.next + len.value > |data| {
        return Overrun;
      }
      var dst := data[len.next..len.next + len.value];
      if huff {
        ShortEnough(data, itr);
        var decoding := DecodeHuffman(dst);
        if !decoding.Decoded? {
          return Throws;
        }
        dst := decoding.text;
      }
      return Read(dst, len.next + len.value);
    }

    method DecodeHuffman(src: seq<byte>) returns (decoding: Huffman.Decoding)
      requires Valid() && |src| < INT_LIMIT
      ensures decoding == Huffman.Walk(Unpack(src), [], [])
    {
      hide Huffman.Walk, Unpack;
      decoding := m_huffman.Decode(src);
    }

    /** The name of a literal: indexed, or a string that follows. */
    method ReadName(data: seq<byte>, index: nat, next: nat) returns (r: Reading)
      requires Valid()
      ensures r == LiteralName(data, index, next, m_dynamic.m_queue)
    {
      hide ReadString, StaticAt;
      if index != 0 {
        var h := m_dynamic.GetHeader(index);
        match h
        case Some(header) => return Read(header.name, next);
        case None => return Read([], next);
      }
      if next >= |data| {
        return Overrun;
      }
      r := ParseString(data, next);
    }

    method Decode(data: seq<byte>) returns (outcome: Outcome)
      requires Valid()
      modifies this, m_dynamic
      ensures Valid()
      ensures data == [] ==> outcome == Returned(false) && State() == old(State())
      ensures data != [] ==> (outcome, State()) == Run(data, 0, 0, old(State()))
    {
      hide Step, StaticAt, DecodedInt, ReadString, Noted, Applied, Valid;
      if data == [] {
        return Returned(false);
      }
      var itr, loop := 0, 0;
      ghost var s := State();
      while itr < |data| && loop < MAX_LOOPS
        invariant itr <= |data| && Valid() && s == State()
        invariant Run(data, itr, loop, s) == Run(data, 0, 0, old(State()))
        decreases |data| - itr
      {
        RunStep(data, itr, loop, s);
        var step := DecodeOne(data, itr);
        if step.Stop? {
          return step.outcome;
        }
        itr := step.pos;
        loop := loop + 1;
        s := step.state;
      }
      RunStep(data, itr, loop, s);
      return Returned(true);
    }

    /** The body of the loop of `decode`. */
    method DecodeOne(data: seq<byte>, itr: nat) returns (step: StepResult)
      requires Valid() && itr < |data|
      modifies this, m_dynamic
      ensures Valid()
      ensures step == Step(data, itr, old(State()))
      ensures State() == if step.Next? then step.state else old(State())
    {
      hide Valid, StepSize, StepIndexed, StepLiteral;
      if data[itr] / 32 == 1 {
        step := DecodeSize(data, itr);
      } else if data[itr] >= 128 {
        step := DecodeIndexed(data, itr);
      } else {
        step := DecodeLiteral(data, itr);
      }
    }

    method DecodeSize(data: seq<byte>, itr: nat) returns (step: StepResult)
      requires Valid() && itr < |data|
      modifies m_dynamic
      ensures Valid()
      ensures step == StepSize(data, itr, old(State()))
      ensures State() == if step.Next? then step.state else old(State())
    {
      hide DecodedInt, Applied;
      var size := DecodeInteger(data, itr, 5);
      if size.Undefined? {
        return Stop(Unspecified);
      }
      m_dynamic.SetMax(size.value);
      return Next(size.next, DecoderState(m_headers, TableState(m_dynamic.m_max, m_dynamic.m_queue)));
    }

    method DecodeIndexed(data: seq<byte>, itr: nat) returns (step: StepResult)
      requires Valid() && itr < |data|
      modifies this
      ensures Valid()
      ensures step == StepIndexed(data, itr, old(State()))
      ensures State() == if step.Next? then step.state else old(State())
    {
      hide DecodedInt, HeaderAt, Noted;
      var index := DecodeInteger(data, itr, 7);
      if index.Undefined? {
        return Stop(Unspecified);
      }
      if index.value == 0 {
        return Stop(Returned(false));
      }
      var hdr := m_dynamic.GetHeader(index.value);
      if hdr.Some? {
        m_headers := Noted(m_headers, hdr.value.name, hdr.value.value);
      }
      return Next(index.next, DecoderState(m_headers, TableState(m_dynamic.m_max, m_dynamic.m_queue)));
    }

    method DecodeLiteral(data: seq<byte>, itr: nat) returns (step: StepResult)
      requires Valid() && itr < |data|
      modifies this
      ensures Valid()
      ensures step == StepLiteral(data, itr, old(State()))
      ensures State() == if step.Next? then step.state else old(State())
    {
      hide LiteralAt, Noted;
      var literal := ReadLiteral(data, itr);
      if literal.NoLiteral? {
        return Stop(literal.outcome);
      }
      m_headers := Noted(m_headers, literal.name, literal.value);
      return Next(literal.next, DecoderState(m_headers, TableState(m_dynamic.m_max, m_dynamic.m_queue)));
    }

    method ReadLiteral(data: seq<byte>, itr: nat) returns (r: LiteralRead)
      requires Valid() && itr < |data|
      ensures r == LiteralAt(data, itr, m_dynamic.m_queue)
    {
      hide Valid, ReadString, DecodedInt, LiteralName, Pow2;
      var index := DecodeInteger(data, itr, if data[itr] / 64 == 1 then 6 else 4);
      if index.Undefined? {
        return NoLiteral(Unspecified);
      }
      var n := ReadName(data, index.value, index.next);
      if !n.Read? {
        return NoLiteral(if n.Throws? then Thrown else Unspecified);
      }
      if n.next >= |data| {
        return NoLiteral(Unspecified);
      }
      var val := ParseString(data, n.next);
      if !val.Read? {
        return NoLiteral(if val.Throws? then Thrown else Unspecified);
      }
      return Literal(n.text, val.text, val.next);
    }
  }

  /** Lengths the decoder reads stay below 2^31, so no string is too long for the Huffman decoder. */
  lemma ShortEnough(data: seq<byte>, pos: nat)
    requires pos < |data|
    ensures DecodedInt(data, pos, 7).Int? ==> DecodedInt(data, pos, 7).value < INT_LIMIT
  {
    assert Pow2(7) == 128;
    RestBound(data, pos + 1, data[pos] % 128, 0);
  }

  lemma {:induction false} RestBound(data: seq<byte>, at: nat, i: nat, m: nat)
    requires m < 256 && i < INT_LIMIT
    ensures DecodedRest(data, at, i, m).Int? ==> DecodedRest(data, at, i, m).value < INT_LIMIT
    decreases |data| - at
  {
    if at < |data| {
      var sum := i + data[at] % 128 * Pow2(m);
      ProductOfNats(data[at] % 128, Pow2(m));
      if sum < INT_LIMIT {
        RestBound(data, at + 1, sum, (m + 7) % 256);
      }
    }
  }
}
