/** Huffman encoding of strings and the tree that undoes it. */
module HuffmanCoder {
  import opened Bits
  import opened HuffmanTable
  import opened HuffmanCode

  // ----- what encoding and decoding mean, on bit strings -----

  /** The code words of `s`, one after the other. */
  function EncodedBits(s: seq<byte>): BitString {
    if s == [] then [] else EncodedBits(s[..|s| - 1]) + Word(s[|s| - 1])
  }

  function PaddingLength(bits: BitString): (n: nat)
    ensures n < 8 && (|bits| + n) % 8 == 0
  {
    if |bits| % 8 == 0 then 0 else 8 - |bits| % 8
  }

  /** `bits` filled up to a whole number of bytes with one-bits. */
  function Padded(bits: BitString): (r: BitString)
    ensures |r| % 8 == 0 && bits <= r
  {
    bits + Ones(PaddingLength(bits))
  }

  /** The encoding of `s`: the bytes that hold its padded code words. */
  function Encoded(s: seq<byte>): (r: seq<byte>)
    ensures Unpack(r) == Padded(EncodedBits(s))
  {
    Pack(Padded(EncodedBits(s)))
  }

  datatype Decoding = Decoded(text: seq<byte>) | NoSuchNode | InputTooLong

  /** The symbol of a word; -1, as in a fresh tree node, for any other path. */
  ghost function SymbolOf(path: BitString): (code: int)
    ensures IsWord(path) ==> 0 <= code < SYMBOLS && Word(code) == path
    ensures !IsWord(path) ==> code == -1
  {
    if IsWord(path) then var symbol: nat :| symbol < SYMBOLS && Word(symbol) == path; symbol else -1
  }

  /** Reads `bits` from the node at `path`, having written `text` already. */
  ghost function Walk(bits: BitString, path: BitString, text: seq<byte>): Decoding
    decreases |bits|
  {
    if bits == [] then Decoded(text)
    else
      var next := path + [bits[0]];
      if !IsNode(next) then NoSuchNode
      else if IsWord(next) then Walk(bits[1..], [], text + [SymbolOf(next) % 256])
      else Walk(bits[1..], next, text)
  }

  // ----- theorems -----

  lemma SymbolOfWord(symbol: nat)
    requires symbol < SYMBOLS
    ensures SymbolOf(Word(symbol)) == symbol
  {
    assert IsWord(Word(symbol));
    PrefixFree(SymbolOf(Word(symbol)), symbol);
  }

  /** Bits that stay short of a word only move the walk along. */
  lemma {:induction false} WalkAlong(part: BitString, rest: BitString, path: BitString, text: seq<byte>)
    requires IsNode(path + part)
    requires forall k :: |path| < k <= |path + part| ==> !IsWord((path + part)[..k])
    ensures Walk(part + rest, path, text) == Walk(rest, path + part, text)
    decreases |part|
  {
    hide Word;
    if part == [] {
      assert part + rest == rest && path + part == path;
    } else {
      var next := path + [part[0]];
      assert next + part[1..] == path + part;
      NodePrefix(next, path + part);
      assert next == (path + part)[..|next|];
      assert (part + rest)[1..] == part[1..] + rest;
      WalkAlong(part[1..], rest, next, text);
    }
  }

  lemma NodePrefix(path: BitString, longer: BitString)
    requires path <= longer && IsNode(longer)
    ensures IsNode(path)
  {
    var symbol: nat :| symbol < SYMBOLS && longer <= Word(symbol);
    assert path <= Word(symbol);
  }

  lemma NoWordInside(symbol: nat, path: BitString)
    requires symbol < SYMBOLS && path <= Word(symbol) && |path| < |Word(symbol)|
    ensures !IsWord(path)
  {
    hide Word;
    if IsWord(path) {
      PrefixFree(SymbolOf(path), symbol);
    }
  }

  /** Reading a whole word from the root writes its symbol and returns to the root. */
  lemma WalkWord(symbol: nat, rest: BitString, text: seq<byte>)
    requires symbol < SYMBOLS
    ensures Walk(Word(symbol) + rest, [], text) == Walk(rest, [], text + [symbol % 256])
  {
    hide Word, IsWord, SymbolOf, Walk;
    var word := Word(symbol);
    var _ := WordRange(symbol);
    var front, last := word[..|word| - 1], word[|word| - 1];
    assert word == front + [last];
    forall k | 0 < k <= |front| ensures !IsWord(([] + front)[..k]) {
      assert ([] + front)[..k] == word[..k];
      NoWordInside(symbol, word[..k]);
    }
    assert [] + front == front <= word;
    WalkAlong(front, [last] + rest, [], text);
    assert word + rest == front + ([last] + rest);
    LastBit(symbol, front, last, rest, text);
  }

  /** The last bit of a word. */
  lemma LastBit(symbol: nat, front: BitString, last: bool, rest: BitString, text: seq<byte>)
    requires symbol < SYMBOLS && front + [last] == Word(symbol)
    ensures Walk([last] + rest, front, text) == Walk(rest, [], text + [symbol % 256])
  {
    hide Word;
    SymbolOfWord(symbol);
    assert ([last] + rest)[1..] == rest;
    assert Word(symbol) <= Word(symbol);
  }

  lemma {:induction false} WalkWords(s: seq<byte>, rest: BitString)
    ensures Walk(EncodedBits(s) + rest, [], []) == Walk(rest, [], s)
  {
    hide Word;
    if s == [] {
      assert EncodedBits(s) + rest == rest;
    } else {
      var front, last := s[..|s| - 1], s[|s| - 1];
      assert EncodedBits(s) + rest == EncodedBits(front) + (Word(last) + rest);
      WalkWords(front, Word(last) + rest);
      WalkWord(last, rest, front);
      assert front + [last % 256] == s;
    }
  }

  /** Decoding undoes encoding, padding included. */
  lemma DecodeUndoesEncode(s: seq<byte>)
    ensures Walk(Unpack(Encoded(s)), [], []) == Decoded(s)
  {
    var pad := Ones(PaddingLength(EncodedBits(s)));
    WalkWords(s, pad);
    PaddingIsNoWord(|pad|);
    forall k | 0 < k <= |pad| ensures !IsWord(([] + pad)[..k]) {
      assert ([] + pad)[..k] == Ones(k);
      PaddingIsNoWord(k);
    }
    assert [] + pad == pad;
    WalkAlong(pad, [], [], s);
    assert pad + [] == pad;
  }

  /** No input whatever makes the decoder miss a child: the code's tree is complete. */
  lemma {:induction false} DecodeNeverFails(bits: BitString, path: BitString, text: seq<byte>)
    requires IsNode(path) && !IsWord(path)
    ensures Walk(bits, path, text).Decoded?
    decreases |bits|
  {
    if bits != [] {
      NodeIsComplete(path, bits[0]);
      var next := path + [bits[0]];
      if IsWord(next) {
        PaddingIsNoWord(0);
        assert Ones(0) == [];
        DecodeNeverFails(bits[1..], [], text + [SymbolOf(next) % 256]);
      } else {
        DecodeNeverFails(bits[1..], next, text);
      }
    }
  }

  // ----- the encoder -----

  /** `huffman_encoder_t`: bits collect in `m_byte`, `m_count` of its bits are still free. */
  class HuffmanEncoder {
    var m_byte: byte
    var m_count: nat

    ghost predicate Idle()
      reads this
    {
      m_byte == 0 && m_count == 8
    }

    /** `pending` are the bits written since the last full byte; one shift is already done. */
    ghost predicate Holds(pending: BitString)
      reads this
    {
      |pending| < 8 && m_count == 8 - |pending| && m_byte == 2 * Val(pending)
    }

    constructor ()
      ensures Idle()
    {
      m_byte, m_count := 0, 8;
    }

    method WriteBit(bit: bool, ghost pending: BitString) returns (full: bool)
      requires Holds(pending)
      modifies this
      ensures full <==> |pending| == 7
      ensures full ==> m_count == 8 && m_byte == Val(pending + [bit])
      ensures !full ==> Holds(pending + [bit])
    {
      ValSnoc(pending, bit);
      ValBound(pending + [bit]);
      Pow2Small();
      m_byte := OrLowBit(m_byte, bit);
      m_count := m_count - 1;
      if m_count == 0 {
        m_count := 8;
        return true;
      }
      m_byte := m_byte * 2 % 256;
      return false;
    }

    method Encode(src: seq<byte>) returns (ret: seq<byte>)
      requires Idle()
      modifies this
      ensures Idle()
      ensures ret == Encoded(src)
    {
      hide Word, Collected, Unpack, Val, ToBits, Pow2, SetLowBits, Padded;
      ret := [];
      ghost var pending: BitString := [];
      CollectNothing();
      for i := 0 to |src|
        invariant Holds(pending)
        invariant Collected(ret, pending, EncodedBits(src[..i]))
      {
        var bits := Word(src[i]);
        assert EncodedBits(src[..i]) + bits[..0] == EncodedBits(src[..i]);
        for k := 0 to |bits|
          invariant Holds(pending)
          invariant Collected(ret, pending, EncodedBits(src[..i]) + bits[..k])
        {
          CollectBit(ret, pending, EncodedBits(src[..i]), bits, k);
          var full := WriteBit(bits[k], pending);
          pending := pending + [bits[k]];
          if full {
            ret := ret + [m_byte];
            m_byte, m_count := 0, 8;
            pending := [];
          }
        }
        assert src[..i + 1][..i] == src[..i] && bits[..|bits|] == bits;
      }
      assert src[..|src|] == src;
      ret := Flush(ret, pending, EncodedBits(src));
      UnpackInjective(ret, Encoded(src));
    }

    /** The last step of `encode`: what is left of the last byte is filled with ones. */
    method Flush(written: seq<byte>, ghost pending: BitString, ghost bits: BitString) returns (ret: seq<byte>)
      requires Holds(pending) && Collected(written, pending, bits)
      modifies this
      ensures Idle() && Unpack(ret) == Padded(bits)
    {
      hide Collected, Unpack, Val, Pow2, SetLowBits, Padded;
      CollectNothing();
      ret := written;
      CollectPadding(ret, pending, bits);
      if m_count != 8 && m_count != 0 {
        m_byte := m_byte * Pow2(m_count - 1) % 256;
        m_byte := SetLowBits(m_byte, m_count);
        ret := ret + [m_byte];
        m_byte, m_count := 0, 8;
      }
    }
  }

  /** The bytes in `ret` and the `pending` bits make up `bits`. */
  ghost predicate Collected(ret: seq<byte>, pending: BitString, bits: BitString) {
    Unpack(ret) + pending == bits
  }

  lemma CollectNothing()
    ensures Collected([], [], EncodedBits([])) && Val([]) == 0
  {
  }

  lemma CollectBit(ret: seq<byte>, pending: BitString, done: BitString, word: BitString, k: nat)
    requires k < |word| && |pending| < 8 && Collected(ret, pending, done + word[..k])
    ensures var more := pending + [word[k]];
            && Collected(ret, more, done + word[..k + 1])
            && (|more| == 8 ==> Val(more) < 256 && Collected(ret + [Val(more)], [], done + word[..k + 1]))
  {
    var more := pending + [word[k]];
    assert Unpack(ret) + more == (Unpack(ret) + pending) + [word[k]];
    assert done + word[..k + 1] == (done + word[..k]) + [word[k]];
    if |more| == 8 {
      UnpackByte(ret, more);
      assert Unpack(ret + [Val(more)]) + [] == Unpack(ret + [Val(more)]);
    }
  }

  /** What the final step of `Encode` appends. */
  lemma CollectPadding(ret: seq<byte>, pending: BitString, bits: BitString)
    requires |pending| < 8 && Collected(ret, pending, bits)
    ensures pending == [] ==> Unpack(ret) == Padded(bits)
    ensures pending != [] ==>
              var n := 8 - |pending|;
              && 2 * Val(pending) < 256 && 2 * Val(pending) * Pow2(n - 1) < 256
              && var last := SetLowBits(2 * Val(pending) * Pow2(n - 1), n);
              last < 256 && Unpack(ret + [last]) == Padded(bits)
  {
    hide SetLowBits, Val, Pow2, ToBits, Unpack;
    if pending == [] {
      assert bits + Ones(0) == bits == Unpack(ret);
    } else {
      var n := 8 - |pending|;
      PadByte(pending, n);
      assert |bits| == 8 * |ret| + |pending|;
      assert n == PaddingLength(bits);
      UnpackByte(ret, pending + Ones(n));
      assert Unpack(ret) + (pending + Ones(n)) == bits + Ones(n);
    }
  }

  lemma Pow2Small()
    ensures Pow2(8) == 256 && Pow2(7) == 128
    ensures forall n: nat :: n <= 7 ==> Pow2(n) <= 128
  {
    forall n: nat | n <= 7 ensures Pow2(n) <= 128 {
      assert n == 0 || n == 1 || n == 2 || n == 3 || n == 4 || n == 5 || n == 6 || n == 7;
    }
  }

  /** `x | bit`. */
  function OrLowBit(x: byte, bit: bool): byte {
    if bit && x % 2 == 0 then x + 1 else x
  }

  /** `x` with its `n` low bits set, which is `x | (0xFF >> (8 - n))` for a byte. */
  function SetLowBits(x: nat, n: nat): nat {
    if n == 0 then x else 2 * SetLowBits(x / 2, n - 1) + 1
  }

  /** Shifting in `n` zeros and setting them appends `n` one-bits. */
  lemma {:induction false} SetLowBitsAppendsOnes(bits: BitString, n: nat)
    ensures SetLowBits(Val(bits) * Pow2(n), n) == Val(bits + Ones(n))
  {
    if n == 0 {
      assert bits + Ones(0) == bits;
    } else {
      assert bits + Ones(n) == (bits + Ones(n - 1)) + [true];
      ValSnoc(bits + Ones(n - 1), true);
      Pow2Doubles(n - 1);
      hide Pow2, Val;
      Doubling(Val(bits), Pow2(n - 1));
      SetLowBitsAppendsOnes(bits, n - 1);
    }
  }

  lemma PadByte(pending: BitString, n: nat)
    requires 0 < n && |pending| + n == 8
    ensures 2 * Val(pending) < 256 && 2 * Val(pending) * Pow2(n - 1) == Val(pending) * Pow2(n) < 256
    ensures SetLowBits(Val(pending) * Pow2(n), n) == Val(pending + Ones(n)) < 256
  {
    SetLowBitsAppendsOnes(pending, n);
    ValBound(pending + Ones(n));
    ValBound(pending);
    Pow2Small();
    Pow2Add(|pending|, n);
    ShiftBound(Val(pending), Pow2(|pending|), Pow2(n));
    TwiceAndHalf(Val(pending), Pow2(n - 1));
  }

  lemma ShiftBound(v: nat, limit: nat, factor: nat)
    requires v < limit && factor > 0
    ensures v * factor < limit * factor
  {
  }

  lemma TwiceAndHalf(v: nat, half: nat)
    ensures 2 * v * half == v * (2 * half)
  {
  }
}
