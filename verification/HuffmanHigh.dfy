/** Bytes of 128 and above in coded strings: their code words are so long that each covers a byte of ones. */
module HuffmanHigh {
  import opened Bits
  import opened HuffmanTable
  import opened HuffmanCode
  import opened HuffmanCoder

  /** How many bytes are 128 or above. */
  function High(s: seq<byte>): nat {
    if s == [] then 0 else (if s[0] >= 128 then 1 else 0) + High(s[1..])
  }

  lemma {:induction false} HighConcat(a: seq<byte>, b: seq<byte>)
    ensures High(a + b) == High(a) + High(b)
  {
    if a == [] {
      assert a + b == b;
    } else {
      assert (a + b)[1..] == a[1..] + b;
      HighConcat(a[1..], b);
    }
  }

  /** The first byte that begins at bit `m` or later. */
  function ByteFrom(m: nat): nat {
    (m + 7) / 8
  }

  lemma {:induction false} LongFirst(len: nat)
    requires 19 <= len <= LONGEST
    ensures First(len) >= Pow2(len) - Pow2(len - 15)
  {
    hide First, Count, Pow2;
    if len == 19 {
      FirstOf19();
    } else {
      LongFirst(len - 1);
      FirstStep(len - 1);
      Pow2Step(len - 1);
      Pow2Step(len - 16);
    }
  }

  lemma FirstOf19()
    ensures First(19) >= Pow2(19) - Pow2(4)
  {
    hide Pow2;
    Pow2At3();
    Pow2Plus8(3);
    Pow2Plus8(11);
  }

  lemma Pow2At3()
    ensures Pow2(3) == 8 && Pow2(4) == 16
  {
  }

  /** A byte from 128 on has a word that begins with fifteen ones. */
  lemma HighWord(symbol: nat)
    requires 128 <= symbol < 256
    ensures |Word(symbol)| >= 19 && Word(symbol)[..15] == Ones(15)
  {
    hide CodeOf, First, Count, Pow2, Val, ToBits, Canonical, SymbolAt;
    var _ := WordRange(symbol);
    HighIsLong(symbol);
    var word := Word(symbol);
    LongFirst(|word|);
    TopBits(word);
  }

  lemma HighIsLong(symbol: nat)
    requires 128 <= symbol < 256
    ensures CodeOf(symbol).len >= 19
  {
  }

  lemma TopBits(bits: BitString)
    requires |bits| >= 15 && Val(bits) >= Pow2(|bits|) - Pow2(|bits| - 15)
    ensures bits[..15] == Ones(15)
  {
    hide Val, Pow2;
    var top, rest := bits[..15], bits[15..];
    assert bits == top + rest;
    ValConcat(top, rest);
    ValBound(top);
    ValBound(rest);
    Pow2Add(15, |rest|);
    OneLess(Pow2(15), Pow2(|rest|));
    TopIsLargest(Val(top), Pow2(15) - 1 - Val(top), Pow2(|rest|), Val(rest));
    ValOnes(15);
    ValInjective(top, Ones(15));
  }

  lemma OneLess(n: nat, unit: nat)
    requires n > 0
    ensures n * unit - unit == (n - 1) * unit
  {
  }

  lemma TopIsLargest(top: nat, missing: nat, unit: nat, rest: nat)
    requires rest < unit && top * unit + rest >= (top + missing) * unit
    ensures missing == 0
  {
    assert (top + missing) * unit == top * unit + missing * unit;
    MulSmall(unit, missing, unit * missing);
  }

  /** Fifteen ones from bit `m` on cover a byte. */
  lemma OnesCoverByte(p: seq<byte>, m: nat)
    requires m + 15 <= 8 * |p| && Unpack(p)[m..m + 15] == Ones(15)
    ensures ByteFrom(m) < |p| && p[ByteFrom(m)] >= 128
  {
    hide Unpack, ByteBits, TestBit;
    var j := ByteFrom(m);
    UnpackAt(p, j, 0);
    assert Unpack(p)[8 * j] == Unpack(p)[m..m + 15][8 * j - m];
    ByteBitsTest(p[j], 7);
    FirstBit(p[j]);
  }

  lemma FirstBit(x: byte)
    ensures TestBit(x, 7) <==> x >= 128
  {
    assert Pow2(7) == 128;
  }

  lemma {:induction false} HighFrom(p: seq<byte>, i: nat, j: nat)
    requires i <= j <= |p|
    ensures High(p[j..]) <= High(p[i..])
    ensures i < j && p[i] >= 128 ==> High(p[j..]) < High(p[i..])
    decreases j - i
  {
    if i < j {
      assert p[i..][1..] == p[i + 1..];
      HighFrom(p, i + 1, j);
    }
  }

  /** Reading on from bit `n`, in a word that began at bit `m`: every high byte still to be written is paid for by
      a high byte still to be read. */
  lemma {:induction false} WalkHigh(p: seq<byte>, m: nat, n: nat, text: seq<byte>)
    requires m <= n <= 8 * |p|
    ensures var w := Walk(Unpack(p)[n..], Unpack(p)[m..n], text);
            w.Decoded? ==> High(w.text) <= High(text) + High(p[ByteFrom(m)..])
    decreases 8 * |p| - n
  {
    hide *;
    var bits := Unpack(p);
    WalkStep(bits, m, n, text);
    ByteOrder(m, n, |p|);
    if n < |bits| {
      var next := bits[m..n + 1];
      if IsNode(next) && IsWord(next) {
        WordCounts(p, m, n + 1, text);
        WalkHigh(p, n + 1, n + 1, text + [SymbolOf(next) % 256]);
      } else if IsNode(next) {
        WalkHigh(p, m, n + 1, text);
      }
    }
  }

  /** The byte of a word that has been read is paid for. */
  lemma WordCounts(p: seq<byte>, m: nat, n: nat, text: seq<byte>)
    requires m <= n <= 8 * |p| && IsWord(Unpack(p)[m..n])
    ensures ByteFrom(m) <= |p| && ByteFrom(n) <= |p|
    ensures High(text + [SymbolOf(Unpack(p)[m..n]) % 256]) + High(p[ByteFrom(n)..]) <= High(text) + High(p[ByteFrom(m)..])
  {
    hide Unpack, High, ByteFrom, Word, IsWord;
    var symbol := SymbolOf(Unpack(p)[m..n]);
    WordPays(p, m, n, symbol);
    HighSnoc(text, symbol % 256);
  }

  /** One bit of the walk, by positions. */
  lemma WalkStep(bits: BitString, m: nat, n: nat, text: seq<byte>)
    requires m <= n <= |bits|
    ensures var w := Walk(bits[n..], bits[m..n], text);
            w == if n == |bits| then Decoded(text)
                 else
                   var next := bits[m..n + 1];
                   if !IsNode(next) then NoSuchNode
                   else if IsWord(next) then Walk(bits[n + 1..], bits[n + 1..n + 1], text + [SymbolOf(next) % 256])
                   else Walk(bits[n + 1..], next, text)
  {
    hide IsWord, IsNode, SymbolOf;
    if n < |bits| {
      assert bits[n..][1..] == bits[n + 1..] && bits[m..n] + [bits[n]] == bits[m..n + 1] && bits[n + 1..n + 1] == [];
    }
  }

  lemma HighSnoc(s: seq<byte>, x: byte)
    ensures High(s + [x]) == High(s) + if x >= 128 then 1 else 0
  {
    HighConcat(s, [x]);
    assert [x][1..] == [];
  }

  lemma WordPays(p: seq<byte>, m: nat, n: nat, symbol: nat)
    requires m <= n <= 8 * |p| && symbol < SYMBOLS && Unpack(p)[m..n] == Word(symbol)
    ensures ByteFrom(m) <= |p| && ByteFrom(n) <= |p| && High(p[ByteFrom(n)..]) <= High(p[ByteFrom(m)..])
    ensures 128 <= symbol < 256 ==> High(p[ByteFrom(n)..]) < High(p[ByteFrom(m)..])
  {
    hide Unpack, High, Word, Ones, ByteFrom;
    ByteOrder(m, n, |p|);
    HighFrom(p, ByteFrom(m), ByteFrom(n));
    if 128 <= symbol < 256 {
      HighWordCovers(p, m, n, symbol);
    }
  }

  lemma HighWordCovers(p: seq<byte>, m: nat, n: nat, symbol: nat)
    requires m <= n <= 8 * |p| && 128 <= symbol < 256 && Unpack(p)[m..n] == Word(symbol)
    ensures m + 15 <= n && ByteFrom(m) < |p| && p[ByteFrom(m)] >= 128
  {
    hide Unpack, Word, Ones, ByteFrom;
    HighWord(symbol);
    assert Unpack(p)[m..m + 15] == Unpack(p)[m..n][..15];
    OnesCoverByte(p, m);
  }

  lemma ByteOrder(m: nat, n: nat, k: nat)
    requires m <= n <= 8 * k
    ensures ByteFrom(m) <= ByteFrom(n) <= k && (m + 15 <= n ==> ByteFrom(m) < ByteFrom(n))
  {
  }

  /** Decoding adds no high bytes. */
  lemma DecodedHigh(p: seq<byte>)
    ensures var w := Walk(Unpack(p), [], []); w.Decoded? ==> High(w.text) <= High(p)
  {
    WalkHigh(p, 0, 0, []);
    assert Unpack(p)[0..] == Unpack(p) && p[0..] == p;
  }
}
