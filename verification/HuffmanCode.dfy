/** The Huffman code as bit strings: no word is a prefix of another, and walking bits from the
    root never falls out of the code's tree. */
module HuffmanCode {
  import opened Bits
  import opened HuffmanTable

  /** The code word of a symbol. */
  function Word(symbol: nat): BitString
    requires symbol < SYMBOLS
  {
    ToBits(CodeOf(symbol).len, CodeOf(symbol).value)
  }

  /** `path` is a code word or the beginning of one: the node it leads to exists. */
  ghost predicate IsNode(path: BitString) {
    exists symbol: nat :: symbol < SYMBOLS && path <= Word(symbol)
  }

  ghost predicate IsWord(path: BitString) {
    exists symbol: nat :: symbol < SYMBOLS && Word(symbol) == path
  }

  // ----- the canonical code, by length and value -----

  lemma FirstStep(len: nat)
    requires len < LONGEST
    ensures First(len + 1) == 2 * (First(len) + Count(len))
  {
  }

  lemma CanonicalRange(rank: nat)
    requires rank < SYMBOLS
    ensures var c := Canonical(rank);
            && 0 < c.len <= LONGEST
            && First(c.len) <= c.value < First(c.len) + Count(c.len)
            && rank == Offset(c.len) + c.value - First(c.len)
  {
  }

  lemma CanonicalOf(len: nat, value: nat)
    requires len <= LONGEST && First(len) <= value < First(len) + Count(len)
    ensures var rank := Offset(len) + value - First(len);
            rank < SYMBOLS && Canonical(rank) == Codeword(len, value)
  {
  }

  /** The code is canonical: in the order of their lengths every word is the one before it plus one, followed by zeros
      up to its own length; the first is zero. */
  lemma NextWord(rank: nat)
    requires rank + 1 < SYMBOLS
    ensures SymbolAt(rank) < SYMBOLS && SymbolAt(rank + 1) < SYMBOLS
    ensures var c, d := CodeOf(SymbolAt(rank)), CodeOf(SymbolAt(rank + 1));
            && c.len <= d.len && d.value == (c.value + 1) * Pow2(d.len - c.len)
            && (rank == 0 ==> c == Codeword(5, 0))
  {
    hide CodeOf, Pow2, Canonical, SymbolAt, IsNext;
    TableIsCanonical(rank);
    TableIsCanonical(rank + 1);
    NextCanonical(rank);
    NextByLength(Canonical(rank), Canonical(rank + 1));
  }

  /** Zero, one, two or four bits longer, as the lengths of the table differ. */
  predicate IsNext(c: Codeword, d: Codeword) {
    || (d.len == c.len && d.value == c.value + 1)
    || (d.len == c.len + 1 && d.value == (c.value + 1) * 2)
    || (d.len == c.len + 2 && d.value == (c.value + 1) * 4)
    || (d.len == c.len + 4 && d.value == (c.value + 1) * 16)
  }

  lemma NextByLength(c: Codeword, d: Codeword)
    requires IsNext(c, d)
    ensures c.len <= d.len && d.value == (c.value + 1) * Pow2(d.len - c.len)
  {
    hide Pow2;
    Pow2UpTo4();
  }

  lemma NextCanonical(rank: nat)
    requires rank + 1 < SYMBOLS
    ensures IsNext(Canonical(rank), Canonical(rank + 1))
    ensures rank == 0 ==> Canonical(rank) == Codeword(5, 0)
  {
  }

  lemma Pow2UpTo4()
    ensures Pow2(0) == 1 && Pow2(1) == 2 && Pow2(2) == 4 && Pow2(4) == 16
  {
  }

  lemma FullAt(len: nat)
    requires len <= LONGEST
    ensures First(len) + Count(len) <= Pow2(len)
    ensures First(len) + Count(len) == Pow2(len) <==> len == LONGEST
    decreases LONGEST - len
  {
    hide Pow2, Offset;
    if len < LONGEST {
      FullAt(len + 1);
      hide First, Count;
      FirstStep(len);
      Pow2Step(len);
    } else {
      Pow2At30();
    }
  }

  lemma Pow2Step(n: nat)
    ensures Pow2(n + 1) == 2 * Pow2(n)
  {
  }

  lemma Pow2At30()
    ensures Pow2(30) == 0x4000_0000
  {
    hide Pow2;
    Pow2At6();
    Pow2Plus8(6);
    Pow2Plus8(14);
    Pow2Plus8(22);
  }

  lemma Pow2At6()
    ensures Pow2(6) == 64
  {
  }

  // ----- the same facts about bit strings -----

  /** Some word is a prefix of `path`. */
  predicate Settled(path: BitString) {
    Val(path) < First(|path|) + Count(|path|)
  }

  /** Some word is a proper prefix of `path`. */
  predicate Passed(path: BitString) {
    Val(path) < First(|path|)
  }

  lemma WordRange(symbol: nat) returns (rank: nat)
    requires symbol < SYMBOLS
    ensures rank < SYMBOLS && SymbolAt(rank) == symbol
    ensures 0 < |Word(symbol)| <= LONGEST && rank == Offset(|Word(symbol)|) + Val(Word(symbol)) - First(|Word(symbol)|)
    ensures Settled(Word(symbol)) && !Passed(Word(symbol))
  {
    rank := RankOf(symbol);
    TableIsCanonical(rank);
    CanonicalRange(rank);
    var c := Canonical(rank);
    FullAt(c.len);
    ValToBits(c.len, c.value);
  }

  /** The symbols are permuted by `SymbolAt`: an injection of 0..256 into itself is onto. */
  lemma RankOf(symbol: nat) returns (rank: nat)
    requires symbol < SYMBOLS
    ensures rank < SYMBOLS && SymbolAt(rank) == symbol
  {
    var image := ImageOf(SYMBOLS);
    Below(image, SYMBOLS);
    assert symbol in image;
    rank :| rank < SYMBOLS && SymbolAt(rank) == symbol;
  }

  lemma ImageOf(n: nat) returns (image: set<nat>)
    requires n <= SYMBOLS
    ensures |image| == n && forall s :: s in image ==> s < SYMBOLS
    ensures forall s :: s in image <==> exists r: nat :: r < n && SymbolAt(r) == s
  {
    image := {};
    for i := 0 to n
      invariant |image| == i && forall s :: s in image ==> s < SYMBOLS
      invariant forall s :: s in image <==> exists r: nat :: r < i && SymbolAt(r) == s
    {
      forall r: nat | r < i ensures SymbolAt(r) != SymbolAt(i) {
        SymbolsDiffer(r, i);
      }
      TableIsCanonical(i);
      image := image + {SymbolAt(i)};
    }
  }

  lemma SymbolsDiffer(r: nat, i: nat)
    requires r < i < SYMBOLS
    ensures SymbolAt(r) != SymbolAt(i)
  {
    TableIsCanonical(r);
    TableIsCanonical(i);
    CanonicalRange(r);
    CanonicalRange(i);
  }

  lemma {:induction false} Below(s: set<nat>, n: nat)
    requires |s| == n && forall x :: x in s ==> x < n
    ensures forall x: nat :: x < n ==> x in s
  {
    if n > 0 {
      if n - 1 in s {
        Below(s - {n - 1}, n - 1);
      } else {
        BelowSize(s, n - 1);
      }
    }
  }

  lemma {:induction false} BelowSize(s: set<nat>, n: nat)
    requires forall x :: x in s ==> x < n
    ensures |s| <= n
  {
    if n == 0 {
      assert s == {};
    } else {
      BelowSize(s - {n - 1}, n - 1);
    }
  }

  /** Every settled string that has not passed a word is one. */
  lemma SettledIsWord(path: BitString) returns (symbol: nat)
    requires |path| <= LONGEST && Settled(path) && !Passed(path)
    ensures symbol < SYMBOLS && Word(symbol) == path
  {
    CanonicalOf(|path|, Val(path));
    var rank := Offset(|path|) + Val(path) - First(|path|);
    TableIsCanonical(rank);
    symbol := SymbolAt(rank);
    ToBitsVal(path);
  }

  lemma StepSettled(path: BitString, b: bool)
    requires |path| < LONGEST
    ensures Passed(path + [b]) <==> Settled(path)
  {
    ValSnoc(path, b);
    FirstStep(|path|);
  }

  /** Bits after a word only move further past it. */
  lemma {:induction false} ExtensionPassed(path: BitString, longer: BitString)
    requires path < longer && |longer| <= LONGEST && Settled(path)
    ensures Passed(longer)
    decreases |longer|
  {
    var front, last := longer[..|longer| - 1], longer[|longer| - 1];
    assert longer == front + [last];
    StepSettled(front, last);
    if path != front {
      ExtensionPassed(path, front);
    }
  }

  /** No word is a prefix of another one (and no two symbols share a word). */
  lemma PrefixFree(i: nat, j: nat)
    requires i < SYMBOLS && j < SYMBOLS && Word(i) <= Word(j)
    ensures i == j
  {
    var ri := WordRange(i);
    var rj := WordRange(j);
    if Word(i) < Word(j) {
      ExtensionPassed(Word(i), Word(j));
    } else {
      assert Word(i) == Word(j);
      SameWordSameSymbol(i, j, ri, rj);
    }
  }

  lemma SameWordSameSymbol(i: nat, j: nat, ri: nat, rj: nat)
    requires ri < SYMBOLS && rj < SYMBOLS && SymbolAt(ri) == i && SymbolAt(rj) == j
    requires i < SYMBOLS && j < SYMBOLS && Word(i) == Word(j)
    ensures i == j
  {
    TableIsCanonical(ri);
    TableIsCanonical(rj);
    CanonicalRange(ri);
    CanonicalRange(rj);
    FullAt(CodeOf(i).len);
    ValToBits(CodeOf(i).len, CodeOf(i).value);
    ValToBits(CodeOf(j).len, CodeOf(j).value);
  }

  /** The tree is complete: a node that is not a word has both children. */
  lemma NodeIsComplete(path: BitString, b: bool)
    requires IsNode(path) && !IsWord(path)
    ensures IsNode(path + [b])
  {
    var symbol: nat :| symbol < SYMBOLS && path <= Word(symbol);
    var _ := WordRange(symbol);
    assert path < Word(symbol);
    if Settled(path) {
      ExtensionPassed(path, Word(symbol));
    }
    StepSettled(path, b);
    UnpassedIsNode(path + [b]);
  }

  /** A string that has not passed a word can be continued to one. */
  lemma {:induction false} UnpassedIsNode(path: BitString)
    requires |path| <= LONGEST && !Passed(path)
    ensures IsNode(path)
    decreases LONGEST - |path|
  {
    ValBound(path);
    FullAt(|path|);
    if Settled(path) {
      var symbol := SettledIsWord(path);
      assert path <= Word(symbol);
    } else {
      StepSettled(path, false);
      UnpassedIsNode(path + [false]);
      var symbol: nat :| symbol < SYMBOLS && path + [false] <= Word(symbol);
      assert path <= Word(symbol);
    }
  }

  /** Seven or fewer one-bits lead to a node that is no word. */
  lemma PaddingIsNoWord(n: nat)
    requires n < 8
    ensures IsNode(Ones(n)) && !IsWord(Ones(n))
  {
    OnesUnsettled(n);
    UnpassedIsNode(Ones(n));
    if symbol: nat :| symbol < SYMBOLS && Word(symbol) == Ones(n) {
      var _ := WordRange(symbol);
    }
  }

  lemma {:induction false} OnesUnsettled(n: nat)
    requires n < 8
    ensures Val(Ones(n)) == Pow2(n) - 1 && !Settled(Ones(n))
  {
    if n > 0 {
      OnesUnsettled(n - 1);
      assert Ones(n) == Ones(n - 1) + [true];
      ValSnoc(Ones(n - 1), true);
    }
    FullAt(n);
  }
}
