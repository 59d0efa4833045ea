/** The pointer tree that `huffman_tree_t` grows from the table and walks to decode. */
module HuffmanTree {
  import opened Bits
  import opened HuffmanTable
  import opened HuffmanCode
  import opened HuffmanCoder

  class Node {
    var left: Node?
    var right: Node?
    var code: int  // -1 unless a word ends here

    constructor ()
      ensures left == null && right == null && code == -1
    {
      left, right, code := null, null, -1;
    }

    function Child(bit: bool): Node?
      reads this
    {
      if bit then right else left
    }
  }

  /** The symbol below `n` whose word is `path`, or -1. */
  ghost function LabelBelow(path: BitString, n: nat): (code: int)
    requires n <= SYMBOLS
    ensures code != -1 ==> 0 <= code < n && Word(code) == path
    ensures code == -1 ==> forall i: nat :: i < n ==> Word(i) != path
  {
    if i: nat :| i < n && Word(i) == path then i else -1
  }

  /** `path` leads to a node once the symbols below `n` and the beginning `part` of a word are in. */
  ghost predicate Known(path: BitString, n: nat, part: BitString)
    requires n <= SYMBOLS
  {
    path <= part || exists i: nat :: i < n && path <= Word(i)
  }

  class Tree {
    var root: Node
    ghost var nodes: map<BitString, Node>  // every node of the tree, by the path that leads to it

    ghost function At(path: BitString): Node?
      reads this
    {
      if path in nodes then nodes[path] else null
    }

    ghost predicate Valid()
      reads this, nodes.Values
    {
      && [] in nodes && nodes[[]] == root
      && (forall p, q :: p in nodes && q in nodes && nodes[p] == nodes[q] ==> p == q)
      && (forall p, b :: p in nodes ==> nodes[p].Child(b) == At(p + [b]))
      && (forall p, b :: p + [b] in nodes ==> p in nodes)
    }

    /** The words of the symbols below `n`, and the beginning `part` of one more, are in the tree. */
    ghost predicate Holds(n: nat, part: BitString)
      reads this, nodes.Values
      requires n <= SYMBOLS
    {
      && (forall p :: p in nodes <==> Known(p, n, part))
      && (forall p :: p in nodes ==> nodes[p].code == LabelBelow(p, n))
    }

    constructor ()
      ensures Valid() && Holds(SYMBOLS, [])
      ensures fresh(nodes.Values)
    {
      hide Word;
      root := new Node();
      nodes := map[[] := root];
      new;
      Empty();
      InsertAll();
    }

    method InsertAll()
      requires Valid() && Holds(0, [])
      modifies this, nodes.Values
      ensures Valid() && Holds(SYMBOLS, [])
      ensures fresh(nodes.Values - old(nodes.Values))
    {
      hide Word, Known;
      for idx := 0 to SYMBOLS
        invariant Valid() && Holds(idx, [])
        invariant fresh(nodes.Values - old(nodes.Values))
      {
        Insert(idx);
      }
    }

    /** One round of the constructor's loop: adds the word of symbol `idx`. */
    method Insert(idx: nat)
      requires idx < SYMBOLS && Valid() && Holds(idx, [])
      modifies this, nodes.Values
      ensures Valid() && Holds(idx + 1, [])
      ensures fresh(nodes.Values - old(nodes.Values))
    {
      hide Word, Known, LabelBelow;
      var bits := Word(idx);
      var current := root;
      for k := 0 to |bits|
        invariant Valid() && Holds(idx, bits[..k])
        invariant fresh(nodes.Values - old(nodes.Values))
        invariant bits[..k] in nodes && nodes[bits[..k]] == current
      {
        current := DescendHolding(current, idx, bits, k);
      }
      assert bits[..|bits|] == bits;
      current.code := idx;
      KnownWord(idx);
      forall p | p in nodes ensures nodes[p].code == LabelBelow(p, idx + 1) {
        LabelStep(p, idx);
      }
    }

    method DescendHolding(current: Node, ghost idx: nat, bits: BitString, k: nat) returns (next: Node)
      requires idx < SYMBOLS && k < |bits|
      requires Valid() && Holds(idx, bits[..k]) && bits[..k] in nodes && nodes[bits[..k]] == current
      modifies this, current
      ensures Valid() && Holds(idx, bits[..k + 1])
      ensures bits[..k + 1] in nodes && nodes[bits[..k + 1]] == next
      ensures fresh(nodes.Values - old(nodes.Values))
    {
      hide Word, Valid, Known, LabelBelow;
      assert bits[..k] + [bits[k]] == bits[..k + 1];
      next := Descend(current, bits[k], bits[..k]);
      KnownLonger(idx, bits, k);
      forall p | p in nodes ensures nodes[p].code == LabelBelow(p, idx) {
        if p in old(nodes) {
          assert old(nodes[p].code) == LabelBelow(p, idx);
        }
      }
    }

    /** Moves to a child, creating it first if need be. */
    method Descend(current: Node, bit: bool, ghost path: BitString) returns (next: Node)
      requires Valid() && path in nodes && nodes[path] == current
      modifies this, current
      ensures Valid() && path + [bit] in nodes && nodes[path + [bit]] == next
      ensures nodes == old(nodes)[path + [bit] := next]
      ensures path + [bit] in old(nodes) ==> nodes == old(nodes)
      ensures path + [bit] !in old(nodes) ==> fresh(next) && next.code == -1
      ensures current.code == old(current.code)
    {
      ghost var longer := path + [bit];
      assert current.Child(bit) == At(longer);
      if current.Child(bit) == null {
        assert forall b :: longer + [b] !in nodes;
        var node := new Node();
        if bit {
          current.right := node;
        } else {
          current.left := node;
        }
        nodes := nodes[longer := node];
        forall p: BitString, b: bool | p + [b] == longer ensures p == path && b == bit {
          SnocUnique(p, b, path, bit);
        }
        assert forall b :: longer + [b] != longer;
        forall p, b | p in nodes ensures nodes[p].Child(b) == At(p + [b]) {
          if p == longer {
            assert At(p + [b]) == null;
          } else if p != path {
            assert nodes[p] != current;
            assert p + [b] != longer;
          } else if b != bit {
            assert p + [b] != longer;
          }
        }
      }
      next := if bit then current.right else current.left;
    }

    ghost predicate Arrived(current: Node, path: BitString)
      reads this, nodes.Values
    {
      path in nodes && nodes[path] == current
    }

    /** Follows one bit; at a word, writes its symbol and goes back to the root. */
    method Advance(current: Node, bit: bool, dst: seq<byte>, ghost path: BitString)
      returns (next: Node?, text: seq<byte>, ghost arrived: BitString)
      requires Valid() && Holds(SYMBOLS, []) && Arrived(current, path)
      ensures next == null <==> !IsNode(path + [bit])
      ensures next != null ==> Arrived(next, arrived)
      ensures next != null && IsWord(path + [bit]) ==> arrived == [] && text == dst + [SymbolOf(path + [bit]) % 256]
      ensures next != null && !IsWord(path + [bit]) ==> arrived == path + [bit] && text == dst
    {
      hide Word, Holds, IsNode, IsWord;
      NodeMeaning(path + [bit]);
      next, text, arrived := if bit then current.right else current.left, dst, path + [bit];
      assert next == current.Child(bit);
      if next != null && next.code >= 0 {
        text := dst + [next.code % 256];
        next, arrived := root, [];
      }
    }

    method Decode(src: seq<byte>) returns (result: Decoding)
      requires Valid() && Holds(SYMBOLS, [])
      ensures |src| > 0xFFFF_FFFF ==> result == InputTooLong
      ensures |src| <= 0xFFFF_FFFF ==> result == Walk(Unpack(src), [], [])
    {
      hide Word, Holds, Known, Remaining, IsNode, IsWord, Unpack, TestBit, ByteBits, Val, ToBits, Pow2, Walk;
      if |src| > 0xFFFF_FFFF {
        return InputTooLong;
      }
      var dst: seq<byte> := [];
      var current: Node := root;
      ghost var bits, path := Unpack(src), [];
      assert Remaining(bits, 0, [], []) == Walk(bits, [], []);
      for idx := 0 to |src|
        invariant Arrived(current, path)
        invariant Walk(bits, [], []) == Remaining(bits, 8 * idx, path, dst)
      {
        for j := 8 downto 0
          invariant Arrived(current, path)
          invariant Walk(bits, [], []) == Remaining(bits, 8 * idx + 8 - j, path, dst)
        {
          ghost var at := 8 * idx + 7 - j;
          UnpackAt(src, idx, 7 - j);
          ByteBitsTest(src[idx], j);
          RemainingStep(bits, at, path, dst);
          var next;
          next, dst, path := Advance(current, TestBit(src[idx], j), dst, path);
          if next == null {
            return NoSuchNode;
          }
          current := next;
        }
      }
      return Decoded(dst);
    }

    /** The finished tree is the code's tree: its nodes, and the words among them. */
    lemma NodeMeaning(path: BitString)
      requires Valid() && Holds(SYMBOLS, [])
      ensures path in nodes <==> IsNode(path)
      ensures path in nodes ==> nodes[path].code == SymbolOf(path)
    {
      hide Word;
      assert [] <= Word(0);
      var i, j := LabelBelow(path, SYMBOLS), SymbolOf(path);
      if i != -1 && j != -1 {
        PrefixFree(i, j);
      }
    }
  }

  /** What is still to be decoded from bit `at` on. */
  ghost function Remaining(bits: BitString, at: nat, path: BitString, text: seq<byte>): (r: Decoding)
    requires at <= |bits|
    ensures at == 0 && path == [] && text == [] ==> r == Walk(bits, [], [])
    ensures at == |bits| ==> r == Decoded(text)
  {
    assert bits[0..] == bits;
    Walk(bits[at..], path, text)
  }

  lemma RemainingStep(bits: BitString, at: nat, path: BitString, text: seq<byte>)
    requires at < |bits|
    ensures var next := path + [bits[at]];
            Remaining(bits, at, path, text)
            == if !IsNode(next) then NoSuchNode
               else if IsWord(next) then Remaining(bits, at + 1, [], text + [SymbolOf(next) % 256])
               else Remaining(bits, at + 1, next, text)
  {
    hide Word;
    assert bits[at..][0] == bits[at] && bits[at..][1..] == bits[at + 1..];
  }

  lemma KnownLonger(n: nat, bits: BitString, k: nat)
    requires n <= SYMBOLS && k < |bits|
    ensures forall p :: Known(p, n, bits[..k + 1]) <==> Known(p, n, bits[..k]) || p == bits[..k + 1]
    ensures !Known(bits[..k + 1], n, bits[..k]) ==> LabelBelow(bits[..k + 1], n) == -1
  {
    hide Word;
    forall p ensures Known(p, n, bits[..k + 1]) <==> Known(p, n, bits[..k]) || p == bits[..k + 1] {
      if p <= bits[..k + 1] && p != bits[..k + 1] {
        assert p == bits[..|p|];
      }
    }
  }

  lemma KnownWord(n: nat)
    requires n < SYMBOLS
    ensures forall p :: Known(p, n + 1, []) <==> Known(p, n, Word(n))
  {
    hide Word;
    forall p ensures Known(p, n + 1, []) <==> Known(p, n, Word(n)) {
      if Known(p, n, Word(n)) && p <= Word(n) {
        assert Known(p, n + 1, []);
      }
    }
  }

  lemma Empty()
    ensures forall p :: Known(p, 0, []) <==> p == []
    ensures LabelBelow([], 0) == -1
  {
  }

  lemma LabelStep(path: BitString, n: nat)
    requires n < SYMBOLS
    ensures LabelBelow(path, n + 1) == if Word(n) == path then n else LabelBelow(path, n)
  {
    hide Word;
    var i, j := LabelBelow(path, n + 1), LabelBelow(path, n);
    if i != -1 && Word(n) == path {
      PrefixFree(i, n);
    } else if i != -1 && j != -1 {
      PrefixFree(i, j);
    }
  }

  lemma SnocUnique(p: BitString, b: bool, q: BitString, c: bool)
    requires p + [b] == q + [c]
    ensures p == q && b == c
  {
    assert (p + [b])[..|p|] == p && (q + [c])[..|q|] == q;
    assert (p + [b])[|p|] == b && (q + [c])[|q|] == c;
  }
}
