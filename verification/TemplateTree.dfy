/** Blocks of the template engine: dictionaries, rendering, deep copies and repetition. */
module TemplateTree {

  // ----- dictionaries -----

  type Properties = seq<(string, string)>

  /** `Dictionary::find`: the value of the first pair with the name, or nothing. */
  function Find(ps: Properties, name: string): string {
    if ps == [] then "" else if ps[0].0 == name then ps[0].1 else Find(ps[1..], name)
  }

  /** `Dictionary::set` */
  function SetIn(ps: Properties, name: string, value: string): (r: Properties)
    ensures |ps| <= |r| <= |ps| + 1
  {
    if ps == [] then [(name, value)]
    else if ps[0].0 == name then [(name, value)] + ps[1..]
    else [ps[0]] + SetIn(ps[1..], name, value)
  }

  /** What is set is found; every other name is found as before. */
  lemma {:induction false} FindAfterSet(ps: Properties, name: string, value: string, other: string)
    ensures Find(SetIn(ps, name, value), other) == if other == name then value else Find(ps, other)
  {
    if ps != [] && ps[0].0 != name {
      FindAfterSet(ps[1..], name, value, other);
    }
  }

  // ----- values -----

  datatype Piece = TextPiece(text: string) | VarPiece(name: string) | BlockPiece(tree: Tree)

  datatype Tree = Tree(name: string, enabled: bool, resized: bool, properties: Properties, fragments: seq<Piece>, nodes: seq<Tree>)

  /** `Block::render` */
  function Render(t: Tree): string
    decreases t, 2, 0
  {
    if !t.enabled then "" else if t.resized then RenderNodes(t, |t.nodes|) else RenderBody(t)
  }

  /** `Node::render`: the fragments, with the node's own dictionary. */
  function RenderBody(t: Tree): string
    decreases t, 1, 0
  {
    RenderFragments(t, |t.fragments|)
  }

  function RenderFragments(t: Tree, n: nat): string
    requires n <= |t.fragments|
    decreases t, 0, n
  {
    if n == 0 then ""
    else RenderFragments(t, n - 1)
         + match t.fragments[n - 1]
           case TextPiece(text) => text
           case VarPiece(name) => Find(t.properties, name)
           case BlockPiece(tree) => Render(tree)
  }

  function RenderNodes(t: Tree, n: nat): string
    requires n <= |t.nodes|
    decreases t, 0, n
  {
    if n == 0 then "" else RenderNodes(t, n - 1) + Render(t.nodes[n - 1])
  }

  /** `Block::copy`: the same name and properties, the fragments copied; enabled and not repeated. */
  function CopyOf(t: Tree): Tree
    decreases t, 1
  {
    Tree(t.name, true, false, t.properties, CopyPieces(t.fragments), [])
  }

  function CopyPieces(ps: seq<Piece>): (r: seq<Piece>)
    ensures |r| == |ps|
    decreases ps, 0
  {
    if ps == [] then []
    else CopyPieces(ps[..|ps| - 1]) + [CopyPiece(ps[|ps| - 1])]
  }

  function CopyPiece(p: Piece): Piece
    decreases p, 2
  {
    if p.BlockPiece? then BlockPiece(CopyOf(p.tree)) else p
  }

  lemma {:induction false} CopyPiecesAt(ps: seq<Piece>, i: nat)
    requires i < |ps|
    ensures CopyPieces(ps)[i] == CopyPiece(ps[i])
  {
    if i < |ps| - 1 {
      CopyPiecesAt(ps[..|ps| - 1], i);
    }
  }

  /** A tree in which every block is enabled and none is repeated. */
  predicate Plain(t: Tree) {
    t.enabled && !t.resized && t.nodes == []
    && forall i :: 0 <= i < |t.fragments| && t.fragments[i].BlockPiece? ==> Plain(t.fragments[i].tree)
  }

  /** Blocks inside a copy are enabled and not repeated. */
  lemma {:induction false} CopyIsPlain(t: Tree)
    ensures Plain(CopyOf(t))
    decreases t
  {
    var c := CopyOf(t);
    forall i | 0 <= i < |c.fragments| && c.fragments[i].BlockPiece? ensures Plain(c.fragments[i].tree) {
      CopyPiecesAt(t.fragments, i);
      CopyIsPlain(t.fragments[i].tree);
    }
  }

  /** A copy of a plain tree is that tree. */
  lemma {:induction false} CopyOfPlain(t: Tree)
    requires Plain(t)
    ensures CopyOf(t) == t
    decreases t
  {
    forall i | 0 <= i < |t.fragments| ensures CopyPieces(t.fragments)[i] == t.fragments[i] {
      CopyPiecesAt(t.fragments, i);
      if t.fragments[i].BlockPiece? {
        CopyOfPlain(t.fragments[i].tree);
      }
    }
  }

  function Times(s: string, n: nat): string {
    if n == 0 then "" else Times(s, n - 1) + s
  }

  /** A tree repeated `n` times. */
  function Repeated(t: Tree, n: nat): Tree {
    t.(resized := true, nodes := seq(n, _ => CopyOf(t)))
  }

  /** A repeated block renders as its body, copied, so many times. */
  lemma RepeatedRenders(t: Tree, n: nat)
    requires t.enabled
    ensures Render(Repeated(t, n)) == Times(RenderBody(CopyOf(t)), n)
  {
    RepeatedNodes(t, n, n);
  }

  lemma {:induction false} RepeatedNodes(t: Tree, n: nat, k: nat)
    requires k <= n
    ensures RenderNodes(Repeated(t, n), k) == Times(RenderBody(CopyOf(t)), k)
  {
    if k > 0 {
      RepeatedNodes(t, n, k - 1);
    }
  }

  /** A loop body without disabled or repeated parts repeats as it would render alone. */
  lemma PlainRepeats(t: Tree, n: nat)
    requires Plain(t)
    ensures Render(Repeated(t, n)) == Times(Render(t), n)
  {
    RepeatedRenders(t, n);
    CopyOfPlain(t);
  }

  /** The rendering of the nodes from `i` up to `n`. */
  function NodesFrom(t: Tree, i: nat, n: nat): string
    requires i <= n <= |t.nodes|
    decreases n
  {
    if i == n then "" else NodesFrom(t, i, n - 1) + Render(t.nodes[n - 1])
  }

  /** The output is that of the nodes before one, that of the node, and that of the nodes behind it. */
  lemma {:induction false} NodesSplit(t: Tree, i: nat, n: nat)
    requires i < n <= |t.nodes|
    ensures RenderNodes(t, n) == RenderNodes(t, i) + Render(t.nodes[i]) + NodesFrom(t, i + 1, n)
    decreases n
  {
    if i < n - 1 {
      NodesSplit(t, i, n - 1);
    }
  }

  /** Trees that differ in one node at most render alike but for the part of that node. */
  lemma OneNodeDiffers(t: Tree, u: Tree, i: nat)
    requires i < |t.nodes| == |u.nodes| && t.enabled && t.resized && u.enabled && u.resized
    requires forall k :: 0 <= k < |t.nodes| && k != i ==> u.nodes[k] == t.nodes[k]
    ensures Render(t) == RenderNodes(t, i) + Render(t.nodes[i]) + NodesFrom(t, i + 1, |t.nodes|)
    ensures Render(u) == RenderNodes(t, i) + Render(u.nodes[i]) + NodesFrom(t, i + 1, |t.nodes|)
  {
    NodesSplit(t, i, |t.nodes|);
    NodesSplit(u, i, |t.nodes|);
    SameNodes(t, u, 0, i);
    SameNodes(t, u, i + 1, |t.nodes|);
    NodesFromStart(t, i);
    NodesFromStart(u, i);
  }

  lemma {:induction false} SameNodes(t: Tree, u: Tree, i: nat, n: nat)
    requires i <= n <= |t.nodes| == |u.nodes| && forall k :: i <= k < n ==> t.nodes[k] == u.nodes[k]
    ensures NodesFrom(t, i, n) == NodesFrom(u, i, n)
    decreases n
  {
    if i < n {
      SameNodes(t, u, i, n - 1);
    }
  }

  lemma {:induction false} NodesFromStart(t: Tree, n: nat)
    requires n <= |t.nodes|
    ensures NodesFrom(t, 0, n) == RenderNodes(t, n)
  {
    if n > 0 {
      NodesFromStart(t, n - 1);
    }
  }

  // ----- blocks in memory -----

  datatype Fragment = TextFragment(text: string) | VarFragment(name: string) | BlockFragment(block: Block)

  class Block {
    const name: string
    var enabled: bool
    var resized: bool
    var properties: Properties
    var fragments: seq<Fragment>
    var nodes: seq<Block>

    constructor (name: string)
      ensures this.name == name && enabled && !resized && properties == [] && fragments == [] && nodes == []
    {
      this.name := name;
      enabled, resized := true, false;
      properties, fragments, nodes := [], [], [];
    }

    /** `Dictionary::set` */
    method Set(name: string, value: string)
      modifies this`properties
      ensures properties == SetIn(old(properties), name, value)
    {
      var i := 0;
      while i < |properties|
        invariant 0 <= i <= |properties| && properties == old(properties)
        invariant SetIn(properties, name, value) == properties[..i] + SetIn(properties[i..], name, value)
      {
        if properties[i].0 == name {
          properties := properties[i := (name, value)];
          return;
        }
        i := i + 1;
      }
      properties := properties + [(name, value)];
    }

    /** `Node::block`: the first block of that name directly inside; null for "Block not found". */
    method FindBlock(name: string) returns (found: Block?)
      ensures found == null ==> forall f :: f in fragments && f.BlockFragment? ==> f.block.name != name
      ensures found != null ==> exists i :: 0 <= i < |fragments| && fragments[i] == BlockFragment(found) && found.name == name
                                            && forall j :: 0 <= j < i && fragments[j].BlockFragment? ==> fragments[j].block.name != name
    {
      for i := 0 to |fragments|
        invariant forall j :: 0 <= j < i && fragments[j].BlockFragment? ==> fragments[j].block.name != name
      {
        if fragments[i].BlockFragment? && fragments[i].block.name == name {
          return fragments[i].block;
        }
      }
      found := null;
    }
  }

  /** Ranks that fall from every block to the blocks inside it; the blocks of a tree and what they own. */
  type Ranks = map<Block, nat>

  ghost predicate Inside(b: Block, r: Ranks, bound: nat) {
    b in r && r[b] < bound
  }

  ghost predicate FragmentsInside(fs: seq<Fragment>, r: Ranks, bound: nat) {
    forall i :: 0 <= i < |fs| && fs[i].BlockFragment? ==> Inside(fs[i].block, r, bound)
  }

  ghost predicate NodesInside(ns: seq<Block>, r: Ranks, bound: nat) {
    forall i :: 0 <= i < |ns| ==> Inside(ns[i], r, bound)
  }

  ghost predicate Ranked(r: Ranks)
    reads r.Keys
  {
    forall b :: b in r ==> FragmentsInside(b.fragments, r, r[b]) && NodesInside(b.nodes, r, r[b])
  }

  /** The tree a block stands for. */
  ghost function Value(b: Block, r: Ranks): Tree
    requires Ranked(r) && b in r
    reads r.Keys
    decreases r[b], 1, 0
  {
    Tree(b.name, b.enabled, b.resized, b.properties, FragmentValues(b.fragments, r, r[b]), NodeValues(b.nodes, r, r[b]))
  }

  ghost function FragmentValue(f: Fragment, r: Ranks, bound: nat): Piece
    requires Ranked(r) && (f.BlockFragment? ==> Inside(f.block, r, bound))
    reads r.Keys
    decreases bound, 0, 0
  {
    match f
    case TextFragment(text) => TextPiece(text)
    case VarFragment(name) => VarPiece(name)
    case BlockFragment(block) => BlockPiece(Value(block, r))
  }

  ghost function FragmentValues(fs: seq<Fragment>, r: Ranks, bound: nat): (ps: seq<Piece>)
    requires Ranked(r) && FragmentsInside(fs, r, bound)
    reads r.Keys
    ensures |ps| == |fs|
    decreases bound, 0, |fs|
  {
    if fs == [] then []
    else FragmentValues(fs[..|fs| - 1], r, bound) + [FragmentValue(fs[|fs| - 1], r, bound)]
  }

  ghost function NodeValues(ns: seq<Block>, r: Ranks, bound: nat): (ts: seq<Tree>)
    requires Ranked(r) && NodesInside(ns, r, bound)
    reads r.Keys
    ensures |ts| == |ns|
    ensures forall i :: 0 <= i < |ns| ==> ts[i] == Value(ns[i], r)
    decreases bound, 0, |ns|
  {
    if ns == [] then [] else NodeValues(ns[..|ns| - 1], r, bound) + [Value(ns[|ns| - 1], r)]
  }

  /** A value does not depend on the ranks, nor on blocks outside the tree. */
  lemma {:induction false} ValueSame(b: Block, r: Ranks, q: Ranks)
    requires Ranked(r) && Ranked(q) && r.Keys <= q.Keys && b in r
    ensures Value(b, r) == Value(b, q)
    decreases r[b], 1, 0
  {
    FragmentsSame(b.fragments, r, r[b], q, q[b]);
    forall i | 0 <= i < |b.nodes| ensures Value(b.nodes[i], r) == Value(b.nodes[i], q) {
      ValueSame(b.nodes[i], r, q);
    }
    assert NodeValues(b.nodes, r, r[b]) == NodeValues(b.nodes, q, q[b]);
  }

  lemma {:induction false} FragmentsSame(fs: seq<Fragment>, r: Ranks, m: nat, q: Ranks, n: nat)
    requires Ranked(r) && Ranked(q) && r.Keys <= q.Keys && FragmentsInside(fs, r, m) && FragmentsInside(fs, q, n)
    ensures FragmentValues(fs, r, m) == FragmentValues(fs, q, n)
    decreases m, 0, |fs|
  {
    if fs != [] {
      FragmentsSame(fs[..|fs| - 1], r, m, q, n);
      var f := fs[|fs| - 1];
      if f.BlockFragment? {
        ValueSame(f.block, r, q);
      }
    }
  }

  lemma FragmentAt(fs: seq<Fragment>, i: nat, r: Ranks, bound: nat)
    requires i < |fs| && Ranked(r) && FragmentsInside(fs, r, bound)
    ensures FragmentsInside(fs[..i], r, bound) && FragmentsInside(fs[..i + 1], r, bound)
    ensures FragmentValues(fs[..i + 1], r, bound) == FragmentValues(fs[..i], r, bound) + [FragmentValue(fs[i], r, bound)]
  {
    assert fs[..i + 1][..i] == fs[..i];
  }

  lemma {:induction false} FragmentValuesAt(fs: seq<Fragment>, i: nat, r: Ranks, bound: nat)
    requires i < |fs| && Ranked(r) && FragmentsInside(fs, r, bound)
    ensures FragmentValues(fs, r, bound)[i] == FragmentValue(fs[i], r, bound)
    decreases |fs|
  {
    if i < |fs| - 1 {
      FragmentValuesAt(fs[..|fs| - 1], i, r, bound);
    }
  }

  // ----- rendering -----

  lemma ValueOf(b: Block, r: Ranks)
    requires Ranked(r) && b in r
    ensures var t := Value(b, r);
            && t.enabled == b.enabled && t.resized == b.resized && t.properties == b.properties
            && |t.fragments| == |b.fragments| && |t.nodes| == |b.nodes| && NodesInside(b.nodes, r, r[b])
            && forall i :: 0 <= i < |b.nodes| ==> t.nodes[i] == Value(b.nodes[i], r)
  {
  }

  /** `Block::render` */
  method RenderBlock(b: Block, ghost r: Ranks) returns (output: string)
    requires Ranked(r) && b in r
    ensures output == Render(Value(b, r))
    decreases r[b], 2
  {
    hide Value, Ranked;
    ValueOf(b, r);
    output := "";
    if b.enabled {
      if b.resized {
        for i := 0 to |b.nodes|
          invariant output == RenderNodes(Value(b, r), i)
        {
          var s := RenderBlock(b.nodes[i], r);
          output := output + s;
        }
      } else {
        output := RenderNode(b, r);
      }
    }
  }

  /** `Node::render`, which is also how a template renders, enabled or not. */
  method RenderNode(b: Block, ghost r: Ranks) returns (output: string)
    requires Ranked(r) && b in r
    ensures output == RenderBody(Value(b, r))
    decreases r[b], 1
  {
    output := "";
    for i := 0 to |b.fragments|
      invariant output == RenderFragments(Value(b, r), i)
    {
      FragmentValuesAt(b.fragments, i, r, r[b]);
      match b.fragments[i]
      case TextFragment(text) => output := output + text;
      case VarFragment(name) => output := output + Find(b.properties, name);
      case BlockFragment(block) =>
        var s := RenderBlock(block, r);
        output := output + s;
    }
  }

  // ----- copies -----

  ghost predicate Disjoint(r: Ranks, q: Ranks) {
    forall b :: b in r ==> b !in q
  }

  /** Two trees that share no block, side by side. */
  lemma Merged(r: Ranks, q: Ranks)
    requires Ranked(r) && Ranked(q) && Disjoint(r, q)
    ensures Ranked(r + q)
    ensures forall b :: b in r ==> Value(b, r + q) == Value(b, r)
    ensures forall b :: b in q ==> Value(b, r + q) == Value(b, q)
  {
    var m := r + q;
    forall b | b in m ensures FragmentsInside(b.fragments, m, m[b]) && NodesInside(b.nodes, m, m[b]) {
      if b in q {
        assert FragmentsInside(b.fragments, q, q[b]) && NodesInside(b.nodes, q, q[b]);
      } else {
        assert FragmentsInside(b.fragments, r, r[b]) && NodesInside(b.nodes, r, r[b]);
      }
    }
    forall b | b in r ensures Value(b, m) == Value(b, r) {
      ValueSame(b, r, m);
    }
    forall b | b in q ensures Value(b, m) == Value(b, q) {
      ValueSame(b, q, m);
    }
  }

  /** `copy` of one fragment. */
  method CopyFragment(f: Fragment, ghost r: Ranks, ghost bound: nat) returns (g: Fragment, ghost q: Ranks)
    requires Ranked(r) && (f.BlockFragment? ==> Inside(f.block, r, bound))
    ensures fresh(q.Keys) && Ranked(q) && (g.BlockFragment? ==> Inside(g.block, q, bound))
    ensures FragmentValue(g, q, bound) == CopyPiece(FragmentValue(f, r, bound))
    decreases bound, 0
  {
    g, q := f, map[];
    if f.BlockFragment? {
      var c;
      c, q := Copy(f.block, r);
      g := BlockFragment(c);
    }
  }

  /** `Block::copy`; `q` ranks the new blocks. */
  method Copy(b: Block, ghost r: Ranks) returns (c: Block, ghost q: Ranks)
    requires Ranked(r) && b in r
    ensures fresh(q.Keys) && Ranked(q) && c in q && q[c] == r[b] && Value(c, q) == CopyOf(Value(b, r))
    decreases r[b], 2
  {
    hide Value, FragmentValue, FragmentValues, Ranked, FragmentsInside;
    var copied, made := CopyFragments(b, r);
    c := new Block(b.name);
    c.properties := b.properties;
    c.fragments := copied;
    q := made[c := r[b]];
    NewRoot(c, made, r[b]);
    CopiedRoot(b, r);
  }

  /** The loop of `copy`. */
  method CopyFragments(b: Block, ghost r: Ranks) returns (copied: seq<Fragment>, ghost q: Ranks)
    requires Ranked(r) && b in r
    ensures fresh(q.Keys) && Ranked(q) && FragmentsInside(copied, q, r[b])
    ensures Ranked(r) && b in r && FragmentsInside(b.fragments, r, r[b])
    ensures FragmentValues(copied, q, r[b]) == CopyPieces(FragmentValues(b.fragments, r, r[b]))
    decreases r[b], 1
  {
    hide Ranked, Value, FragmentValues, FragmentValue, CopyPieces, FragmentsInside;
    copied, q := [], map[];
    CopyNothing(b, r);
    for i := 0 to |b.fragments|
      invariant fresh(q.Keys) && Ranked(q) && FragmentsInside(copied, q, r[b])
      invariant FragmentsInside(b.fragments[..i], r, r[b])
      invariant FragmentValues(copied, q, r[b]) == CopyPieces(FragmentValues(b.fragments[..i], r, r[b]))
    {
      FragmentAt(b.fragments, i, r, r[b]);
      FragmentInside(b.fragments, i, r, r[b]);
      var f, more := CopyFragment(b.fragments[i], r, r[b]);
      Merged(q, more);
      CopyStep(FragmentValues(b.fragments[..i], r, r[b]), FragmentValue(b.fragments[i], r, r[b]));
      Appended(copied, q, f, more, r[b]);
      copied, q := copied + [f], q + more;
    }
    assert b.fragments[..|b.fragments|] == b.fragments;
  }

  lemma CopyNothing(b: Block, r: Ranks)
    requires Ranked(r) && b in r
    ensures Ranked(map[]) && FragmentsInside([], map[], r[b]) && FragmentsInside(b.fragments[..0], r, r[b])
    ensures FragmentsInside(b.fragments, r, r[b])
    ensures FragmentValues([], map[], r[b]) == CopyPieces(FragmentValues(b.fragments[..0], r, r[b]))
  {
  }

  lemma FragmentInside(fs: seq<Fragment>, i: nat, r: Ranks, bound: nat)
    requires i < |fs| && FragmentsInside(fs, r, bound)
    ensures fs[i].BlockFragment? ==> Inside(fs[i].block, r, bound)
  {
  }

  lemma CopyStep(ps: seq<Piece>, p: Piece)
    ensures CopyPieces(ps + [p]) == CopyPieces(ps) + [CopyPiece(p)]
  {
    assert (ps + [p])[..|ps|] == ps;
  }

  /** One more fragment, whose tree is disjoint from the others. */
  lemma Appended(fs: seq<Fragment>, q: Ranks, f: Fragment, more: Ranks, bound: nat)
    requires Ranked(q) && Ranked(more) && Ranked(q + more) && Disjoint(q, more)
    requires FragmentsInside(fs, q, bound) && (f.BlockFragment? ==> Inside(f.block, more, bound))
    ensures FragmentsInside(fs + [f], q + more, bound)
    ensures FragmentValues(fs + [f], q + more, bound) == FragmentValues(fs, q, bound) + [FragmentValue(f, more, bound)]
  {
    var m := q + more;
    assert forall i :: 0 <= i < |fs| ==> (fs + [f])[i] == fs[i];
    assert (fs + [f])[..|fs|] == fs;
    FragmentsSame(fs, q, bound, m, bound);
    if f.BlockFragment? {
      ValueSame(f.block, more, m);
    }
  }

  /** A block put on top of the trees it refers to. */
  lemma NewRoot(c: Block, q: Ranks, n: nat)
    requires Ranked(q) && c !in q && FragmentsInside(c.fragments, q, n) && c.nodes == []
    ensures Ranked(q[c := n])
    ensures Value(c, q[c := n]) == Tree(c.name, c.enabled, c.resized, c.properties, FragmentValues(c.fragments, q, n), [])
  {
    var m := q[c := n];
    forall b | b in m ensures FragmentsInside(b.fragments, m, m[b]) && NodesInside(b.nodes, m, m[b]) {
      if b != c {
        assert FragmentsInside(b.fragments, q, q[b]) && NodesInside(b.nodes, q, q[b]);
      }
    }
    FragmentsSame(c.fragments, q, n, m, n);
  }

  lemma CopiedRoot(b: Block, r: Ranks)
    requires Ranked(r) && b in r
    ensures FragmentsInside(b.fragments, r, r[b])
    ensures CopyOf(Value(b, r)) == Tree(b.name, true, false, b.properties, CopyPieces(FragmentValues(b.fragments, r, r[b])), [])
  {
  }

  // ----- repetition -----

  /** The blocks ranked below `n`. */
  ghost function Below(r: Ranks, n: nat): (q: Ranks)
    ensures q.Keys <= r.Keys && forall b :: b in r ==> (b in q <==> r[b] < n)
  {
    map b | b in r && r[b] < n :: r[b]
  }

  ghost function Raised(r: Ranks): Ranks {
    map b | b in r :: r[b] + 1
  }

  lemma BelowIsRanked(r: Ranks, n: nat)
    requires Ranked(r)
    ensures Ranked(Below(r, n))
  {
    var q := Below(r, n);
    forall b | b in q ensures FragmentsInside(b.fragments, q, q[b]) && NodesInside(b.nodes, q, q[b]) {
      assert FragmentsInside(b.fragments, r, r[b]) && NodesInside(b.nodes, r, r[b]);
    }
  }

  /** The fragments of a block are valued without looking at the block. */
  lemma BodyIsBelow(b: Block, r: Ranks)
    requires Ranked(r) && b in r
    ensures Ranked(Below(r, r[b])) && FragmentsInside(b.fragments, Below(r, r[b]), r[b])
    ensures FragmentsInside(b.fragments, r, r[b])
    ensures FragmentValues(b.fragments, r, r[b]) == FragmentValues(b.fragments, Below(r, r[b]), r[b])
  {
    BelowIsRanked(r, r[b]);
    assert FragmentsInside(b.fragments, r, r[b]);
    FragmentsSame(b.fragments, Below(r, r[b]), r[b], r, r[b]);
  }

  /** Every node with a tree of its own, disjoint from the others and without the block. */
  ghost predicate Copies(b: Block, parts: seq<Ranks>)
    reads b, set k, x | 0 <= k < |parts| && x in parts[k] :: x
  {
    && |parts| == |b.nodes|
    && (forall k :: 0 <= k < |parts| ==> Ranked(parts[k]) && b.nodes[k] in parts[k] && b !in parts[k])
    && (forall k, j :: 0 <= k < j < |parts| ==> Disjoint(parts[k], parts[j]))
  }

  /** Dropping the nodes, as `repeat` does first. */
  method ClearNodes(b: Block, ghost r: Ranks)
    requires Ranked(r) && b in r
    modifies b`resized, b`nodes
    ensures Ranked(r) && Value(b, r) == old(Value(b, r)).(resized := true, nodes := []) && b.resized
  {
    BodyIsBelow(b, r);
    ghost var below := Below(r, r[b]);
    b.resized := true;
    b.nodes := [];
    assert Ranked(r) by {
      forall x | x in r ensures FragmentsInside(x.fragments, r, r[x]) && NodesInside(x.nodes, r, r[x]) {
        assert old(FragmentsInside(x.fragments, r, r[x]) && NodesInside(x.nodes, r, r[x]));
      }
    }
    FragmentsSame(b.fragments, below, r[b], r, r[b]);
  }

  /** `Block::repeat`: the block's nodes become `n` copies of it. `q` ranks the old blocks and the new ones,
      `parts` are the trees of the copies. */
  method Repeat(b: Block, n: nat, ghost r: Ranks) returns (ghost q: Ranks, ghost parts: seq<Ranks>)
    requires Ranked(r) && b in r
    modifies b`resized, b`nodes
    ensures Ranked(q) && r.Keys <= q.Keys && Value(b, q) == Repeated(old(Value(b, r)), n)
    ensures Copies(b, parts) && forall k :: 0 <= k < n ==> fresh(parts[k].Keys) && parts[k].Keys <= q.Keys
    ensures b.resized
  {
    hide Ranked, Value, Below;
    ghost var base := Value(b, r);
    ClearNodes(b, r);
    ghost var all;
    var nodes;
    nodes, all, parts := MakeCopies(b, n, r);
    q := AddNodes(b, nodes, r, all, parts, base);
  }

  /** The copies, made in memory of their own, become the nodes. */
  method AddNodes(b: Block, nodes: seq<Block>, ghost r: Ranks, ghost all: Ranks, ghost parts: seq<Ranks>, ghost base: Tree)
    returns (ghost q: Ranks)
    requires Ranked(r) && Ranked(all) && b in r && Disjoint(r, all) && |nodes| == |parts|
    requires Value(b, r) == base.(resized := true, nodes := [])
    requires forall k :: 0 <= k < |nodes| ==> Ranked(parts[k]) && nodes[k] in parts[k] && parts[k].Keys <= all.Keys
    requires forall k :: 0 <= k < |nodes| ==> all[nodes[k]] == r[b] && Value(nodes[k], all) == CopyOf(base)
    requires forall k, j :: 0 <= k < j < |nodes| ==> Disjoint(parts[k], parts[j])
    modifies b`nodes
    ensures Ranked(q) && r.Keys <= q.Keys && all.Keys <= q.Keys && Value(b, q) == Repeated(base, |nodes|)
    ensures b.nodes == nodes && Copies(b, parts)
  {
    hide Value, FragmentValues, CopyOf, Below, Ranked, FragmentsInside;
    ghost var below := Below(r, r[b]);
    BodyIsBelow(b, r);
    ValueFields(b, r);
    q := LinkNodes(b, nodes, r, all);
    ghost var n := q[b];
    RankedAt(b, q);
    FragmentsStayInside(b.fragments, below, n);
    FragmentsSame(b.fragments, below, n - 1, below, n);
    RepeatedValue(b, below, all, q, base);
  }

  lemma FragmentsStayInside(fs: seq<Fragment>, r: Ranks, n: nat)
    requires n > 0 && FragmentsInside(fs, r, n - 1)
    ensures FragmentsInside(fs, r, n)
  {
  }

  method LinkNodes(b: Block, nodes: seq<Block>, ghost r: Ranks, ghost all: Ranks) returns (ghost q: Ranks)
    requires Ranked(r) && Ranked(all) && b in r && Disjoint(r, all)
    requires forall k :: 0 <= k < |nodes| ==> nodes[k] in all && all[nodes[k]] == r[b]
    modifies b`nodes
    ensures b.nodes == nodes && Ranked(all) && Ranked(q) && q.Keys == r.Keys + all.Keys && q[b] == r[b] + 1
  {
    b.nodes := nodes;
    q := Raised(r) + all;
    forall x | x in q ensures FragmentsInside(x.fragments, q, q[x]) && NodesInside(x.nodes, q, q[x]) {
      if x in all {
        assert old(FragmentsInside(x.fragments, all, all[x]) && NodesInside(x.nodes, all, all[x]));
      } else {
        assert old(FragmentsInside(x.fragments, r, r[x]) && NodesInside(x.nodes, r, r[x]));
      }
    }
  }

  lemma ValueFields(b: Block, r: Ranks)
    requires Ranked(r) && b in r
    ensures FragmentsInside(b.fragments, r, r[b]) && Value(b, r).fragments == FragmentValues(b.fragments, r, r[b])
    ensures var t := Value(b, r);
            t.name == b.name && t.enabled == b.enabled && t.resized == b.resized && t.properties == b.properties
  {
  }

  /** The loop of `repeat`. */
  method MakeCopies(b: Block, n: nat, ghost r: Ranks) returns (nodes: seq<Block>, ghost all: Ranks, ghost parts: seq<Ranks>)
    requires Ranked(r) && b in r
    ensures Ranked(r) && |nodes| == |parts| == n && fresh(all.Keys) && Ranked(all)
    ensures forall k :: 0 <= k < n ==> Ranked(parts[k]) && nodes[k] in parts[k] && parts[k].Keys <= all.Keys
    ensures forall k :: 0 <= k < n ==> all[nodes[k]] == r[b] && Value(nodes[k], all) == CopyOf(Value(b, r))
    ensures forall k, j :: 0 <= k < j < n ==> Disjoint(parts[k], parts[j])
  {
    hide Ranked, Value, CopyOf;
    nodes, all, parts := [], map[], [];
    NothingIsRanked();
    for i := 0 to n
      invariant Ranked(r) && |nodes| == |parts| == i && fresh(all.Keys) && Ranked(all)
      invariant forall k :: 0 <= k < i ==> Ranked(parts[k]) && nodes[k] in parts[k] && parts[k].Keys <= all.Keys
      invariant forall k :: 0 <= k < i ==> all[nodes[k]] == r[b] && Value(nodes[k], all) == CopyOf(Value(b, r))
      invariant forall k, j :: 0 <= k < j < i ==> Disjoint(parts[k], parts[j])
    {
      var c, q := Copy(b, r);
      OneMoreCopy(nodes, all, parts, c, q, r[b], CopyOf(Value(b, r)));
      nodes, all, parts := nodes + [c], all + q, parts + [q];
    }
  }

  lemma OneMoreCopy(nodes: seq<Block>, all: Ranks, parts: seq<Ranks>, c: Block, q: Ranks, n: nat, copy: Tree)
    requires |nodes| == |parts| && Ranked(all) && Ranked(q) && Disjoint(all, q) && c in q && q[c] == n && Value(c, q) == copy
    requires forall k :: 0 <= k < |nodes| ==> Ranked(parts[k]) && nodes[k] in parts[k] && parts[k].Keys <= all.Keys
    requires forall k :: 0 <= k < |nodes| ==> all[nodes[k]] == n && Value(nodes[k], all) == copy
    requires forall k, j :: 0 <= k < j < |nodes| ==> Disjoint(parts[k], parts[j])
    ensures var nodes', all', parts' := nodes + [c], all + q, parts + [q];
            && Ranked(all')
            && (forall k :: 0 <= k < |nodes'| ==> Ranked(parts'[k]) && nodes'[k] in parts'[k] && parts'[k].Keys <= all'.Keys)
            && (forall k :: 0 <= k < |nodes'| ==> all'[nodes'[k]] == n && Value(nodes'[k], all') == copy)
            && (forall k, j :: 0 <= k < j < |nodes'| ==> Disjoint(parts'[k], parts'[j]))
  {
    hide Ranked, Value;
    Merged(all, q);
  }

  lemma NothingIsRanked()
    ensures Ranked(map[])
  {
  }

  /** The value of a block whose fragments are ranked by `below` and whose nodes are copies ranked by `all`. */
  lemma RepeatedValue(b: Block, below: Ranks, all: Ranks, q: Ranks, base: Tree)
    requires Ranked(below) && Ranked(all) && Ranked(q) && b in q && below.Keys <= q.Keys && all.Keys <= q.Keys
    requires b.name == base.name && b.enabled == base.enabled && b.resized && b.properties == base.properties
    requires FragmentsInside(b.fragments, below, q[b]) && FragmentValues(b.fragments, below, q[b]) == base.fragments
    requires forall k :: 0 <= k < |b.nodes| ==> b.nodes[k] in all && Value(b.nodes[k], all) == CopyOf(base)
    ensures Value(b, q) == Repeated(base, |b.nodes|)
  {
    RankedAt(b, q);
    FragmentsSame(b.fragments, below, q[b], q, q[b]);
    forall k | 0 <= k < |b.nodes| ensures Value(b.nodes[k], q) == CopyOf(base) {
      ValueSame(b.nodes[k], all, q);
    }
    assert NodeValues(b.nodes, q, q[b]) == seq(|b.nodes|, _ => CopyOf(base));
  }

  lemma RankedAt(b: Block, r: Ranks)
    requires Ranked(r) && b in r
    ensures FragmentsInside(b.fragments, r, r[b]) && NodesInside(b.nodes, r, r[b])
  {
  }

  // ----- independence -----

  /** The nodes other than node `i` have trees of their own, worth what they are in `t`. */
  ghost predicate OthersValued(b: Block, parts: seq<Ranks>, i: nat, t: Tree)
    reads b, set k, x | 0 <= k < |parts| && k != i && x in parts[k] :: x
  {
    && |parts| == |b.nodes| == |t.nodes|
    && forall k :: 0 <= k < |parts| && k != i ==>
         Ranked(parts[k]) && b.nodes[k] in parts[k] && Value(b.nodes[k], parts[k]) == t.nodes[k]
  }

  lemma CopiesAreValued(b: Block, parts: seq<Ranks>, q: Ranks, i: nat)
    requires Copies(b, parts) && Ranked(q) && b in q && forall k :: 0 <= k < |parts| ==> parts[k].Keys <= q.Keys
    ensures OthersValued(b, parts, i, Value(b, q))
  {
    hide Value;
    ValueOf(b, q);
    forall k | 0 <= k < |parts| ensures Value(b.nodes[k], parts[k]) == Value(b, q).nodes[k] {
      ValueSame(b.nodes[k], parts[k], q);
    }
  }

  /** As long as the other copies keep their values, which they do whatever happens to node `i`, only the part of
      node `i` in the output can differ from what `t` renders to. */
  lemma OnlyOnePartChanges(b: Block, parts: seq<Ranks>, i: nat, t: Tree, q: Ranks)
    requires OthersValued(b, parts, i, t) && i < |parts| && b.enabled && b.resized && t.enabled && t.resized
    requires Ranked(q) && b in q && b.nodes[i] in q && forall k :: 0 <= k < |parts| && k != i ==> parts[k].Keys <= q.Keys
    ensures Render(t) == RenderNodes(t, i) + Render(t.nodes[i]) + NodesFrom(t, i + 1, |t.nodes|)
    ensures Render(Value(b, q)) == RenderNodes(t, i) + Render(Value(b.nodes[i], q)) + NodesFrom(t, i + 1, |t.nodes|)
  {
    hide Value, Render, Ranked, RenderNodes, NodesFrom;
    var u := Value(b, q);
    ValueOf(b, q);
    forall k | 0 <= k < |t.nodes| && k != i ensures u.nodes[k] == t.nodes[k] {
      ValueSame(b.nodes[k], parts[k], q);
    }
    OneNodeDiffers(t, u, i);
  }

  /** `block[i].set(name, value)` on a repeated block. */
  method SetInCopy(b: Block, i: nat, name: string, value: string, ghost parts: seq<Ranks>, ghost q: Ranks)
    requires Copies(b, parts) && i < |parts| && Ranked(q) && b in q && forall k :: 0 <= k < |parts| ==> parts[k].Keys <= q.Keys
    requires b.enabled && b.resized
    modifies b.nodes[i]
    ensures Copies(b, parts) && Ranked(q) && b.nodes[i].properties == SetIn(old(b.nodes[i].properties), name, value)
    ensures var t := old(Value(b, q));
            Render(Value(b, q)) == RenderNodes(t, i) + Render(Value(b.nodes[i], q)) + NodesFrom(t, i + 1, |t.nodes|)
  {
    hide Value, Render, RenderNodes, NodesFrom;
    ghost var t := Value(b, q);
    CopiesAreValued(b, parts, q, i);
    ValueOf(b, q);
    NodeIsInside(b, q, i);
    b.nodes[i].Set(name, value);
    OnlyOnePartChanges(b, parts, i, t, q);
  }

  lemma NodeIsInside(b: Block, q: Ranks, i: nat)
    requires Ranked(q) && b in q && i < |b.nodes|
    ensures b.nodes[i] in q && b.nodes[i] != b
  {
  }
}
