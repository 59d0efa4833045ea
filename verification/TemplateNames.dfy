/** Which block of a loaded template a name finds. */
module TemplateNames {
  import opened TemplateTokens
  import opened TemplateLoad
  import T = TemplateTree

  // ----- blocks of a stream -----

  /** The blocks that are open after the tokens: the template is 0, and the others are counted as they begin. */
  function Opened(ts: seq<Token>): seq<nat> {
    if ts == [] then [0]
    else
      var front, open := ts[..|ts| - 1], Opened(ts[..|ts| - 1]);
      match ts[|ts| - 1]
      case Block(_) => if open == [] then open else open + [1 + |BlockNames(front)|]
      case EndBlock => if open == [] then open else open[..|open| - 1]
      case _ => open
  }

  /** The token at `n` begins a block directly inside block `i`. */
  predicate Inside(ts: seq<Token>, i: nat, n: nat) {
    n < |ts| && ts[n].Block? && Opened(ts[..n]) != [] && Opened(ts[..n])[|Opened(ts[..n])| - 1] == i
  }

  /** The number of the block that the token at `n` begins. */
  function NumberOf(ts: seq<Token>, n: nat): nat
    requires n <= |ts|
  {
    1 + |BlockNames(ts[..n])|
  }

  lemma {:induction false} NamesGrow(ts: seq<Token>, n: nat)
    requires n <= |ts|
    ensures BlockNames(ts[..n]) <= BlockNames(ts)
    decreases |ts|
  {
    if n < |ts| {
      assert ts[..|ts| - 1][..n] == ts[..n];
      NamesGrow(ts[..|ts| - 1], n);
    } else {
      assert ts[..n] == ts;
    }
  }

  /** A block's name is the value of the token that begins it, and later blocks have higher numbers. */
  lemma NumberIs(ts: seq<Token>, n: nat)
    requires n < |ts| && ts[n].Block?
    ensures NumberOf(ts, n) <= |BlockNames(ts)| && BlockNames(ts)[NumberOf(ts, n) - 1] == ts[n].value
    ensures forall m: nat :: m < n ==> NumberOf(ts, m) <= NumberOf(ts, n)
    ensures forall m: nat :: n < m <= |ts| ==> NumberOf(ts, n) < NumberOf(ts, m)
  {
    assert ts[..n + 1] == ts[..n] + [ts[n]];
    NextName(ts[..n], ts[n]);
    NamesGrow(ts, n + 1);
    forall m: nat | m < n ensures NumberOf(ts, m) <= NumberOf(ts, n) {
      assert ts[..n][..m] == ts[..m];
      NamesGrow(ts[..n], m);
    }
    forall m: nat | n < m <= |ts| ensures NumberOf(ts, n) < NumberOf(ts, m) {
      assert ts[..m][..n + 1] == ts[..n + 1];
      NamesGrow(ts[..m], n + 1);
    }
  }

  lemma {:induction false} OpenedIs(ts: seq<Token>)
    requires Run(ts).State?
    ensures Run(ts).stack == Opened(ts) && |Run(ts).entries| == 1 + |BlockNames(ts)|
    decreases |ts|
  {
    if ts != [] {
      OpenedIs(ts[..|ts| - 1]);
    }
  }

  // ----- the entries of a block -----

  /** Every block entry comes from a token. */
  ghost predicate FromToken(ts: seq<Token>, i: nat, j: nat) {
    exists n: nat :: n <= |ts| && Inside(ts, i, n) && NumberOf(ts, n) == j
  }

  ghost predicate HasEntry(es: seq<Entry>, j: nat) {
    exists k :: 0 <= k < |es| && es[k] == BlockEntry(j)
  }

  /** The blocks of an entry list are those directly inside, in the order in which they begin. */
  ghost predicate Lists(ts: seq<Token>, i: nat, es: seq<Entry>) {
    && (forall k :: 0 <= k < |es| && es[k].BlockEntry? ==> FromToken(ts, i, es[k].index) && es[k].index <= |BlockNames(ts)|)
    && (forall n: nat :: Inside(ts, i, n) ==> HasEntry(es, NumberOf(ts, n)))
    && (forall k, m :: 0 <= k < m < |es| && es[k].BlockEntry? && es[m].BlockEntry? ==> es[k].index < es[m].index)
  }

  lemma {:induction false} EntriesAreListed(ts: seq<Token>)
    requires Run(ts).State?
    ensures forall i: nat :: i < |Run(ts).entries| ==> Lists(ts, i, Run(ts).entries[i])
    ensures forall i: nat, n: nat :: Inside(ts, i, n) ==> i < |Run(ts).entries|
    decreases |ts|
  {
    hide Lists, Inside;
    if ts == [] {
      NothingListed();
      assert ts == [] && Run(ts).entries == [[]];
    } else {
      var front, t := ts[..|ts| - 1], ts[|ts| - 1];
      EntriesAreListed(front);
      OpenedIs(front);
      OpenedIs(ts);
      assert front + [t] == ts;
      TokenListed(front, t);
    }
  }

  lemma NothingListed()
    ensures Lists([], 0, []) && forall i: nat, n: nat :: !Inside([], i, n)
  {
  }

  /** One more token leaves the blocks as they are, and may begin one directly inside the last open block. */
  lemma InsideStep(ts: seq<Token>, t: Token)
    ensures forall i: nat, n: nat :: n < |ts| ==> (Inside(ts + [t], i, n) <==> Inside(ts, i, n))
    ensures forall n: nat :: n <= |ts| ==> NumberOf(ts + [t], n) == NumberOf(ts, n)
    ensures forall i: nat :: Inside(ts + [t], i, |ts|) <==> t.Block? && Opened(ts) != [] && Opened(ts)[|Opened(ts)| - 1] == i
    ensures forall i: nat, n: nat :: Inside(ts + [t], i, n) ==> n <= |ts|
  {
    assert forall n: nat :: n <= |ts| ==> (ts + [t])[..n] == ts[..n];
    assert ts[..|ts|] == ts;
  }

  lemma TokenListed(ts: seq<Token>, t: Token)
    requires Run(ts).State? && Run(ts + [t]).State?
    requires Run(ts).stack == Opened(ts) && |Run(ts).entries| == 1 + |BlockNames(ts)|
    requires forall i: nat :: i < |Run(ts).entries| ==> Lists(ts, i, Run(ts).entries[i])
    requires forall i: nat, n: nat :: Inside(ts, i, n) ==> i < |Run(ts).entries|
    ensures forall i: nat :: i < |Run(ts + [t]).entries| ==> Lists(ts + [t], i, Run(ts + [t]).entries[i])
    ensures forall i: nat, n: nat :: Inside(ts + [t], i, n) ==> i < |Run(ts + [t]).entries|
  {
    hide Lists, Inside, NumberOf, Run;
    StepTaken(ts, t);
    InsideStep(ts, t);
    var a, b := Run(ts).entries, Run(ts + [t]).entries;
    EntriesGrow(Run(ts), t);
    forall i: nat | i < |b| ensures Lists(ts + [t], i, b[i]) {
      if i == |a| {
        NoneInside(ts + [t], i);
      } else if b[i] == a[i] {
        ListsStay(ts, t, i, a[i], a[i]);
      } else if t.Block? {
        ListsMore(ts, t, i, a[i]);
      } else {
        ListsStay(ts, t, i, a[i], b[i]);
      }
    }
  }

  /** What one step does to the entries. */
  lemma EntriesGrow(st: State, t: Token)
    requires st.State? && InBounds(st) && Step(st, t).State?
    ensures var a, b, stack := st.entries, Step(st, t).entries, st.stack;
            && |b| == |a| + (if t.Block? then 1 else 0) && (t.Block? ==> b[|a|] == [])
            && (t.Block? ==> stack != [] && stack[|stack| - 1] < |a|)
            && forall i :: 0 <= i < |a| ==>
                 if t.Block? && i == stack[|stack| - 1] then b[i] == a[i] + [BlockEntry(|a|)]
                 else b[i] == a[i] || (|b[i]| == |a[i]| + 1 && b[i][..|a[i]|] == a[i] && !b[i][|a[i]|].BlockEntry?)
  {
  }

  lemma NoneInside(ts: seq<Token>, i: nat)
    requires forall n: nat :: !Inside(ts, i, n)
    ensures Lists(ts, i, [])
  {
  }

  lemma FromTokenStays(ts: seq<Token>, t: Token, i: nat, j: nat)
    requires FromToken(ts, i, j)
    ensures FromToken(ts + [t], i, j)
  {
    hide Inside, NumberOf;
    var n: nat :| n <= |ts| && Inside(ts, i, n) && NumberOf(ts, n) == j;
    InsideStep(ts, t);
    InsideIsShort(ts, i, n);
    assert Inside(ts + [t], i, n) && NumberOf(ts + [t], n) == j;
  }

  lemma InsideIsShort(ts: seq<Token>, i: nat, n: nat)
    requires Inside(ts, i, n)
    ensures n < |ts|
  {
  }

  /** Without a new block inside it, a block lists what it listed. */
  lemma ListsStay(ts: seq<Token>, t: Token, i: nat, es: seq<Entry>, more: seq<Entry>)
    requires Lists(ts, i, es) && !Inside(ts + [t], i, |ts|)
    requires more == es || (|more| == |es| + 1 && more[..|es|] == es && !more[|es|].BlockEntry?)
    ensures Lists(ts + [t], i, more)
  {
    hide Inside, NumberOf, FromToken;
    InsideStep(ts, t);
    NextName(ts, t);
    assert forall k :: 0 <= k < |es| ==> more[k] == es[k];
    forall k | 0 <= k < |more| && more[k].BlockEntry? ensures FromToken(ts + [t], i, more[k].index) {
      FromTokenStays(ts, t, i, more[k].index);
    }
    forall n: nat | Inside(ts + [t], i, n) ensures HasEntry(more, NumberOf(ts + [t], n)) {
      assert Inside(ts, i, n);
      var k :| 0 <= k < |es| && es[k] == BlockEntry(NumberOf(ts, n));
      assert more[k] == es[k];
    }
  }

  /** A new block comes last. */
  lemma ListsMore(ts: seq<Token>, t: Token, i: nat, es: seq<Entry>)
    requires Lists(ts, i, es) && t.Block? && Inside(ts + [t], i, |ts|)
    ensures Lists(ts + [t], i, es + [BlockEntry(1 + |BlockNames(ts)|)])
  {
    hide Inside, FromToken;
    var j := 1 + |BlockNames(ts)|;
    var more := es + [BlockEntry(j)];
    InsideStep(ts, t);
    NextName(ts, t);
    assert ts[..|ts|] == ts;
    assert NumberOf(ts + [t], |ts|) == j;
    forall k | 0 <= k < |more| && more[k].BlockEntry? ensures FromToken(ts + [t], i, more[k].index) {
      if k < |es| {
        FromTokenStays(ts, t, i, es[k].index);
      } else {
        IsFromToken(ts + [t], i, |ts|);
      }
    }
    forall n: nat | Inside(ts + [t], i, n) ensures HasEntry(more, NumberOf(ts + [t], n)) {
      if n < |ts| {
        var k :| 0 <= k < |es| && es[k] == BlockEntry(NumberOf(ts, n));
        assert more[k] == es[k];
      } else {
        assert more[|es|] == BlockEntry(j);
      }
    }
  }

  lemma IsFromToken(ts: seq<Token>, i: nat, n: nat)
    requires Inside(ts, i, n)
    ensures n < |ts| && FromToken(ts, i, NumberOf(ts, n))
  {
  }

  // ----- looking a block up -----

  /** The objects hold what the stream has been loaded to. */
  ghost predicate Loaded(all: seq<T.Block>, ts: seq<Token>)
    reads all
  {
    Run(ts).State? && Holds(all, Run(ts).entries) && Named(all, ts)
  }

  /** The token at `n` begins a block of that name directly inside block `i`. */
  predicate Begins(ts: seq<Token>, i: nat, n: nat, name: string) {
    Inside(ts, i, n) && ts[n].value == name
  }

  lemma BeginsInside(ts: seq<Token>, i: nat, n: nat, name: string)
    ensures Begins(ts, i, n, name) ==> Inside(ts, i, n) && n < |ts| && ts[n].Block? && ts[n].value == name
    ensures Inside(ts, i, n) ==> n < |ts| && ts[n].Block? && (ts[n].value == name ==> Begins(ts, i, n, name))
  {
  }

  /** The block of a token stands where its number says, under its name. */
  lemma TokenBlock(all: seq<T.Block>, ts: seq<Token>, i: nat, n: nat) returns (k: nat)
    requires Loaded(all, ts) && i < |all| && Inside(ts, i, n)
    ensures n < |ts| && ts[n].Block? && NumberOf(ts, n) < |all| && all[NumberOf(ts, n)].name == ts[n].value
    ensures k < |all[i].fragments| == |Run(ts).entries[i]|
    ensures Run(ts).entries[i][k] == BlockEntry(NumberOf(ts, n)) && all[i].fragments[k] == T.BlockFragment(all[NumberOf(ts, n)])
  {
    hide Run, Inside;
    EntriesAreListed(ts);
    InsideIsBlock(ts, i, n);
    NumberIs(ts, n);
    HoldsAll(all, Run(ts).entries);
    assert Lists(ts, i, Run(ts).entries[i]);
    var j := NumberOf(ts, n);
    assert HasEntry(Run(ts).entries[i], j);
    k :| 0 <= k < |Run(ts).entries[i]| && Run(ts).entries[i][k] == BlockEntry(j);
    assert SameFragments(all[i].fragments, Run(ts).entries[i], all);
    assert SameFragment(all[i].fragments[k], Run(ts).entries[i][k], all);
  }

  lemma InsideIsBlock(ts: seq<Token>, i: nat, n: nat)
    requires Inside(ts, i, n)
    ensures n < |ts| && ts[n].Block?
  {
  }

  /** The token of a block that stands in another. */
  lemma BlockToken(all: seq<T.Block>, ts: seq<Token>, i: nat, k: nat) returns (n: nat)
    requires Loaded(all, ts) && i < |all| && k < |all[i].fragments| && all[i].fragments[k].BlockFragment?
    ensures Inside(ts, i, n) && n < |ts| && NumberOf(ts, n) < |all|
    ensures |Run(ts).entries| == |all| && k < |Run(ts).entries[i]| && Run(ts).entries[i][k] == BlockEntry(NumberOf(ts, n))
    ensures all[i].fragments[k].block == all[NumberOf(ts, n)] && all[NumberOf(ts, n)].name == ts[n].value
  {
    hide Run, Inside;
    EntriesAreListed(ts);
    HoldsAll(all, Run(ts).entries);
    assert Lists(ts, i, Run(ts).entries[i]);
    assert SameFragments(all[i].fragments, Run(ts).entries[i], all);
    assert SameFragment(all[i].fragments[k], Run(ts).entries[i][k], all);
    var j := Run(ts).entries[i][k].index;
    assert FromToken(ts, i, j);
    n :| n <= |ts| && Inside(ts, i, n) && NumberOf(ts, n) == j;
    InsideIsBlock(ts, i, n);
    NumberIs(ts, n);
  }

  /** Where entries stand in order, so do their tokens. */
  lemma EarlierEntry(ts: seq<Token>, i: nat, k: nat, m: nat, j: nat, l: nat)
    requires Run(ts).State? && i < |Run(ts).entries| && k < |Run(ts).entries[i]| && m < |Run(ts).entries[i]|
    requires Run(ts).entries[i][k] == BlockEntry(j) && Run(ts).entries[i][m] == BlockEntry(l) && l < j
    ensures m < k
  {
    hide Run;
    EntriesAreListed(ts);
    assert Lists(ts, i, Run(ts).entries[i]);
  }

  /** On a loaded block, a name finds the block of the first token of that name directly inside it, and nothing exactly
      if there is no such token. */
  method FindLoaded(block: T.Block, name: string, ghost all: seq<T.Block>, ghost ts: seq<Token>, ghost i: nat)
    returns (found: T.Block?, ghost n: nat)
    requires Loaded(all, ts) && i < |all| && all[i] == block
    ensures found == null <==> forall m: nat :: !Begins(ts, i, m, name)
    ensures found != null ==>
              && Begins(ts, i, n, name) && n < |ts| && NumberOf(ts, n) < |all| && found == all[NumberOf(ts, n)]
              && forall m: nat :: m < n ==> !Begins(ts, i, m, name)
  {
    hide Run, Loaded, Begins, Inside, NumberOf;
    found := block.FindBlock(name);
    n := 0;
    if found == null {
      forall m: nat ensures !Begins(ts, i, m, name) {
        BeginsInside(ts, i, m, name);
        if Begins(ts, i, m, name) {
          var k := TokenBlock(all, ts, i, m);
          assert false;
        }
      }
    } else {
      ghost var k: nat :| k < |block.fragments| && block.fragments[k] == T.BlockFragment(found) && found.name == name
                          && forall j :: 0 <= j < k && block.fragments[j].BlockFragment? ==> block.fragments[j].block.name != name;
      n := BlockToken(all, ts, i, k);
      BeginsInside(ts, i, n, name);
      forall m: nat | m < n ensures !Begins(ts, i, m, name) {
        BeginsInside(ts, i, m, name);
        if Begins(ts, i, m, name) {
          var l := TokenBlock(all, ts, i, m);
          NumberIs(ts, m);
          LoadedState(all, ts);
          EarlierEntry(ts, i, k, l, NumberOf(ts, n), NumberOf(ts, m));
          assert false;
        }
      }
    }
  }

  lemma LoadedState(all: seq<T.Block>, ts: seq<Token>)
    requires Loaded(all, ts)
    ensures Run(ts).State? && |Run(ts).entries| == |all|
  {
    hide Run;
  }

  /** A template loaded and asked for a block. */
  method LoadAndFind(main: T.Block, files: Files, file: string, name: string, ghost rank: map<string, nat>)
    returns (found: T.Block?, ghost n: nat)
    requires Acyclic(files, rank) && Run(Expand(files, rank, file)).State?
    modifies main
    ensures found == null <==> forall m: nat :: !Begins(Expand(files, rank, file), 0, m, name)
    ensures found != null ==> Begins(Expand(files, rank, file), 0, n, name) && found.name == name
    ensures found != null ==> forall m: nat :: m < n ==> !Begins(Expand(files, rank, file), 0, m, name)
  {
    hide Run, Holds, Expand, Acyclic, Good, InBounds, Begins, Named, Untouched;
    main.fragments, main.nodes, main.properties := [], [], [];
    var loading := new Loading(main);
    assert loading.done + Expand(files, rank, file) == Expand(files, rank, file);
    loading.LoadRecursive(files, file, rank);
    assert loading.all[0] == loading.all[..1][0] == main;
    found, n := FindLoaded(main, name, loading.all, loading.done, 0);
    if found != null {
      BeginsInside(loading.done, 0, n, name);
      var _ := TokenBlock(loading.all, loading.done, 0, n);
    }
  }
}
