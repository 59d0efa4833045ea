/** Loading a template: the stack of open blocks, includes, and what the loaded tree renders to. */
module TemplateLoad {
  import opened TemplateTokens
  import T = TemplateTree

  // ----- the flat stream of tokens -----

  /** The files a loader knows, by name. */
  type Files = map<string, string>

  /** Every include leads to a file of lower rank, or to none. */
  ghost predicate Acyclic(files: Files, rank: map<string, nat>) {
    forall name :: name in files ==> name in rank && IncludesBelow(Tokens(files[name]), files, rank, rank[name])
  }

  ghost predicate IncludesBelow(ts: seq<Token>, files: Files, rank: map<string, nat>, bound: nat) {
    forall k :: 0 <= k < |ts| && ts[k].Include? && ts[k].value in files ==> ts[k].value in rank && rank[ts[k].value] < bound
  }

  /** The tokens of a file, every include replaced by the tokens of what it includes; none for a missing file. */
  ghost function Expand(files: Files, rank: map<string, nat>, name: string): seq<Token>
    requires Acyclic(files, rank)
    decreases if name in files then rank[name] + 1 else 0, 0, 0
  {
    if name !in files then [] else ExpandAll(files, rank, Tokens(files[name]), rank[name])
  }

  ghost function ExpandAll(files: Files, rank: map<string, nat>, ts: seq<Token>, bound: nat): seq<Token>
    requires Acyclic(files, rank) && IncludesBelow(ts, files, rank, bound)
    decreases bound, 1, |ts|
  {
    if ts == [] then []
    else
      assert IncludesBelow(ts[1..], files, rank, bound);
      (if ts[0].Include? then Expand(files, rank, ts[0].value) else [ts[0]]) + ExpandAll(files, rank, ts[1..], bound)
  }

  // ----- the loader's stack machine -----

  datatype Entry = TextEntry(text: string) | VarEntry(name: string) | BlockEntry(index: nat)

  /** The entries of every block, in the order in which the blocks were made, and the open blocks.
      Undefined once the stack of open blocks is used when empty. */
  datatype State = State(entries: seq<seq<Entry>>, stack: seq<nat>) | Undefined

  const Start := State([[]], [0])

  predicate InBounds(st: State) {
    st.State? ==> forall k :: 0 <= k < |st.stack| ==> st.stack[k] < |st.entries|
  }

  function Push(entries: seq<seq<Entry>>, i: nat, e: Entry): seq<seq<Entry>>
    requires i < |entries|
  {
    entries[i := entries[i] + [e]]
  }

  function Step(st: State, t: Token): (r: State)
    requires InBounds(st)
    ensures InBounds(r)
  {
    if st.Undefined? || t.End? || t.Include? then st
    else if st.stack == [] then Undefined
    else
      var top := st.stack[|st.stack| - 1];
      match t
      case Text(value) => st.(entries := Push(st.entries, top, TextEntry(value)))
      case Var(value) => st.(entries := Push(st.entries, top, VarEntry(value)))
      case Block(_) => State(Push(st.entries, top, BlockEntry(|st.entries|)) + [[]], st.stack + [|st.entries|])
      case EndBlock => st.(stack := st.stack[..|st.stack| - 1])
  }

  function Run(ts: seq<Token>): (st: State)
    ensures InBounds(st)
  {
    if ts == [] then Start else Step(Run(ts[..|ts| - 1]), ts[|ts| - 1])
  }

  lemma {:induction false} RunPrefix(ts: seq<Token>, n: nat)
    requires n <= |ts| && Run(ts[..n]).Undefined?
    ensures Run(ts).Undefined?
    decreases |ts|
  {
    if n < |ts| {
      assert ts[..|ts| - 1][..n] == ts[..n];
      RunPrefix(ts[..|ts| - 1], n);
    } else {
      assert ts[..n] == ts;
    }
  }

  /** The template and the blocks open after the tokens. */
  function Depth(ts: seq<Token>): int {
    if ts == [] then 1
    else Depth(ts[..|ts| - 1]) + match ts[|ts| - 1] case Block(_) => 1 case EndBlock => -1 case _ => 0
  }

  /** No token comes after the end of the template itself: no block is ended that was not begun, except at the very end. */
  ghost predicate Balanced(ts: seq<Token>) {
    forall n :: 0 <= n < |ts| && !ts[n].End? && !ts[n].Include? ==> Depth(ts[..n]) >= 1
  }

  /** Exactly the balanced streams are loaded without touching an empty stack. */
  lemma {:induction false} DefinedIfBalanced(ts: seq<Token>)
    ensures Run(ts).State? <==> Balanced(ts)
    ensures Run(ts).State? ==> |Run(ts).stack| == Depth(ts)
    decreases |ts|
  {
    if ts != [] {
      var front := ts[..|ts| - 1];
      DefinedIfBalanced(front);
      FrontBalanced(ts);
    }
  }

  /** The last token comes after the end of the template, or one before it does. */
  lemma FrontBalanced(ts: seq<Token>)
    requires ts != []
    ensures var front, t := ts[..|ts| - 1], ts[|ts| - 1];
            Balanced(ts) <==> Balanced(front) && (!t.End? && !t.Include? ==> Depth(front) >= 1)
  {
    hide Depth;
    var front := ts[..|ts| - 1];
    assert forall n :: 0 <= n < |front| ==> front[n] == ts[n] && front[..n] == ts[..n];
    assert ts[..|front|] == front;
  }

  // ----- what a stream means -----

  /** The dictionary of every block, and whether it is enabled, by the number of the block. */
  datatype Env = Env(dict: nat -> T.Properties, on: nat -> bool)

  /** One pass over the stream: the output so far, the open blocks, and the number of blocks met. */
  datatype Pass = Pass(out: string, open: seq<nat>, count: nat)

  predicate Visible(open: seq<nat>, env: Env) {
    forall k :: 1 <= k < |open| ==> env.on(open[k])
  }

  /** Text is written, a variable is looked up in the block that encloses it, both only where every enclosing
      block (the template itself aside) is enabled. */
  function Emit(p: Pass, t: Token, env: Env): Pass {
    if p.open == [] then p
    else
      match t
      case Text(value) => if Visible(p.open, env) then p.(out := p.out + value) else p
      case Var(name) => if Visible(p.open, env) then p.(out := p.out + T.Find(env.dict(p.open[|p.open| - 1]), name)) else p
      case Block(_) => Pass(p.out, p.open + [p.count], p.count + 1)
      case EndBlock => p.(open := p.open[..|p.open| - 1])
      case _ => p
  }

  function Meaning(ts: seq<Token>, env: Env): Pass {
    if ts == [] then Pass("", [0], 1) else Emit(Meaning(ts[..|ts| - 1], env), ts[|ts| - 1], env)
  }

  // ----- rendering by entries -----

  /** Blocks contain only blocks made later. */
  ghost predicate Ordered(entries: seq<seq<Entry>>) {
    forall i, k :: 0 <= i < |entries| && 0 <= k < |entries[i]| && entries[i][k].BlockEntry? ==> i < entries[i][k].index < |entries|
  }

  /** The first `n` entries of block `i`. */
  ghost function RenderEntries(entries: seq<seq<Entry>>, env: Env, i: nat, n: nat): string
    requires Ordered(entries) && i < |entries| && n <= |entries[i]|
    decreases |entries| - i, n
  {
    if n == 0 then ""
    else RenderEntries(entries, env, i, n - 1)
         + match entries[i][n - 1]
           case TextEntry(text) => text
           case VarEntry(name) => T.Find(env.dict(i), name)
           case BlockEntry(j) => if env.on(j) then RenderEntries(entries, env, j, |entries[j]|) else ""
  }

  ghost function RenderWhole(entries: seq<seq<Entry>>, env: Env, i: nat): string
    requires Ordered(entries) && i < |entries|
  {
    RenderEntries(entries, env, i, |entries[i]|)
  }

  /** The first `n` entries of block `i`, and all inside them, are in blocks below `bound`. */
  ghost predicate Within(entries: seq<seq<Entry>>, i: nat, n: nat, bound: nat)
    requires Ordered(entries) && i < |entries| && n <= |entries[i]|
    decreases |entries| - i, n
  {
    n == 0 || (Within(entries, i, n - 1, bound)
               && (entries[i][n - 1].BlockEntry? ==>
                     var j := entries[i][n - 1].index;
                     j < bound && Within(entries, j, |entries[j]|, bound)))
  }

  /** What lies below `bound` renders the same when blocks from `bound` on change. */
  lemma {:induction false} WithinSame(a: seq<seq<Entry>>, b: seq<seq<Entry>>, env: Env, i: nat, n: nat, bound: nat)
    requires Ordered(a) && Ordered(b) && i < |a| && i < |b| && n <= |a[i]| && n <= |b[i]| && a[i][..n] == b[i][..n]
    requires bound <= |a| && bound <= |b| && (forall k :: 0 <= k < bound && k > i ==> a[k] == b[k]) && Within(a, i, n, bound)
    ensures Within(b, i, n, bound) && RenderEntries(a, env, i, n) == RenderEntries(b, env, i, n)
    decreases |a| - i, n
  {
    if n > 0 {
      assert a[i][..n - 1] == a[i][..n][..n - 1] && b[i][..n - 1] == b[i][..n][..n - 1];
      WithinSame(a, b, env, i, n - 1, bound);
      assert a[i][n - 1] == a[i][..n][n - 1] == b[i][..n][n - 1] == b[i][n - 1];
      if a[i][n - 1].BlockEntry? {
        var j := a[i][n - 1].index;
        WithinSame(a, b, env, j, |a[j]|, bound);
      }
    }
  }

  lemma {:induction false} AllWithin(entries: seq<seq<Entry>>, i: nat, n: nat)
    requires Ordered(entries) && i < |entries| && n <= |entries[i]|
    ensures Within(entries, i, n, |entries|)
    decreases |entries| - i, n
  {
    if n > 0 {
      AllWithin(entries, i, n - 1);
      if entries[i][n - 1].BlockEntry? {
        AllWithin(entries, entries[i][n - 1].index, |entries[entries[i][n - 1].index]|);
      }
    }
  }

  /** Every open block is the last entry of the one it stands in, and what comes before it is complete. */
  ghost predicate OpenIn(entries: seq<seq<Entry>>, stack: seq<nat>, k: nat)
    requires Ordered(entries) && k + 1 < |stack| && stack[k] < |entries|
  {
    var i := stack[k];
    && |entries[i]| > 0 && entries[i][|entries[i]| - 1] == BlockEntry(stack[k + 1])
    && Within(entries, i, |entries[i]| - 1, stack[k + 1])
  }

  ghost predicate Good(st: State) {
    st.State? ==>
      && Ordered(st.entries) && |st.entries| > 0 && InBounds(st) && (st.stack != [] ==> st.stack[0] == 0)
      && (forall k :: 0 <= k < |st.stack| - 1 ==> st.stack[k] < st.stack[k + 1])
      && (forall k :: 0 <= k < |st.stack| - 1 ==> OpenIn(st.entries, st.stack, k))
  }

  // ----- one step -----

  /** `b` is `a` with one more entry in the block on top of the stack, and perhaps a new empty block. */
  ghost predicate Extends(a: seq<seq<Entry>>, b: seq<seq<Entry>>, top: nat, e: Entry) {
    && Ordered(a) && Ordered(b) && top < |a| <= |b| <= |a| + 1 && b[top] == a[top] + [e]
    && (forall x :: 0 <= x < |a| && x != top ==> b[x] == a[x])
    && (|a| < |b| ==> b[|a|] == [])
    && (e.BlockEntry? ==> |a| < |b| && e.index == |a|)
  }

  lemma PushExtends(a: seq<seq<Entry>>, top: nat, e: Entry)
    requires Ordered(a) && top < |a|
    ensures !e.BlockEntry? ==> Extends(a, Push(a, top, e), top, e)
    ensures e == BlockEntry(|a|) ==> Extends(a, Push(a, top, e) + [[]], top, e)
  {
  }

  /** The state of the machine before a step that appends. */
  ghost predicate Stacked(a: seq<seq<Entry>>, stack: seq<nat>) {
    Good(State(a, stack)) && stack != []
  }

  lemma {:induction false} StackRises(stack: seq<nat>, k: nat, m: nat)
    requires k <= m < |stack| && forall x :: 0 <= x < |stack| - 1 ==> stack[x] < stack[x + 1]
    ensures stack[k] + (m - k) <= stack[m]
    decreases m - k
  {
    if k < m {
      StackRises(stack, k, m - 1);
    }
  }

  /** Blocks under the top one stay as they are. */
  lemma UnderTop(a: seq<seq<Entry>>, b: seq<seq<Entry>>, stack: seq<nat>, e: Entry, env: Env, k: nat)
    requires Stacked(a, stack) && Extends(a, b, stack[|stack| - 1], e) && k + 1 < |stack|
    ensures OpenIn(b, stack, k)
    ensures a[stack[k]] == b[stack[k]] && |a[stack[k]]| > 0
    ensures var n := |a[stack[k]]| - 1; RenderEntries(a, env, stack[k], n) == RenderEntries(b, env, stack[k], n)
  {
    StackRises(stack, k, |stack| - 1);
    StackRises(stack, k + 1, |stack| - 1);
    assert OpenIn(a, stack, k);
    WithinSame(a, b, env, stack[k], |a[stack[k]]| - 1, stack[k + 1]);
  }

  /** The block on top renders as before, and then the new entry. */
  lemma AtTop(a: seq<seq<Entry>>, b: seq<seq<Entry>>, top: nat, e: Entry, env: Env)
    requires Extends(a, b, top, e)
    ensures Within(b, top, |a[top]|, |a|)
    ensures RenderWhole(b, env, top) == RenderWhole(a, env, top) + EntryText(e, top, env)
  {
    AllWithin(a, top, |a[top]|);
    WithinSame(a, b, env, top, |a[top]|, |a|);
    assert b[top][|a[top]|] == e;
    if e.BlockEntry? {
      assert RenderEntries(b, env, e.index, |b[e.index]|) == "";
    }
    assert RenderEntries(b, env, top, |b[top]|) == RenderEntries(b, env, top, |a[top]|) + EntryText(e, top, env);
  }

  function EntryText(e: Entry, top: nat, env: Env): string {
    match e
    case TextEntry(text) => text
    case VarEntry(name) => T.Find(env.dict(top), name)
    case BlockEntry(_) => ""
  }

  predicate VisibleFrom(stack: seq<nat>, k: nat, env: Env) {
    forall m :: k < m < |stack| ==> env.on(stack[m])
  }

  /** Every open block, and so the template, renders as before with the new entry behind it, if it shows. */
  lemma {:induction false} OutputGrows(a: seq<seq<Entry>>, b: seq<seq<Entry>>, stack: seq<nat>, e: Entry, env: Env, k: nat)
    requires Stacked(a, stack) && Extends(a, b, stack[|stack| - 1], e) && k < |stack|
    ensures RenderWhole(b, env, stack[k])
         == RenderWhole(a, env, stack[k]) + if VisibleFrom(stack, k, env) then EntryText(e, stack[|stack| - 1], env) else ""
    decreases |stack| - k
  {
    hide EntryText;
    if k == |stack| - 1 {
      AtTop(a, b, stack[k], e, env);
    } else {
      UnderTop(a, b, stack, e, env, k);
      OutputGrows(a, b, stack, e, env, k + 1);
      assert OpenIn(a, stack, k);
      assert VisibleFrom(stack, k, env) <==> env.on(stack[k + 1]) && VisibleFrom(stack, k + 1, env);
    }
  }

  lemma ExtendedIsGood(a: seq<seq<Entry>>, b: seq<seq<Entry>>, stack: seq<nat>, e: Entry, env: Env)
    requires Stacked(a, stack) && Extends(a, b, stack[|stack| - 1], e)
    ensures !e.BlockEntry? ==> Good(State(b, stack))
    ensures e.BlockEntry? ==> Good(State(b, stack + [|a|]))
  {
    hide Within;
    forall k | 0 <= k < |stack| - 1 ensures OpenIn(b, stack, k) {
      UnderTop(a, b, stack, e, env, k);
    }
    if e.BlockEntry? {
      var more := stack + [|a|];
      AtTop(a, b, stack[|stack| - 1], e, env);
      forall k | 0 <= k < |more| - 1 ensures OpenIn(b, more, k) {
        if k < |stack| - 1 {
          assert OpenIn(b, stack, k);
        }
      }
    }
  }

  /** The machine's state and the pass over the stream agree. */
  ghost predicate Agrees(st: State, p: Pass, env: Env) {
    st.State? ==> Good(st) && p.open == st.stack && p.count == |st.entries| && p.out == RenderWhole(st.entries, env, 0)
  }

  lemma StepAgrees(st: State, p: Pass, t: Token, env: Env)
    requires InBounds(st) && Agrees(st, p, env)
    ensures Agrees(Step(st, t), Emit(p, t, env), env)
  {
    hide RenderWhole, OpenIn, Ordered;
    if st.State? && st.stack != [] {
      var a, top := st.entries, st.stack[|st.stack| - 1];
      assert Visible(st.stack, env) <==> VisibleFrom(st.stack, 0, env);
      match t
      case Text(value) => Appends(st, p, t, TextEntry(value), env);
      case Var(name) => Appends(st, p, t, VarEntry(name), env);
      case Block(_) => Appends(st, p, t, BlockEntry(|a|), env);
      case EndBlock => PopIsGood(st, env);
      case _ =>
    }
  }

  lemma PopIsGood(st: State, env: Env)
    requires st.State? && Good(st) && st.stack != []
    ensures Good(State(st.entries, st.stack[..|st.stack| - 1]))
  {
    hide Within;
    var stack := st.stack[..|st.stack| - 1];
    forall k | 0 <= k < |stack| - 1 ensures OpenIn(st.entries, stack, k) {
      assert OpenIn(st.entries, st.stack, k);
    }
  }

  lemma Appends(st: State, p: Pass, t: Token, e: Entry, env: Env)
    requires st.State? && Good(st) && st.stack != [] && InBounds(st) && Agrees(st, p, env)
    requires (t.Text? && e == TextEntry(t.value)) || (t.Var? && e == VarEntry(t.value)) || (t.Block? && e == BlockEntry(|st.entries|))
    ensures Agrees(Step(st, t), Emit(p, t, env), env)
  {
    hide RenderWhole, OpenIn, Ordered, RenderEntries, Within;
    var a, stack := st.entries, st.stack;
    var top := stack[|stack| - 1];
    var b := Push(a, top, e) + if e.BlockEntry? then [[]] else [];
    assert b == Step(st, t).entries;
    PushExtends(a, top, e);
    ExtendedIsGood(a, b, stack, e, env);
    OutputGrows(a, b, stack, e, env, 0);
    assert Visible(stack, env) <==> VisibleFrom(stack, 0, env);
  }

  /** What a loaded stream renders to is what the stream means. */
  lemma {:induction false} LoadedMeaning(ts: seq<Token>, env: Env)
    ensures Agrees(Run(ts), Meaning(ts, env), env)
  {
    hide Good, RenderEntries;
    if ts == [] {
      StartAgrees(env);
    } else {
      LoadedMeaning(ts[..|ts| - 1], env);
      StepAgrees(Run(ts[..|ts| - 1]), Meaning(ts[..|ts| - 1], env), ts[|ts| - 1], env);
    }
  }

  lemma StartAgrees(env: Env)
    ensures Agrees(Start, Pass("", [0], 1), env)
  {
  }

  // ----- the tree in memory -----

  ghost predicate SameFragment(f: T.Fragment, e: Entry, all: seq<T.Block>) {
    match e
    case TextEntry(text) => f == T.TextFragment(text)
    case VarEntry(name) => f == T.VarFragment(name)
    case BlockEntry(j) => j < |all| && f == T.BlockFragment(all[j])
  }

  ghost predicate SameFragments(fs: seq<T.Fragment>, es: seq<Entry>, all: seq<T.Block>) {
    |fs| == |es| && forall k :: 0 <= k < |fs| ==> SameFragment(fs[k], es[k], all)
  }

  ghost predicate Distinct(all: seq<T.Block>) {
    forall i, j :: 0 <= i < j < |all| ==> all[i] != all[j]
  }

  /** The blocks, in the order in which they were made, hold the entries; none inside the template is repeated. */
  ghost predicate Holds(all: seq<T.Block>, entries: seq<seq<Entry>>)
    reads all
  {
    && |all| == |entries| && Distinct(all)
    && forall i :: 0 <= i < |all| ==> SameFragments(all[i].fragments, entries[i], all) && all[i].nodes == [] && (i > 0 ==> !all[i].resized)
  }

  /** Nothing has been set or switched off yet. */
  ghost predicate Untouched(all: seq<T.Block>)
    reads all
  {
    forall i :: 0 <= i < |all| ==> all[i].properties == [] && (i > 0 ==> all[i].enabled)
  }

  /** The names of the blocks of a stream, in the order in which they begin. */
  function BlockNames(ts: seq<Token>): seq<string> {
    if ts == [] then []
    else BlockNames(ts[..|ts| - 1]) + match ts[|ts| - 1] case Block(name) => [name] case _ => []
  }

  lemma NextName(ts: seq<Token>, t: Token)
    ensures BlockNames(ts + [t]) == BlockNames(ts) + if t.Block? then [t.value] else []
  {
    assert (ts + [t])[..|ts|] == ts;
  }

  /** Every block but the template has the name that it begins with. */
  ghost predicate Named(all: seq<T.Block>, ts: seq<Token>) {
    |all| == 1 + |BlockNames(ts)| && forall k :: 0 < k < |all| ==> all[k].name == BlockNames(ts)[k - 1]
  }

  lemma NamedStep(before: seq<T.Block>, all: seq<T.Block>, ts: seq<Token>, t: Token)
    requires Named(before, ts) && |all| == |before| + (if t.Block? then 1 else 0) && all[..|before|] == before
    requires t.Block? ==> all[|before|].name == t.value
    ensures Named(all, ts + [t])
  {
    NextName(ts, t);
    assert forall k :: 0 <= k < |before| ==> all[k] == before[k];
  }

  /** A run of `load_recursive` over its stack of nodes. */
  class Loading {
    var nodes: seq<T.Block>
    ghost var all: seq<T.Block>
    ghost var done: seq<Token>

    /** `clear` has left the template empty, and it is the only node on the stack. */
    constructor (main: T.Block)
      requires main.fragments == [] && main.nodes == [] && main.properties == []
      ensures Valid() && done == [] && all == [main]
    {
      nodes := [main];
      all := [main];
      done := [];
      new;
      GoodRun([]);
    }

    /** The blocks hold what the machine has made of the tokens seen so far. */
    ghost predicate Valid()
      reads this, all
    {
      var st := Run(done);
      && st.State? && |all| > 0 && Holds(all, st.entries) && Named(all, done) && Untouched(all) && Good(st)
      && |nodes| == |st.stack| && forall k :: 0 <= k < |nodes| ==> nodes[k] == all[st.stack[k]]
    }

    /** One token that is neither an include nor the end. */
    method Take(token: Token)
      requires Valid() && !token.End? && !token.Include? && Run(done + [token]).State?
      modifies this, all
      ensures Valid() && done == old(done) + [token] && GrownFrom(old(all))
    {
      hide Good, RenderEntries, Holds, Untouched, Run, Named;
      ghost var before := all;
      StepTaken(done, token);
      GoodRun(done + [token]);
      if token.EndBlock? {
        nodes := nodes[..|nodes| - 1];
      } else {
        TakeFragment(token);
      }
      NamedStep(before, all, done, token);
      done := done + [token];
    }

    /** `load_recursive`: the tokens of the file and of all it includes. */
    method LoadRecursive(files: Files, name: string, ghost rank: map<string, nat>)
      requires Valid() && Acyclic(files, rank) && Run(done + Expand(files, rank, name)).State?
      modifies this, all
      ensures Valid() && done == old(done) + Expand(files, rank, name) && GrownFrom(old(all))
      decreases if name in files then rank[name] + 1 else 0, 0
    {
      hide Run, Good, Holds, Tokens, TokensFrom, Expand, ExpandAll, IncludesBelow, Acyclic, InBounds, Valid, Tokenizer.Valid, Tokenizer.Rest;
      ExpandFile(files, rank, name);
      if name !in files {
        return;
      }
      var file := new Tokenizer(files[name]);
      ghost var want := done + Expand(files, rank, name);
      var finished := false;
      while !finished
        invariant Valid() && file.Valid() && fresh(file) && GrownFrom(old(all))
        invariant IncludesBelow(file.Rest(), files, rank, rank[name]) && (finished ==> file.Rest() == [])
        invariant done + ExpandAll(files, rank, file.Rest(), rank[name]) == want
        decreases |file.Rest()|, if finished then 0 else 1
      {
        ghost var rest := file.Rest();
        ExpandRest(files, rank, rest, rank[name]);
        var token := file.Next();
        if token.End? {
          finished := true;
        } else {
          RestIsBelow(rest, files, rank, rank[name]);
          Process(token, files, rank, rank[name], ExpandAll(files, rank, rest[1..], rank[name]), want);
        }
      }
      ExpandRest(files, rank, file.Rest(), rank[name]);
      assert done + [] == done;
    }

    /** One token of a file whose rank is `bound`; `later` are the tokens that come after it. */
    method Process(token: Token, files: Files, ghost rank: map<string, nat>, ghost bound: nat, ghost later: seq<Token>, ghost want: seq<Token>)
      requires Valid() && Acyclic(files, rank) && !token.End? && Run(want).State?
      requires token.Include? && token.value in files ==> token.value in rank && rank[token.value] < bound
      requires done + ((if token.Include? then Expand(files, rank, token.value) else [token]) + later) == want
      modifies this, all
      ensures Valid() && done + later == want && GrownFrom(old(all))
      decreases bound, 1
    {
      hide Run, Good, Holds, Tokens, Expand;
      WantsMore(done, if token.Include? then Expand(files, rank, token.value) else [token], later, want);
      if token.Include? {
        LoadRecursive(files, token.value, rank);
      } else {
        Take(token);
      }
    }

    /** Only new blocks have been added. */
    twostate predicate GrownFrom(before: seq<T.Block>)
      reads this
    {
      |before| <= |all| && all[..|before|] == before && forall i :: |before| <= i < |all| ==> fresh(all[i])
    }

    method TakeFragment(token: Token)
      requires Valid() && (token.Text? || token.Var? || token.Block?) && Step(Run(done), token).State?
      modifies this`nodes, this`all, all
      ensures done == old(done) && GrownFrom(old(all)) && Untouched(all)
      ensures |all| == |old(all)| + (if token.Block? then 1 else 0) && (token.Block? ==> all[|all| - 1].name == token.value)
      ensures var st := Step(Run(done), token);
              && Holds(all, st.entries)
              && |nodes| == |st.stack| && forall k :: 0 <= k < |nodes| ==> nodes[k] == all[st.stack[k]]
    {
      hide Good, Run, Step, Holds;
      ghost var st := Run(done);
      StepAppends(st, token);
      ghost var top := st.stack[|st.stack| - 1];
      HoldsAll(all, st.entries);
      var node := nodes[|nodes| - 1];
      assert node == all[top];
      match token
      case Text(value) =>
        AddFragment(node, T.TextFragment(value), all, st.entries, top, TextEntry(value));
      case Var(value) =>
        AddFragment(node, T.VarFragment(value), all, st.entries, top, VarEntry(value));
      case Block(value) =>
        var block := new T.Block(value);
        AddBlock(node, block, all, st.entries, top);
        nodes := nodes + [block];
        all := all + [block];
    }
  }

  lemma HoldsAll(all: seq<T.Block>, entries: seq<seq<Entry>>)
    requires Holds(all, entries)
    ensures |all| == |entries|
  {
  }

  lemma StepTaken(done: seq<Token>, token: Token)
    ensures Run(done + [token]) == Step(Run(done), token)
  {
    assert (done + [token])[..|done|] == done;
  }

  lemma GoodRun(ts: seq<Token>)
    ensures Good(Run(ts))
  {
    var env := Env(_ => [], _ => true);
    LoadedMeaning(ts, env);
  }

  lemma StepAppends(st: State, token: Token)
    requires InBounds(st) && Step(st, token).State? && (token.Text? || token.Var? || token.Block?)
    ensures st.State? && st.stack != []
    ensures var top := st.stack[|st.stack| - 1];
            match token
            case Text(value) => Step(st, token) == st.(entries := Push(st.entries, top, TextEntry(value)))
            case Var(value) => Step(st, token) == st.(entries := Push(st.entries, top, VarEntry(value)))
            case Block(_) => Step(st, token) == State(Push(st.entries, top, BlockEntry(|st.entries|)) + [[]], st.stack + [|st.entries|])
            case _ => true
  {
  }

  lemma ExpandFile(files: Files, rank: map<string, nat>, name: string)
    requires Acyclic(files, rank)
    ensures name !in files ==> Expand(files, rank, name) == []
    ensures name in files ==>
              && name in rank && IncludesBelow(Tokens(files[name]), files, rank, rank[name])
              && Expand(files, rank, name) == ExpandAll(files, rank, Tokens(files[name]), rank[name])
  {
  }

  lemma ExpandRest(files: Files, rank: map<string, nat>, ts: seq<Token>, bound: nat)
    requires Acyclic(files, rank) && IncludesBelow(ts, files, rank, bound)
    ensures ts == [] ==> ExpandAll(files, rank, ts, bound) == []
    ensures ts != [] ==>
              && IncludesBelow(ts[1..], files, rank, bound)
              && ExpandAll(files, rank, ts, bound)
              == (if ts[0].Include? then Expand(files, rank, ts[0].value) else [ts[0]]) + ExpandAll(files, rank, ts[1..], bound)
  {
    if ts != [] {
      RestIsBelow(ts, files, rank, bound);
    }
  }

  lemma RestIsBelow(ts: seq<Token>, files: Files, rank: map<string, nat>, bound: nat)
    requires ts != [] && IncludesBelow(ts, files, rank, bound)
    ensures IncludesBelow(ts[1..], files, rank, bound)
    ensures ts[0].Include? && ts[0].value in files ==> ts[0].value in rank && rank[ts[0].value] < bound
  {
  }

  lemma WantsMore(done: seq<Token>, now: seq<Token>, later: seq<Token>, want: seq<Token>)
    requires done + (now + later) == want && Run(want).State?
    ensures (done + now) + later == want && Run(done + now).State?
  {
    if Run(done + now).Undefined? {
      assert want[..|done + now|] == done + now;
      RunPrefix(want, |done + now|);
    }
  }

  method AddFragment(node: T.Block, f: T.Fragment, ghost all: seq<T.Block>, ghost entries: seq<seq<Entry>>, ghost i: nat, ghost e: Entry)
    requires Holds(all, entries) && i < |all| && node == all[i] && SameFragment(f, e, all) && !e.BlockEntry?
    modifies node`fragments
    ensures Holds(all, Push(entries, i, e))
  {
    node.fragments := node.fragments + [f];
    assert forall k :: 0 <= k < |all| && k != i ==> all[k] != node;
  }

  method AddBlock(node: T.Block, block: T.Block, ghost all: seq<T.Block>, ghost entries: seq<seq<Entry>>, ghost i: nat)
    requires Holds(all, entries) && i < |all| && node == all[i] && block !in all
    requires block.fragments == [] && block.nodes == [] && !block.resized
    modifies node`fragments
    ensures Holds(all + [block], Push(entries, i, BlockEntry(|all|)) + [[]])
  {
    node.fragments := node.fragments + [T.BlockFragment(block)];
    assert forall k :: 0 <= k < |all| && k != i ==> all[k] != node;
    ghost var more := all + [block];
    assert forall k, j :: 0 <= k < |all| && 0 <= j < |entries[k]| && entries[k][j].BlockEntry? && entries[k][j].index < |all| ==>
             more[entries[k][j].index] == all[entries[k][j].index];
  }

  // ----- the whole way -----

  /** Ranks for blocks made one after the other. */
  ghost function RanksOf(all: seq<T.Block>, from: nat): T.Ranks
    requires from <= |all|
    decreases |all| - from
  {
    if from == |all| then map[] else RanksOf(all, from + 1)[all[from] := |all| - from]
  }

  lemma {:induction false} RankOfEach(all: seq<T.Block>, from: nat)
    requires from <= |all| && Distinct(all)
    ensures forall i :: from <= i < |all| ==> all[i] in RanksOf(all, from) && RanksOf(all, from)[all[i]] == |all| - i
    ensures forall b :: b in RanksOf(all, from) ==> b in all[from..]
    decreases |all| - from
  {
    if from < |all| {
      RankOfEach(all, from + 1);
    }
  }

  lemma HeldIsRanked(all: seq<T.Block>, entries: seq<seq<Entry>>)
    requires Holds(all, entries) && Ordered(entries)
    ensures T.Ranked(RanksOf(all, 0))
  {
    var r := RanksOf(all, 0);
    RankOfEach(all, 0);
    forall b | b in r ensures T.FragmentsInside(b.fragments, r, r[b]) && T.NodesInside(b.nodes, r, r[b]) {
      var i :| 0 <= i < |all| && all[i] == b;
      assert SameFragments(all[i].fragments, entries[i], all);
      forall k | 0 <= k < |b.fragments| && b.fragments[k].BlockFragment? ensures T.Inside(b.fragments[k].block, r, r[b]) {
        assert SameFragment(b.fragments[k], entries[i][k], all);
      }
    }
  }

  /** The dictionaries and the switches of the blocks. */
  ghost predicate IsEnv(env: Env, all: seq<T.Block>)
    reads all
  {
    forall i :: 0 <= i < |all| ==> env.dict(i) == all[i].properties && (i > 0 ==> env.on(i) == all[i].enabled)
  }

  /** The tree in memory renders like the entries. */
  lemma {:induction false} HeldRenders(all: seq<T.Block>, entries: seq<seq<Entry>>, env: Env, i: nat, n: nat)
    requires Holds(all, entries) && Ordered(entries) && IsEnv(env, all) && i < |all| && n <= |entries[i]|
    ensures |entries| == |all| && T.Ranked(RanksOf(all, 0)) && all[i] in RanksOf(all, 0)
    ensures |all[i].fragments| == |entries[i]|
    ensures T.RenderFragments(T.Value(all[i], RanksOf(all, 0)), n) == RenderEntries(entries, env, i, n)
    decreases |all| - i, n
  {
    hide RanksOf, T.Value, T.Ranked, Holds, SameFragments, T.Find;
    var r := RanksOf(all, 0);
    HeldIsRanked(all, entries);
    HeldBlock(all, entries, i);
    T.ValueOf(all[i], r);
    if n > 0 {
      HeldRenders(all, entries, env, i, n - 1);
      OneHeld(all, entries, i, n - 1);
      if entries[i][n - 1].BlockEntry? {
        var j := entries[i][n - 1].index;
        HeldBlock(all, entries, j);
        T.ValueOf(all[j], r);
        HeldRenders(all, entries, env, j, |entries[j]|);
        BlockRenders(T.Value(all[i], r), n - 1, T.Value(all[j], r));
      }
    }
  }

  lemma BlockRenders(t: T.Tree, k: nat, u: T.Tree)
    requires k < |t.fragments| && t.fragments[k] == T.BlockPiece(u) && !u.resized
    ensures T.RenderFragments(t, k + 1) == T.RenderFragments(t, k) + if u.enabled then T.RenderFragments(u, |u.fragments|) else ""
  {
    assert T.RenderFragments(t, k + 1) == T.RenderFragments(t, k) + T.Render(u);
    assert u.enabled ==> T.Render(u) == T.RenderBody(u);
  }

  lemma HeldBlock(all: seq<T.Block>, entries: seq<seq<Entry>>, i: nat)
    requires Holds(all, entries) && i < |all|
    ensures |entries| == |all| && |all[i].fragments| == |entries[i]| && (i > 0 ==> !all[i].resized) && all[i] in RanksOf(all, 0)
  {
    RankOfEach(all, 0);
    assert SameFragments(all[i].fragments, entries[i], all);
  }

  /** The value of a fragment that holds an entry. */
  ghost predicate SamePiece(p: T.Piece, e: Entry, all: seq<T.Block>)
    requires T.Ranked(RanksOf(all, 0))
    reads RanksOf(all, 0).Keys
  {
    && (e.TextEntry? ==> p == T.TextPiece(e.text))
    && (e.VarEntry? ==> p == T.VarPiece(e.name))
    && (e.BlockEntry? ==> e.index < |all| && all[e.index] in RanksOf(all, 0) && p == T.BlockPiece(T.Value(all[e.index], RanksOf(all, 0))))
  }

  lemma OneHeld(all: seq<T.Block>, entries: seq<seq<Entry>>, i: nat, k: nat)
    requires Holds(all, entries) && Ordered(entries) && i < |all| && k < |entries[i]|
    requires T.Ranked(RanksOf(all, 0)) && all[i] in RanksOf(all, 0)
    ensures |T.Value(all[i], RanksOf(all, 0)).fragments| == |entries[i]|
    ensures SamePiece(T.Value(all[i], RanksOf(all, 0)).fragments[k], entries[i][k], all)
  {
    var r := RanksOf(all, 0);
    T.RankedAt(all[i], r);
    assert SameFragments(all[i].fragments, entries[i], all);
    assert SameFragment(all[i].fragments[k], entries[i][k], all);
    T.FragmentValuesAt(all[i].fragments, k, r, r[all[i]]);
  }

  /** `Template::load` on a template that holds nothing, and `render` after any change to the dictionaries and the
      switches of its blocks: the output is what the flat stream means. */
  lemma LoadedRenders(all: seq<T.Block>, ts: seq<Token>, env: Env)
    requires Run(ts).State? && Holds(all, Run(ts).entries) && |all| > 0 && IsEnv(env, all)
    ensures T.Ranked(RanksOf(all, 0)) && all[0] in RanksOf(all, 0)
    ensures T.RenderBody(T.Value(all[0], RanksOf(all, 0))) == Meaning(ts, env).out
  {
    hide Run, RanksOf, T.Value, Holds, T.RenderFragments, Within, OpenIn;
    LoadedMeaning(ts, env);
    var entries := Run(ts).entries;
    HeldRenders(all, entries, env, 0, |entries[0]|);
    T.ValueOf(all[0], RanksOf(all, 0));
  }

  /** `Template::load`, then `Template::render`. */
  method LoadAndRender(main: T.Block, files: Files, name: string, ghost rank: map<string, nat>, ghost env: Env)
    returns (output: string)
    requires Acyclic(files, rank) && Run(Expand(files, rank, name)).State?
    requires forall i: nat :: env.on(i) && env.dict(i) == []
    modifies main
    ensures output == Meaning(Expand(files, rank, name), env).out
  {
    hide Run, RanksOf, T.Value, Holds, Meaning, Expand, Acyclic, Good, T.RenderBody, InBounds, T.Ranked;
    main.fragments, main.nodes, main.properties := [], [], [];
    var loading := new Loading(main);
    assert loading.done + Expand(files, rank, name) == Expand(files, rank, name);
    loading.LoadRecursive(files, name, rank);
    assert loading.all[0] == loading.all[..1][0] == main;
    assert loading.done == Expand(files, rank, name);
    LoadedRenders(loading.all, loading.done, env);
    output := T.RenderNode(main, RanksOf(loading.all, 0));
    LoadedRenders(loading.all, loading.done, env);
  }
}
