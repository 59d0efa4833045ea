/** What a loaded template means once blocks of it have been repeated. */
module TemplateRepeat {
  import opened TemplateTokens
  import opened TemplateLoad
  import opened Wrappers
  import T = TemplateTree

  /** The dictionaries and the switches of the blocks, and how often a repeated block is repeated. */
  datatype Plan = Plan(env: Env, times: nat -> Option<nat>)

  /** What a block shows: nothing when it is switched off, and its copies when it is repeated. In a copy of an enclosing
      block it shows as a copy itself. */
  function Shown(plan: Plan, j: nat, copied: bool, body: string, copy: string): string {
    if copied then copy
    else if !plan.env.on(j) then ""
    else
      match plan.times(j)
      case None => body
      case Some(n) => T.Times(copy, n)
  }

  // ----- the meaning of a stream -----

  /** What an open block has put out so far, and what a copy of it would have. */
  datatype Frame = Frame(out: string, copy: string)

  datatype Progress = Progress(frames: seq<Frame>, open: seq<nat>, count: nat)

  function Added(frames: seq<Frame>, out: string, copy: string): seq<Frame>
    requires frames != []
  {
    var top := frames[|frames| - 1];
    frames[|frames| - 1 := Frame(top.out + out, top.copy + copy)]
  }

  /** The end of the block on top. */
  function Closed(frames: seq<Frame>, j: nat, plan: Plan): seq<Frame>
    requires |frames| >= 2
  {
    var top := frames[|frames| - 1];
    Added(frames[..|frames| - 1], Shown(plan, j, false, top.out, top.copy), top.copy)
  }

  /** One token. The template itself keeps its frame. */
  function Emitted(p: Progress, t: Token, plan: Plan): (r: Progress)
    requires p.open != [] ==> |p.frames| == |p.open|
    ensures r.open != [] ==> |r.frames| == |r.open|
    ensures p.frames != [] ==> r.frames != []
  {
    if p.open == [] then p
    else
      var top := p.open[|p.open| - 1];
      match t
      case Text(value) => p.(frames := Added(p.frames, value, value))
      case Var(name) => p.(frames := Added(p.frames, T.Find(plan.env.dict(top), name), T.Find(plan.env.dict(top), name)))
      case Block(_) => Progress(p.frames + [Frame("", "")], p.open + [p.count], p.count + 1)
      case EndBlock =>
        Progress(if |p.open| >= 2 then Closed(p.frames, top, plan) else p.frames, p.open[..|p.open| - 1], p.count)
      case _ => p
  }

  /** The output, with the blocks that are still open ended. */
  function Output(p: Progress, plan: Plan): string
    requires p.frames != [] && (p.open != [] ==> |p.frames| == |p.open|)
    decreases |p.open|
  {
    if |p.open| <= 1 then p.frames[0].out else Output(Emitted(p, EndBlock, plan), plan)
  }

  function Passed(ts: seq<Token>, plan: Plan): (p: Progress)
    ensures p.frames != [] && (p.open != [] ==> |p.frames| == |p.open|)
  {
    if ts == [] then Progress([Frame("", "")], [0], 1) else Emitted(Passed(ts[..|ts| - 1], plan), ts[|ts| - 1], plan)
  }

  // ----- rendering by entries -----

  /** The first `n` entries of block `i`, or of a copy of it. */
  ghost function RenderPlan(entries: seq<seq<Entry>>, plan: Plan, i: nat, n: nat, copied: bool): string
    requires Ordered(entries) && i < |entries| && n <= |entries[i]|
    decreases |entries| - i, n
  {
    if n == 0 then ""
    else RenderPlan(entries, plan, i, n - 1, copied)
         + match entries[i][n - 1]
           case TextEntry(text) => text
           case VarEntry(name) => T.Find(plan.env.dict(i), name)
           case BlockEntry(j) =>
             Shown(plan, j, copied, RenderPlan(entries, plan, j, |entries[j]|, false), RenderPlan(entries, plan, j, |entries[j]|, true))
  }

  /** Without repetition it is the rendering of the loaded template. */
  lemma {:induction false} NothingRepeated(entries: seq<seq<Entry>>, plan: Plan, i: nat, n: nat)
    requires Ordered(entries) && i < |entries| && n <= |entries[i]| && forall j :: plan.times(j).None?
    ensures RenderPlan(entries, plan, i, n, false) == RenderEntries(entries, plan.env, i, n)
    decreases |entries| - i, n
  {
    if n > 0 {
      NothingRepeated(entries, plan, i, n - 1);
      if entries[i][n - 1].BlockEntry? {
        NothingRepeated(entries, plan, entries[i][n - 1].index, |entries[entries[i][n - 1].index]|);
      }
    }
  }

  // ----- trees -----

  /** The tree has the pieces and the state of block `i`, and so on inside; copies are as `repeat` makes them. */
  ghost predicate Shaped(t: T.Tree, entries: seq<seq<Entry>>, plan: Plan, i: nat)
    decreases t
  {
    && i < |entries| && t.properties == plan.env.dict(i) && |t.fragments| == |entries[i]|
    && forall k :: 0 <= k < |t.fragments| ==> ShapedPiece(t.fragments[k], entries, plan, entries[i][k])
  }

  ghost predicate ShapedPiece(p: T.Piece, entries: seq<seq<Entry>>, plan: Plan, e: Entry)
    decreases p
  {
    match e
    case TextEntry(text) => p == T.TextPiece(text)
    case VarEntry(name) => p == T.VarPiece(name)
    case BlockEntry(j) =>
      && p.BlockPiece? && Shaped(p.tree, entries, plan, j) && p.tree.enabled == plan.env.on(j)
      && p.tree.resized == plan.times(j).Some?
      && (plan.times(j).Some? ==> p.tree.nodes == T.Repeated(p.tree, plan.times(j).value).nodes)
  }

  lemma {:induction false} CopyRenders(t: T.Tree, entries: seq<seq<Entry>>, plan: Plan, i: nat, n: nat)
    requires Ordered(entries) && Shaped(t, entries, plan, i) && n <= |t.fragments|
    ensures T.RenderFragments(T.CopyOf(t), n) == RenderPlan(entries, plan, i, n, true)
    decreases t, n
  {
    if n > 0 {
      CopyRenders(t, entries, plan, i, n - 1);
      T.CopyPiecesAt(t.fragments, n - 1);
      var p, e := t.fragments[n - 1], entries[i][n - 1];
      assert ShapedPiece(p, entries, plan, e) && T.CopyOf(t).fragments[n - 1] == T.CopyPiece(p);
      if e.BlockEntry? {
        CopyRenders(p.tree, entries, plan, e.index, |p.tree.fragments|);
        CopyShows(p.tree);
      }
    }
  }

  lemma CopyShows(t: T.Tree)
    ensures T.Render(T.CopyOf(t)) == T.RenderFragments(T.CopyOf(t), |t.fragments|)
  {
    assert T.Render(T.CopyOf(t)) == T.RenderBody(T.CopyOf(t));
  }

  /** A tree renders like the entries. */
  lemma {:induction false} ShapedRenders(t: T.Tree, entries: seq<seq<Entry>>, plan: Plan, i: nat, n: nat)
    requires Ordered(entries) && Shaped(t, entries, plan, i) && n <= |t.fragments|
    ensures T.RenderFragments(t, n) == RenderPlan(entries, plan, i, n, false)
    decreases t, n
  {
    if n > 0 {
      ShapedRenders(t, entries, plan, i, n - 1);
      var p, e := t.fragments[n - 1], entries[i][n - 1];
      assert ShapedPiece(p, entries, plan, e);
      if e.BlockEntry? {
        ShapedRenders(p.tree, entries, plan, e.index, |p.tree.fragments|);
        CopyRenders(p.tree, entries, plan, e.index, |p.tree.fragments|);
        BlockShows(p.tree, plan, e.index);
      }
    }
  }

  lemma BlockShows(t: T.Tree, plan: Plan, j: nat)
    requires t.enabled == plan.env.on(j) && t.resized == plan.times(j).Some?
    requires plan.times(j).Some? ==> t.nodes == T.Repeated(t, plan.times(j).value).nodes
    ensures T.Render(t) == Shown(plan, j, false, T.RenderBody(t), T.RenderBody(T.CopyOf(t)))
  {
    if t.enabled && t.resized {
      CopiesRender(t, |t.nodes|);
    }
  }

  lemma {:induction false} CopiesRender(t: T.Tree, k: nat)
    requires k <= |t.nodes| && forall i :: 0 <= i < |t.nodes| ==> t.nodes[i] == T.CopyOf(t)
    ensures T.RenderNodes(t, k) == T.Times(T.RenderBody(T.CopyOf(t)), k)
  {
    if k > 0 {
      CopiesRender(t, k - 1);
    }
  }

  // ----- the machine and the pass -----

  /** What block `i` has put out up to its entry `n`. */
  ghost function FrameOf(entries: seq<seq<Entry>>, plan: Plan, i: nat, n: nat): Frame
    requires Ordered(entries) && i < |entries| && n <= |entries[i]|
  {
    Frame(RenderPlan(entries, plan, i, n, false), RenderPlan(entries, plan, i, n, true))
  }

  /** An open block has put out all but the block that is open inside it. */
  ghost predicate FrameAgrees(entries: seq<seq<Entry>>, stack: seq<nat>, frames: seq<Frame>, plan: Plan, k: nat)
    requires Ordered(entries) && k < |stack| && k < |frames|
  {
    var open := if k < |stack| - 1 then 1 else 0;
    stack[k] < |entries| && |entries[stack[k]]| >= open && frames[k] == FrameOf(entries, plan, stack[k], |entries[stack[k]]| - open)
  }

  ghost predicate Agree(st: State, p: Progress, plan: Plan) {
    st.State? ==>
      && Good(st) && p.open == st.stack && p.count == |st.entries|
      && (if st.stack == [] then p.frames == [FrameOf(st.entries, plan, 0, |st.entries[0]|)]
          else |p.frames| == |st.stack| && forall k :: 0 <= k < |st.stack| ==> FrameAgrees(st.entries, st.stack, p.frames, plan, k))
  }

  /** What lies below `bound` renders the same when blocks from `bound` on change. */
  lemma {:induction false} PlanSame(a: seq<seq<Entry>>, b: seq<seq<Entry>>, plan: Plan, i: nat, n: nat, bound: nat, copied: bool)
    requires Ordered(a) && Ordered(b) && i < |a| && i < |b| && n <= |a[i]| && n <= |b[i]| && a[i][..n] == b[i][..n]
    requires bound <= |a| && bound <= |b| && (forall k :: 0 <= k < bound && k > i ==> a[k] == b[k]) && Within(a, i, n, bound)
    ensures RenderPlan(a, plan, i, n, copied) == RenderPlan(b, plan, i, n, copied)
    decreases |a| - i, n
  {
    if n > 0 {
      assert a[i][..n - 1] == a[i][..n][..n - 1] && b[i][..n - 1] == b[i][..n][..n - 1];
      PlanSame(a, b, plan, i, n - 1, bound, copied);
      assert a[i][n - 1] == a[i][..n][n - 1] == b[i][..n][n - 1] == b[i][n - 1];
      if a[i][n - 1].BlockEntry? {
        var j := a[i][n - 1].index;
        PlanSame(a, b, plan, j, |a[j]|, bound, false);
        PlanSame(a, b, plan, j, |a[j]|, bound, true);
      }
    }
  }

  /** Blocks under the top one have put out what they had. */
  lemma UnderTopSame(a: seq<seq<Entry>>, b: seq<seq<Entry>>, stack: seq<nat>, e: Entry, plan: Plan, k: nat)
    requires Stacked(a, stack) && Extends(a, b, stack[|stack| - 1], e) && k + 1 < |stack|
    ensures Ordered(a) && Ordered(b) && stack[k] < |a| && stack[k] < |b| && |a[stack[k]]| == |b[stack[k]]| > 0
    ensures var n := |a[stack[k]]| - 1; FrameOf(a, plan, stack[k], n) == FrameOf(b, plan, stack[k], n)
  {
    hide OpenIn, Within, Extends, Stacked, Ordered;
    UnderTopRenders(a, b, stack, e, plan, k, false);
    UnderTopRenders(a, b, stack, e, plan, k, true);
  }

  lemma UnderTopRenders(a: seq<seq<Entry>>, b: seq<seq<Entry>>, stack: seq<nat>, e: Entry, plan: Plan, k: nat, copied: bool)
    requires Stacked(a, stack) && Extends(a, b, stack[|stack| - 1], e) && k + 1 < |stack|
    ensures Ordered(a) && Ordered(b) && stack[k] < |a| && stack[k] < |b|
    ensures a[stack[k]] == b[stack[k]] && |a[stack[k]]| > 0
    ensures var n := |a[stack[k]]| - 1; RenderPlan(a, plan, stack[k], n, copied) == RenderPlan(b, plan, stack[k], n, copied)
  {
    hide RenderPlan;
    UnderTop(a, b, stack, e, plan.env, k);
    StackRises(stack, k, |stack| - 1);
    StackRises(stack, k + 1, |stack| - 1);
    assert OpenIn(a, stack, k);
    PlanSame(a, b, plan, stack[k], |a[stack[k]]| - 1, stack[k + 1], copied);
  }

  /** The block on top has put out what it had, and then the new entry. */
  lemma AtTopSame(a: seq<seq<Entry>>, b: seq<seq<Entry>>, top: nat, e: Entry, plan: Plan)
    requires Extends(a, b, top, e)
    ensures FrameOf(b, plan, top, |a[top]|) == FrameOf(a, plan, top, |a[top]|)
    ensures !e.BlockEntry? ==>
              var f, text := FrameOf(a, plan, top, |a[top]|), EntryText(e, top, plan.env);
              FrameOf(b, plan, top, |b[top]|) == Frame(f.out + text, f.copy + text)
  {
    AllWithin(a, top, |a[top]|);
    PlanSame(a, b, plan, top, |a[top]|, |a|, false);
    PlanSame(a, b, plan, top, |a[top]|, |a|, true);
    assert b[top][|a[top]|] == e;
  }

  lemma AppendAgrees(st: State, p: Progress, t: Token, e: Entry, plan: Plan)
    requires st.State? && st.stack != [] && InBounds(st) && Agree(st, p, plan)
    requires (t.Text? && e == TextEntry(t.value)) || (t.Var? && e == VarEntry(t.value)) || (t.Block? && e == BlockEntry(|st.entries|))
    ensures Agree(Step(st, t), Emitted(p, t, plan), plan)
  {
    hide FrameOf, OpenIn, Ordered, Within;
    var a, stack := st.entries, st.stack;
    var n := |stack| - 1;
    var b := Push(a, stack[n], e) + if e.BlockEntry? then [[]] else [];
    assert b == Step(st, t).entries;
    PushExtends(a, stack[n], e);
    ExtendedIsGood(a, b, stack, e, plan.env);
    AtTopSame(a, b, stack[n], e, plan);
    assert FrameAgrees(a, stack, p.frames, plan, n);
    var q, u := Emitted(p, t, plan), Step(st, t);
    forall k | 0 <= k < |u.stack| ensures FrameAgrees(b, u.stack, q.frames, plan, k) {
      if k < n {
        assert FrameAgrees(a, stack, p.frames, plan, k);
        UnderTopSame(a, b, stack, e, plan, k);
      } else if k > n {
        EmptyFrame(b, plan, k, u.stack[k]);
      }
    }
  }

  lemma EmptyFrame(entries: seq<seq<Entry>>, plan: Plan, k: nat, i: nat)
    requires Ordered(entries) && i < |entries| && entries[i] == []
    ensures FrameOf(entries, plan, i, 0) == Frame("", "")
  {
  }

  /** The end of a block adds what it shows to the one around it. */
  lemma CloseAgrees(entries: seq<seq<Entry>>, p: Progress, plan: Plan)
    requires p.open != [] && Agree(State(entries, p.open), p, plan)
    ensures Agree(State(entries, p.open[..|p.open| - 1]), Emitted(p, EndBlock, plan), plan)
  {
    hide FrameOf, Within, Ordered;
    var stack, n := p.open, |p.open| - 1;
    PopIsGood(State(entries, stack), plan.env);
    assert FrameAgrees(entries, stack, p.frames, plan, n);
    if n > 0 {
      var less, q := stack[..n], Emitted(p, EndBlock, plan);
      forall k | 0 <= k < n ensures FrameAgrees(entries, less, q.frames, plan, k) {
        assert FrameAgrees(entries, stack, p.frames, plan, k);
        if k == n - 1 {
          assert OpenIn(entries, stack, k);
          FrameGrows(entries, plan, stack[k], stack[n]);
        }
      }
    }
  }

  lemma FrameGrows(entries: seq<seq<Entry>>, plan: Plan, i: nat, j: nat)
    requires Ordered(entries) && i < |entries| && entries[i] != [] && entries[i][|entries[i]| - 1] == BlockEntry(j)
    ensures j < |entries|
    ensures var f, g := FrameOf(entries, plan, i, |entries[i]| - 1), FrameOf(entries, plan, j, |entries[j]|);
            FrameOf(entries, plan, i, |entries[i]|) == Frame(f.out + Shown(plan, j, false, g.out, g.copy), f.copy + g.copy)
  {
  }

  lemma {:induction false} PassAgrees(ts: seq<Token>, plan: Plan)
    ensures Agree(Run(ts), Passed(ts, plan), plan)
    decreases |ts|
  {
    hide Good, FrameAgrees, FrameOf;
    if ts == [] {
      BeginningAgrees(plan);
    } else {
      var front, t := ts[..|ts| - 1], ts[|ts| - 1];
      PassAgrees(front, plan);
      var st, p := Run(front), Passed(front, plan);
      if st.State? && st.stack != [] {
        match t
        case Text(value) => AppendAgrees(st, p, t, TextEntry(value), plan);
        case Var(value) => AppendAgrees(st, p, t, VarEntry(value), plan);
        case Block(_) => AppendAgrees(st, p, t, BlockEntry(|st.entries|), plan);
        case EndBlock => CloseAgrees(st.entries, p, plan);
        case _ =>
      }
    }
  }

  lemma BeginningAgrees(plan: Plan)
    ensures Agree(Start, Progress([Frame("", "")], [0], 1), plan)
  {
    EmptyFrame([[]], plan, 0, 0);
  }

  /** The output is the rendering of the template's entries. */
  lemma {:induction false} OutputIsRendering(entries: seq<seq<Entry>>, p: Progress, plan: Plan)
    requires Agree(State(entries, p.open), p, plan) && p.frames != []
    ensures Ordered(entries) && |entries| > 0 && Output(p, plan) == RenderPlan(entries, plan, 0, |entries[0]|, false)
    decreases |p.open|
  {
    hide Ordered, Within, OpenIn;
    if |p.open| >= 2 {
      CloseAgrees(entries, p, plan);
      OutputIsRendering(entries, Emitted(p, EndBlock, plan), plan);
    } else if |p.open| == 1 {
      assert FrameAgrees(entries, p.open, p.frames, plan, 0);
    }
  }

  // ----- in memory -----

  /** The blocks hold the entries and have the state of the plan; the copies of a repeated block are worth what `repeat`
      would make of it now. */
  ghost predicate HoldsPlan(all: seq<T.Block>, entries: seq<seq<Entry>>, plan: Plan, r: T.Ranks)
    requires T.Ranked(r)
    reads r.Keys
  {
    |all| == |entries| && forall i :: 0 <= i < |all| ==> all[i] in r && BlockHolds(all, entries, plan, r, i)
  }

  ghost predicate BlockHolds(all: seq<T.Block>, entries: seq<seq<Entry>>, plan: Plan, r: T.Ranks, i: nat)
    requires T.Ranked(r) && i < |all| == |entries| && all[i] in r
    reads r.Keys
  {
    var b := all[i];
    && SameFragments(b.fragments, entries[i], all) && b.properties == plan.env.dict(i)
    && (i > 0 ==> b.enabled == plan.env.on(i) && b.resized == plan.times(i).Some?)
    && (i > 0 && b.resized ==> T.Value(b, r).nodes == T.Repeated(T.Value(b, r), plan.times(i).value).nodes)
  }

  lemma {:induction false} HeldIsShaped(all: seq<T.Block>, entries: seq<seq<Entry>>, plan: Plan, r: T.Ranks, i: nat)
    requires T.Ranked(r) && HoldsPlan(all, entries, plan, r) && Ordered(entries) && i < |all|
    ensures Shaped(T.Value(all[i], r), entries, plan, i)
    decreases |all| - i
  {
    hide T.Value, T.Ranked, T.FragmentValues, T.FragmentsInside;
    var t := T.Value(all[i], r);
    assert BlockHolds(all, entries, plan, r, i);
    T.ValueOf(all[i], r);
    T.ValueFields(all[i], r);
    forall k | 0 <= k < |t.fragments| ensures ShapedPiece(t.fragments[k], entries, plan, entries[i][k]) {
      T.FragmentValuesAt(all[i].fragments, k, r, r[all[i]]);
      assert SameFragment(all[i].fragments[k], entries[i][k], all);
      if entries[i][k].BlockEntry? {
        var j := entries[i][k].index;
        HeldIsShaped(all, entries, plan, r, j);
        assert BlockHolds(all, entries, plan, r, j);
        T.ValueOf(all[j], r);
      }
    }
  }

  /** A loaded template whose blocks have been switched, filled in and repeated renders to what the stream means under
      the plan. */
  lemma RepeatedMeaning(all: seq<T.Block>, ts: seq<Token>, plan: Plan, r: T.Ranks)
    requires Run(ts).State? && T.Ranked(r) && HoldsPlan(all, Run(ts).entries, plan, r) && |all| > 0
    ensures T.RenderBody(T.Value(all[0], r)) == Output(Passed(ts, plan), plan)
  {
    hide Run, T.Value, T.Ranked, HoldsPlan, Shaped, Output, Good, FrameAgrees;
    PassAgrees(ts, plan);
    var entries := Run(ts).entries;
    OutputIsRendering(entries, Passed(ts, plan), plan);
    HeldCount(all, entries, plan, r);
    HeldIsShaped(all, entries, plan, r, 0);
    var t := T.Value(all[0], r);
    ShapedCount(t, entries, plan, 0);
    ShapedRenders(t, entries, plan, 0, |t.fragments|);
  }

  lemma HeldCount(all: seq<T.Block>, entries: seq<seq<Entry>>, plan: Plan, r: T.Ranks)
    requires T.Ranked(r) && HoldsPlan(all, entries, plan, r)
    ensures |all| == |entries| && forall i :: 0 <= i < |all| ==> all[i] in r
  {
  }

  lemma ShapedCount(t: T.Tree, entries: seq<seq<Entry>>, plan: Plan, i: nat)
    requires Shaped(t, entries, plan, i)
    ensures i < |entries| && |t.fragments| == |entries[i]|
  {
  }

  /** Block `j` of a loaded template, in which none has been repeated yet, is repeated, and the template is rendered. */
  method RepeatAndRender(main: T.Block, block: T.Block, n: nat, ghost all: seq<T.Block>, ghost ts: seq<Token>, ghost j: nat, ghost env: Env)
    returns (output: string)
    requires Run(ts).State? && Holds(all, Run(ts).entries) && IsEnv(env, all) && 0 < j < |all| && all[0] == main && all[j] == block
    modifies block`resized, block`nodes
    ensures var plan := Plan(env, (i: nat) => if i == j then Some(n) else None); output == Output(Passed(ts, plan), plan)
  {
    hide Run, T.Value, T.Ranked, Good, T.RenderBody;
    ghost var entries, r := Run(ts).entries, RanksOf(all, 0);
    ghost var plan := Plan(env, (i: nat) => if i == j then Some(n) else None);
    GoodRun(ts);
    RunIsOrdered(ts);
    HeldIsRanked(all, entries);
    RankOfEach(all, 0);
    ghost var base := T.Value(block, r);
    ghost var q, _ := T.Repeat(block, n, r);
    T.ValueOf(block, q);
    CopyOfRepeated(base, n);
    assert HoldsPlan(all, entries, plan, q);
    RepeatedMeaning(all, ts, plan, q);
    output := T.RenderNode(main, q);
  }

  lemma CopyOfRepeated(t: T.Tree, n: nat)
    ensures T.CopyOf(T.Repeated(t, n)) == T.CopyOf(t)
  {
  }

  lemma RunIsOrdered(ts: seq<Token>)
    requires Run(ts).State?
    ensures Ordered(Run(ts).entries)
  {
    GoodRun(ts);
  }
}
