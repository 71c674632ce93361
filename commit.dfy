/** The commit phase as calls on the host document: commitWork's effect on one fiber, its
    pre-order run over a tree, the per-fiber removal of the fibers collected in `deletions`,
    and the literal `deletions.forEach(commitRoot)` re-entry of src/index.js. */
module Commit {
  import opened Wrappers
  import opened Elements
  import opened Fibers
  import opened DomDiff
  import opened Pass

  /** Which copy of the engine: src/index.js or src/own/simple-react.js. */
  datatype Variant = Reference | Own

  /** The JavaScript exceptions the engine can raise. All but StackOverflow are TypeErrors
      from reading a property of, or passing, null. */
  datatype Fault =
    | NullPrevSibling     // `prevSibling.sibling = newFiber` with prevSibling null
    | MissingChildren     // `elements.length` with props.children not an array
    | NullParent          // `fiber.parent.dom` with no parent
    | NullParentDom       // `domParent.appendChild` / `removeChild` with domParent null
    | NullAlternate       // `fiber.alternate.props` with no alternate
    | NullDom             // `appendChild(null)` / `removeChild(null)`
    | NullDeletions       // `deletions.forEach` / `.push` before the first render
    | NullWipRoot         // `wipRoot.child` with wipRoot null
    | StackOverflow       // unbounded `commitRoot` re-entry

  /** The calls made by a piece of the commit, and the fault that stopped it, if any. */
  datatype Run = Run(out: seq<Mutation>, fault: Option<Fault>)

  /** updateDom of the given copy. */
  function UpdateCalls(v: Variant, node: nat, prev: Props, next: Props): seq<Mutation>
  {
    if v == Reference then Delta(node, prev, next) else OwnDelta(node, prev, next)
  }

  /** createDom(fiber) on a fresh node: create a text node or an element of the fiber's type
      (a missing type reaches `document.createElement` as "undefined"), then
      updateDom(dom, {}, props). */
  function CreateCalls(v: Variant, node: nat, tag: Option<string>, props: Props): seq<Mutation>
  {
    var create := if tag == Some(TextElementType) then CreateTextNode(node)
      else CreateHostNode(node, if tag.Some? then tag.value else "undefined");
    [create] + UpdateCalls(v, node, [], props)
  }

  /** commitWork(fiber) before it recurses: read `fiber.parent.dom`, apply the effect tag,
      and, in simple-react, append `fiber.dom` to the parent again whatever the tag. */
  function FiberEffect(v: Variant, fs: seq<Fiber>, x: nat): Run
    requires Ordered(fs) && x < |fs|
  {
    assert OrderedAt(fs, x);
    var f := fs[x];
    if f.parent.None? then Run([], Some(NullParent))
    else
      var pd := fs[f.parent.value].dom;
      var tagged := TagEffect(v, fs, x, pd);
      if v == Reference || tagged.fault.Some? then tagged
      else if pd.None? then Run(tagged.out, Some(NullParentDom))
      else if f.dom.None? then Run(tagged.out, Some(NullDom))
      else Run(tagged.out + [AppendChild(pd.value, f.dom.value)], None)
  }

  /** The effect-tag part of commitWork for fiber x, whose parent's node is `pd`. */
  function TagEffect(v: Variant, fs: seq<Fiber>, x: nat, pd: Option<nat>): Run
    requires Ordered(fs) && x < |fs|
  {
    assert OrderedAt(fs, x);
    var f := fs[x];
    if f.effectTag == Some(Placement) && f.dom.Some? then
      if pd.None? then Run([], Some(NullParentDom)) else Run([AppendChild(pd.value, f.dom.value)], None)
    else if f.effectTag == Some(Update) && f.dom.Some? then
      if f.alternate.None? then Run([], Some(NullAlternate))
      else Run(UpdateCalls(v, f.dom.value, fs[f.alternate.value].props, f.props), None)
    else if f.effectTag == Some(Deletion) then
      if pd.None? then Run([], Some(NullParentDom))
      else if f.dom.None? then Run([], Some(NullDom))
      else Run([RemoveChild(pd.value, f.dom.value)], None)
    else Run([], None)
  }

  /** Running a second piece after a first: a fault ends the run. */
  function Then(a: Run, b: Run): Run
  {
    if a.fault.Some? then a else Run(a.out + b.out, b.fault)
  }

  /** commitWork's effects over the fibers xs in order, stopping at the first fault. */
  function RunEffects(v: Variant, fs: seq<Fiber>, xs: seq<nat>): Run
    requires Ordered(fs) && forall i :: 0 <= i < |xs| ==> xs[i] < |fs|
  {
    if xs == [] then Run([], None)
    else Then(FiberEffect(v, fs, xs[0]), RunEffects(v, fs, xs[1..]))
  }

  /** The removal the DELETION branch performs: `parent.dom.removeChild(fiber.dom)`. */
  function RemovalEffect(fs: seq<Fiber>, d: nat): Run
    requires Ordered(fs) && d < |fs|
  {
    assert OrderedAt(fs, d);
    var f := fs[d];
    if f.parent.None? then Run([], Some(NullParent))
    else if fs[f.parent.value].dom.None? then Run([], Some(NullParentDom))
    else if f.dom.None? then Run([], Some(NullDom))
    else Run([RemoveChild(fs[f.parent.value].dom.value, f.dom.value)], None)
  }

  /** The removals of the fibers ds, in order, stopping at the first fault. */
  function Removals(fs: seq<Fiber>, ds: seq<nat>): Run
    requires Ordered(fs) && forall i :: 0 <= i < |ds| ==> ds[i] < |fs|
  {
    if ds == [] then Run([], None)
    else Then(RemovalEffect(fs, ds[0]), Removals(fs, ds[1..]))
  }

  lemma ThenAssociative(a: Run, b: Run, c: Run)
    ensures Then(Then(a, b), c) == Then(a, Then(b, c))
  {
  }

  /** Running a sequence in two parts is running the first and then the second. */
  lemma {:induction false} RunConcat(v: Variant, fs: seq<Fiber>, a: seq<nat>, b: seq<nat>)
    requires Ordered(fs)
    requires forall i :: 0 <= i < |a| ==> a[i] < |fs|
    requires forall i :: 0 <= i < |b| ==> b[i] < |fs|
    ensures forall i :: 0 <= i < |a + b| ==> (a + b)[i] < |fs|
    ensures RunEffects(v, fs, a + b) == Then(RunEffects(v, fs, a), RunEffects(v, fs, b))
  {
    assert forall i :: 0 <= i < |a + b| ==> (a + b)[i] < |fs| by {
      forall i | 0 <= i < |a + b| ensures (a + b)[i] < |fs| {
        if i >= |a| { assert (a + b)[i] == b[i - |a|]; }
      }
    }
    if a == [] {
      assert a + b == b;
    } else {
      assert (a + b)[0] == a[0] && (a + b)[1..] == a[1..] + b;
      RunConcat(v, fs, a[1..], b);
      ThenAssociative(FiberEffect(v, fs, a[0]), RunEffects(v, fs, a[1..]), RunEffects(v, fs, b));
    }
  }

  /** `fiber.parent.dom`, when the fiber has a parent. */
  function ParentDom(fs: seq<Fiber>, y: nat): Option<nat>
    requires Ordered(fs) && y < |fs|
  {
    assert OrderedAt(fs, y);
    if fs[y].parent.None? then None else fs[fs[y].parent.value].dom
  }

  /** The props the fiber's alternate carried (none without an alternate). */
  function PrevProps(fs: seq<Fiber>, y: nat): Props
    requires Ordered(fs) && y < |fs|
  {
    assert OrderedAt(fs, y);
    if fs[y].alternate.None? then [] else fs[fs[y].alternate.value].props
  }

  /** A fiber the reference commit can handle: it has a parent whose dom exists, a dom of its
      own, no DELETION tag, and an alternate when it is an UPDATE. */
  predicate Committable(fs: seq<Fiber>, y: nat)
    requires Ordered(fs) && y < |fs|
  {
    ParentDom(fs, y).Some? && fs[y].dom.Some? && fs[y].effectTag != Some(Deletion)
    && (fs[y].effectTag == Some(Update) ==> fs[y].alternate.Some?)
  }

  /** What committing a committable fiber is meant to do: append a PLACEMENT's node to its
      parent's node, diff an UPDATE's props against its alternate's, leave others alone. */
  function IntendedCalls(fs: seq<Fiber>, y: nat): seq<Mutation>
    requires Ordered(fs) && y < |fs| && Committable(fs, y)
  {
    if fs[y].effectTag == Some(Placement) then [AppendChild(ParentDom(fs, y).value, fs[y].dom.value)]
    else if fs[y].effectTag == Some(Update) then Delta(fs[y].dom.value, PrevProps(fs, y), fs[y].props)
    else []
  }

  /** The fiber is a PLACEMENT whose node is `d` and whose parent's node is `p`. */
  predicate Placed(fs: seq<Fiber>, y: nat, p: nat, d: nat)
    requires Ordered(fs)
  {
    y < |fs| && fs[y].effectTag == Some(Placement) && ParentDom(fs, y) == Some(p) && fs[y].dom == Some(d)
  }

  /** Every fiber of the run is in the arena and committable. */
  predicate AllCommittable(fs: seq<Fiber>, xs: seq<nat>)
    requires Ordered(fs)
    ensures AllCommittable(fs, xs) ==> forall i :: 0 <= i < |xs| ==> xs[i] < |fs|
  {
    xs == [] || (xs[0] < |fs| && Committable(fs, xs[0]) && AllCommittable(fs, xs[1..]))
  }

  function IntendedRun(fs: seq<Fiber>, xs: seq<nat>): seq<Mutation>
    requires Ordered(fs) && AllCommittable(fs, xs)
  {
    if xs == [] then [] else IntendedCalls(fs, xs[0]) + IntendedRun(fs, xs[1..])
  }

  /** The reference commit of committable fibers raises nothing and makes exactly the
      intended calls, fiber by fiber. */
  lemma {:induction false} ReferenceCommitOfCleanFibers(fs: seq<Fiber>, xs: seq<nat>)
    requires Ordered(fs) && AllCommittable(fs, xs)
    ensures RunEffects(Reference, fs, xs) == Run(IntendedRun(fs, xs), None)
  {
    if xs != [] {
      assert OrderedAt(fs, xs[0]);
      ReferenceCommitOfCleanFibers(fs, xs[1..]);
    }
  }

  /** The intended calls remove no node. */
  lemma {:induction false} IntendedRunRemovesNothing(fs: seq<Fiber>, xs: seq<nat>, m: Mutation)
    requires Ordered(fs) && AllCommittable(fs, xs)
    requires m in IntendedRun(fs, xs)
    ensures !m.RemoveChild?
  {
    var y := xs[0];
    if m in IntendedCalls(fs, y) {
      if fs[y].effectTag == Some(Update) {
        DeltaOnlyTouchesProps(fs[y].dom.value, PrevProps(fs, y), fs[y].props, m);
      }
    } else {
      IntendedRunRemovesNothing(fs, xs[1..], m);
    }
  }

  /** The only append intended for a single fiber is a PLACEMENT's. */
  lemma IntendedCallsAppend(fs: seq<Fiber>, y: nat, p: nat, d: nat)
    requires Ordered(fs) && y < |fs| && Committable(fs, y)
    ensures AppendChild(p, d) in IntendedCalls(fs, y) <==> Placed(fs, y, p, d)
  {
    if fs[y].effectTag == Some(Update) && AppendChild(p, d) in IntendedCalls(fs, y) {
      DeltaOnlyTouchesProps(fs[y].dom.value, PrevProps(fs, y), fs[y].props, AppendChild(p, d));
    }
  }

  /** An append among the intended calls is exactly the append of some PLACEMENT fiber's
      node to its parent's node. */
  lemma {:induction false} IntendedRunAppends(fs: seq<Fiber>, xs: seq<nat>, p: nat, d: nat)
    requires Ordered(fs) && AllCommittable(fs, xs)
    ensures AppendChild(p, d) in IntendedRun(fs, xs) <==>
      exists i :: 0 <= i < |xs| && Placed(fs, xs[i], p, d)
  {
    if xs != [] {
      var y, rest := xs[0], xs[1..];
      IntendedRunAppends(fs, rest, p, d);
      IntendedCallsAppend(fs, y, p, d);
      assert IntendedRun(fs, xs) == IntendedCalls(fs, y) + IntendedRun(fs, rest);
      if exists i :: 0 <= i < |xs| && Placed(fs, xs[i], p, d) {
        var i :| 0 <= i < |xs| && Placed(fs, xs[i], p, d);
        if i > 0 {
          assert rest[i - 1] == xs[i];
        }
      }
      if exists j :: 0 <= j < |rest| && Placed(fs, rest[j], p, d) {
        var j :| 0 <= j < |rest| && Placed(fs, rest[j], p, d);
        assert xs[j + 1] == rest[j];
      }
    }
  }

  /** Every call intended for a fiber of the run (so every call of an UPDATE fiber's diff)
      is among the intended calls. */
  lemma {:induction false} IntendedRunIncludesEach(fs: seq<Fiber>, xs: seq<nat>, i: nat)
    requires Ordered(fs) && AllCommittable(fs, xs) && i < |xs|
    ensures xs[i] < |fs| && Committable(fs, xs[i])
    ensures forall m :: m in IntendedCalls(fs, xs[i]) ==> m in IntendedRun(fs, xs)
  {
    if i > 0 {
      IntendedRunIncludesEach(fs, xs[1..], i - 1);
      assert xs[1..][i - 1] == xs[i];
    }
  }

  /** simple-react appends every committed fiber after its effect: a PLACEMENT fiber's node
      is appended twice and an UPDATE fiber's node once, where src/index.js appends the
      PLACEMENT once and the UPDATE not at all. */
  lemma OwnCommitAppendsAgain(fs: seq<Fiber>, y: nat)
    requires Ordered(fs) && y < |fs| && Committable(fs, y)
    requires fs[y].effectTag == Some(Placement) || fs[y].effectTag == Some(Update)
    ensures var pd, d := ParentDom(fs, y).value, fs[y].dom.value;
      var mine := FiberEffect(Own, fs, y);
      var reference := FiberEffect(Reference, fs, y);
      mine.fault.None? && reference.fault.None?
      && (fs[y].effectTag == Some(Placement) ==>
            mine.out == [AppendChild(pd, d), AppendChild(pd, d)] && reference.out == [AppendChild(pd, d)])
      && (fs[y].effectTag == Some(Update) ==>
            mine.out == OwnDelta(d, PrevProps(fs, y), fs[y].props) + [AppendChild(pd, d)]
            && reference.out == Delta(d, PrevProps(fs, y), fs[y].props))
  {
    assert OrderedAt(fs, y);
  }

  /** The removals of fibers that each have a parent with a dom and a dom of their own are
      one removeChild per fiber, in order. */
  lemma {:induction false} RemovalsRemoveEach(fs: seq<Fiber>, ds: seq<nat>)
    requires Ordered(fs) && forall i :: 0 <= i < |ds| ==> ds[i] < |fs|
    requires forall i :: 0 <= i < |ds| ==>
      (fs[ds[i]].parent.Some? && fs[ds[i]].parent.value < |fs|
       && fs[fs[ds[i]].parent.value].dom.Some? && fs[ds[i]].dom.Some?)
    ensures var run := Removals(fs, ds);
      run.fault.None? && |run.out| == |ds|
      && forall i :: 0 <= i < |ds| ==>
           run.out[i] == RemoveChild(fs[fs[ds[i]].parent.value].dom.value, fs[ds[i]].dom.value)
  {
    if ds != [] {
      RemovalsRemoveEach(fs, ds[1..]);
      var run := Removals(fs, ds);
      forall i | 0 <= i < |ds|
        ensures run.out[i] == RemoveChild(fs[fs[ds[i]].parent.value].dom.value, fs[ds[i]].dom.value)
      {
        if i > 0 { assert ds[i] == ds[1..][i - 1]; }
      }
    }
  }

  /** The outcome of src/index.js commitRoot as written, with `depth` frames of stack left:
      `deletions.forEach(commitRoot)` calls commitRoot again for the first deletion, which
      meets the same non-empty list, so the commit proper (`None` here stands for reaching
      `commitWork(wipRoot.child)`) is reached only when there are no deletions. */
  function LiteralCommitRoot(depth: nat, deletions: seq<nat>): (r: Option<Fault>)
    decreases depth
  {
    if deletions == [] then None
    else if depth == 0 then Some(StackOverflow)
    else LiteralCommitRoot(depth - 1, deletions)
  }

  /** However deep the stack, the literal commitRoot overflows as soon as there is one
      deletion, and commits when there is none. */
  lemma {:induction false} LiteralCommitRootOverflows(depth: nat, deletions: seq<nat>)
    ensures LiteralCommitRoot(depth, deletions) == if deletions == [] then None else Some(StackOverflow)
    decreases depth
  {
    if deletions != [] && depth > 0 {
      LiteralCommitRootOverflows(depth - 1, deletions);
    }
  }

  /** workLoop's commit guard: src/index.js commits when the pass has no pending unit and a
      work-in-progress root exists; simple-react requires the root to be absent. */
  predicate ShouldCommit(v: Variant, pending: Option<nat>, wipRoot: Option<nat>)
  {
    if v == Reference then pending.None? && wipRoot.Some? else pending.None? && wipRoot.None?
  }

  /** Removing fibers one more at a time: the removals of ds then d. */
  lemma {:induction false} RemovalsSnoc(fs: seq<Fiber>, ds: seq<nat>, d: nat)
    requires Ordered(fs) && d < |fs| && forall i :: 0 <= i < |ds| ==> ds[i] < |fs|
    ensures forall i :: 0 <= i < |ds + [d]| ==> (ds + [d])[i] < |fs|
    ensures Removals(fs, ds + [d]) == Then(Removals(fs, ds), RemovalEffect(fs, d))
  {
    assert forall i :: 0 <= i < |ds + [d]| ==> (ds + [d])[i] < |fs| by {
      forall i | 0 <= i < |ds + [d]| ensures (ds + [d])[i] < |fs| {
        if i < |ds| { assert (ds + [d])[i] == ds[i]; }
      }
    }
    if ds == [] {
      assert Removals(fs, [] + [d]) == Then(RemovalEffect(fs, d), Removals(fs, []));
    } else {
      assert (ds + [d])[0] == ds[0] && (ds + [d])[1..] == ds[1..] + [d];
      RemovalsSnoc(fs, ds[1..], d);
      ThenAssociative(RemovalEffect(fs, ds[0]), Removals(fs, ds[1..]), RemovalEffect(fs, d));
    }
  }

  /** The whole of commitRoot with the re-entry replaced by one removal per deleted fiber:
      fail on `deletions` null, remove the deleted fibers' nodes, fail on `wipRoot` null,
      then run commitWork from the root's child. */
  function RootCommit(v: Variant, fs: seq<Fiber>, deletions: Option<seq<nat>>, wipRoot: Option<nat>): Run
    requires Ordered(fs) && InArena(fs, wipRoot)
    requires deletions.Some? ==> forall i :: 0 <= i < |deletions.value| ==> deletions.value[i] < |fs|
  {
    if deletions.None? then Run([], Some(NullDeletions))
    else Then(Removals(fs, deletions.value),
      if wipRoot.None? then Run([], Some(NullWipRoot))
      else
        assert OrderedAt(fs, wipRoot.value);
        WorkRun(v, fs, fs[wipRoot.value].child))
  }

  /** commitWork(start): the effects of the fibers of its walk, in order. */
  function WorkRun(v: Variant, fs: seq<Fiber>, start: Option<nat>): Run
    requires Ordered(fs) && InArena(fs, start)
  {
    WalkInArena(fs, start);
    RunEffects(v, fs, Walk(fs, start))
  }

  /** commitWork(x) is x's own effect, then commitWork(x.child), then commitWork(x.sibling). */
  lemma WorkRunSplit(v: Variant, fs: seq<Fiber>, x: nat)
    requires Ordered(fs) && x < |fs|
    ensures OrderedAt(fs, x)
    ensures WorkRun(v, fs, Some(x))
      == Then(Then(FiberEffect(v, fs, x), WorkRun(v, fs, fs[x].child)), WorkRun(v, fs, fs[x].sibling))
  {
    assert OrderedAt(fs, x);
    var c, s := Walk(fs, fs[x].child), Walk(fs, fs[x].sibling);
    WalkInArena(fs, fs[x].child);
    WalkInArena(fs, fs[x].sibling);
    assert Walk(fs, Some(x)) == [x] + c + s;
    RunConcat(v, fs, [x], c);
    RunConcat(v, fs, [x] + c, s);
    assert RunEffects(v, fs, [x]) == FiberEffect(v, fs, x) by {
      assert RunEffects(v, fs, [x]) == Then(FiberEffect(v, fs, x), RunEffects(v, fs, []));
    }
  }

  /** Appending the calls of a run to a log: the first part's calls, then, unless it faulted,
      the second's. */
  lemma ThenOut(log: seq<Mutation>, a: Run, b: Run)
    ensures log + Then(a, b).out == if a.fault.Some? then log + a.out else log + a.out + b.out
  {
    if a.fault.None? {
      assert log + (a.out + b.out) == log + a.out + b.out;
    }
  }

  /** Removing in two parts is removing the first and then the second. */
  lemma {:induction false} RemovalsConcat(fs: seq<Fiber>, a: seq<nat>, b: seq<nat>)
    requires Ordered(fs)
    requires forall i :: 0 <= i < |a| ==> a[i] < |fs|
    requires forall i :: 0 <= i < |b| ==> b[i] < |fs|
    ensures forall i :: 0 <= i < |a + b| ==> (a + b)[i] < |fs|
    ensures Removals(fs, a + b) == Then(Removals(fs, a), Removals(fs, b))
  {
    assert forall i :: 0 <= i < |a + b| ==> (a + b)[i] < |fs| by {
      forall i | 0 <= i < |a + b| ensures (a + b)[i] < |fs| {
        if i >= |a| { assert (a + b)[i] == b[i - |a|]; }
      }
    }
    if a == [] {
      assert a + b == b;
    } else {
      assert (a + b)[0] == a[0] && (a + b)[1..] == a[1..] + b;
      RemovalsConcat(fs, a[1..], b);
      ThenAssociative(RemovalEffect(fs, a[0]), Removals(fs, a[1..]), Removals(fs, b));
    }
  }

  lemma {:induction false} AllCommittableOf(fs: seq<Fiber>, xs: seq<nat>)
    requires Ordered(fs) && forall i :: 0 <= i < |xs| ==> xs[i] < |fs| && Committable(fs, xs[i])
    ensures AllCommittable(fs, xs)
  {
    if xs != [] {
      assert forall i :: 0 <= i < |xs[1..]| ==> xs[1..][i] == xs[i + 1];
      AllCommittableOf(fs, xs[1..]);
    }
  }

  /** When a pass is complete, every fiber below the work-in-progress root is committable,
      so src/index.js commitWork(wipRoot.child) raises nothing and makes exactly the intended
      calls: each PLACEMENT appended to its parent once, each UPDATE diffed against its
      alternate, in pre-order. */
  lemma CompletedPassCommitsCleanly(fs: seq<Fiber>, r: nat, done: seq<nat>)
    requires Ordered(fs) && Consistent(fs) && Epoch(fs, r)
    requires PassInvariant(fs, r, done, None)
    ensures OrderedAt(fs, r) && InArena(fs, fs[r].child)
    ensures var ws := Walk(fs, fs[r].child);
      AllCommittable(fs, ws)
      && RunEffects(Reference, fs, ws) == Run(IntendedRun(fs, ws), None)
  {
    assert OrderedAt(fs, r);
    var w := Walk(fs, Some(r));
    var ws := Walk(fs, fs[r].child);
    PassComplete(fs, r, done);
    WalkAboveRoot(fs, r);
    assert w == [r] + ws + Walk(fs, None);
    forall i | 0 <= i < |ws| ensures ws[i] < |fs| && Committable(fs, ws[i]) {
      var y := ws[i];
      assert y == w[i + 1] && w[0] == r;
      assert y in w && y != r;
      assert OrderedAt(fs, y) && EpochAt(fs, r, y);
      var p := fs[y].parent.value;
      assert p in done;
      var k :| 0 <= k < |done| && done[k] == p;
      assert fs[done[k]].dom.Some?;
      assert fs[done[i + 1]].dom.Some?;
    }
    AllCommittableOf(fs, ws);
    ReferenceCommitOfCleanFibers(fs, ws);
  }
}
