/** The engine's module state and its operations, as the JavaScript runs them: render,
    the idle-time workLoop, performUnitOfWork, reconcileChildren, createDom, updateDom,
    commitRoot and commitWork. `variant` selects src/index.js or src/own/simple-react.js;
    the two share the fiber model and differ in updateDom, workLoop's commit guard and
    commitWork. Each method is proved against the closed forms of the other modules. */
module Engine {
  import opened Wrappers
  import opened Elements
  import opened DomDiff
  import opened Fibers
  import opened Reconciliation
  import opened Pass
  import opened Commit

  /** The host document: the calls made on it, in order, and the number of nodes it holds.
      The nodes that exist before the program runs (the container among them) have the ids
      below the count it starts with; every created node gets the next id. */
  class Host {
    var log: seq<Mutation>
    var nodes: nat

    constructor(existing: nat)
      ensures log == [] && nodes == existing
    {
      log := [];
      nodes := existing;
    }

    /** A single call on the document: `appendChild` or `removeChild`. */
    method Record(m: Mutation)
      modifies this
      ensures log == old(log) + [m] && nodes == old(nodes)
    {
      log := log + [m];
    }

    /** One `Object.keys(...).filter(...).forEach(...)` chain of updateDom: the calls made for
        each key, key by key. */
    method Each(keys: seq<string>, f: string -> seq<Mutation>)
      modifies this
      ensures log == old(log) + FilterMap(keys, f)
      ensures nodes == old(nodes)
    {
      for i := 0 to |keys|
        invariant log == old(log) + FilterMap(keys[..i], f)
        invariant nodes == old(nodes)
      {
        assert keys[..i + 1][..i] == keys[..i];
        log := log + f(keys[i]);
      }
      assert keys[..|keys|] == keys;
    }

    /** updateDom(node, prev, next) of the given copy: src/index.js removes stale listeners,
        clears gone properties, sets changed ones and adds listeners; simple-react adds its
        listeners second. */
    method UpdateDom(v: Variant, node: nat, prev: Props, next: Props)
      modifies this
      ensures log == old(log) + UpdateCalls(v, node, prev, next)
      ensures nodes == old(nodes)
    {
      if v == Reference {
        ReferenceUpdateDom(node, prev, next);
      } else {
        OwnUpdateDom(node, prev, next);
      }
    }

    /** updateDom of src/index.js. */
    method ReferenceUpdateDom(node: nat, prev: Props, next: Props)
      modifies this
      ensures log == old(log) + Delta(node, prev, next)
      ensures nodes == old(nodes)
    {
      ghost var log0 := log;
      Each(Keys(prev), k => StaleListener(node, prev, next, k));
      Each(Keys(prev), k => GoneProperty(node, prev, next, k));
      Each(Keys(next), k => ChangedProperty(node, prev, next, k));
      Each(Keys(next), k => NewListener(node, prev, next, k));
      DeltaBlocks(log0, node, prev, next);
    }

    /** updateDom of src/own/simple-react.js. */
    method OwnUpdateDom(node: nat, prev: Props, next: Props)
      modifies this
      ensures log == old(log) + OwnDelta(node, prev, next)
      ensures nodes == old(nodes)
    {
      ghost var log0 := log;
      Each(Keys(prev), k => OwnStaleListener(node, prev, next, k));
      Each(Keys(next), k => OwnNewListener(node, prev, next, k));
      Each(Keys(prev), k => GoneProperty(node, prev, next, k));
      Each(Keys(next), k => ChangedProperty(node, prev, next, k));
      OwnDeltaBlocks(log0, node, prev, next);
    }

    /** createDom: a text node for a text fiber, else an element of the fiber's type, whose
        props are then set by updateDom from `{}`. The new node is the next id. */
    method CreateDom(v: Variant, tag: Option<string>, props: Props) returns (node: nat)
      modifies this
      ensures node == old(nodes) && nodes == old(nodes) + 1
      ensures log == old(log) + CreateCalls(v, node, tag, props)
    {
      node := nodes;
      nodes := nodes + 1;
      ghost var log0 := log;
      if tag == Some(TextElementType) {
        log := log + [CreateTextNode(node)];
      } else {
        log := log + [CreateHostNode(node, if tag.Some? then tag.value else "undefined")];
      }
      ghost var created := log[|log0|..];
      assert log == log0 + created;
      UpdateDom(v, node, [], props);
      AppendTwo(log0, created, UpdateCalls(v, node, [], props));
    }
  }

  /** The four passes of updateDom, appended one after another to `log`. */
  lemma DeltaBlocks(log: seq<Mutation>, node: nat, prev: Props, next: Props)
    ensures log + Delta(node, prev, next) ==
      log + FilterMap(Keys(prev), k => StaleListener(node, prev, next, k))
      + FilterMap(Keys(prev), k => GoneProperty(node, prev, next, k))
      + FilterMap(Keys(next), k => ChangedProperty(node, prev, next, k))
      + FilterMap(Keys(next), k => NewListener(node, prev, next, k))
  {
    var a, b, c, d := FilterMap(Keys(prev), k => StaleListener(node, prev, next, k)),
      FilterMap(Keys(prev), k => GoneProperty(node, prev, next, k)),
      FilterMap(Keys(next), k => ChangedProperty(node, prev, next, k)),
      FilterMap(Keys(next), k => NewListener(node, prev, next, k));
    assert Delta(node, prev, next) == a + b + c + d;
    AppendFour(log, a, b, c, d);
  }

  lemma OwnDeltaBlocks(log: seq<Mutation>, node: nat, prev: Props, next: Props)
    ensures log + OwnDelta(node, prev, next) ==
      log + FilterMap(Keys(prev), k => OwnStaleListener(node, prev, next, k))
      + FilterMap(Keys(next), k => OwnNewListener(node, prev, next, k))
      + FilterMap(Keys(prev), k => GoneProperty(node, prev, next, k))
      + FilterMap(Keys(next), k => ChangedProperty(node, prev, next, k))
  {
    var a, b, c, d := FilterMap(Keys(prev), k => OwnStaleListener(node, prev, next, k)),
      FilterMap(Keys(next), k => OwnNewListener(node, prev, next, k)),
      FilterMap(Keys(prev), k => GoneProperty(node, prev, next, k)),
      FilterMap(Keys(next), k => ChangedProperty(node, prev, next, k));
    assert OwnDelta(node, prev, next) == a + b + c + d;
    AppendFour(log, a, b, c, d);
  }

  lemma AppendTwo<T>(l: seq<T>, a: seq<T>, b: seq<T>)
    ensures l + (a + b) == l + a + b
  {
  }

  lemma AppendFour<T>(l: seq<T>, a: seq<T>, b: seq<T>, c: seq<T>, d: seq<T>)
    ensures l + (a + b + c + d) == l + a + b + c + d
  {
  }

  /** The fiber render creates: no type, the container as its node, the element as its only
      child, and the current root as its alternate. */
  function RootFiber(element: Element, container: nat, currentRoot: Option<nat>): (f: Fiber)
    ensures f.parent.None? && f.child.None? && f.sibling.None? && f.effectTag.None?
    ensures f.dom == Some(container) && f.alternate == currentRoot
    ensures ChildrenOf(f.props) == Some([element])
  {
    Fiber(None, [(ChildrenKey, Kids([element]))], Some(container), None, None, None, currentRoot, None)
  }

  /** The arena once performUnitOfWork has given fiber x a node: the next node id when x had
      none. */
  function WithDom(fs: seq<Fiber>, x: nat, node: nat): (gs: seq<Fiber>)
    requires Ordered(fs) && x < |fs|
    ensures |gs| == |fs| && gs[x].dom.Some?
    ensures forall y :: 0 <= y < |fs| && y != x ==> gs[y] == fs[y]
    ensures gs[x] == fs[x].(dom := if fs[x].dom.None? then Some(node) else fs[x].dom)
    ensures Ordered(gs) && (Consistent(fs) ==> Consistent(gs))
  {
    SetDomKeepsOrder(fs, x, if fs[x].dom.None? then Some(node) else fs[x].dom);
    if fs[x].dom.None? then fs[x := fs[x].(dom := Some(node))] else fs
  }

  /** A unit of work keeps the arena well formed, grows it, and pushes only fibers of the
      arena onto `deletions`. */
  lemma UnitKeepsShape(gs: seq<Fiber>, x: nat, es: seq<Element>, k: nat, dels: seq<nat>)
    requires Ordered(gs) && Consistent(gs) && x < |gs|
    requires forall i :: 0 <= i < |dels| ==> dels[i] < |gs|
    ensures var R := Reconciled(gs, x, es, k);
      var ds := dels + Doomed(gs, OldChain(gs, x), es, k);
      Ordered(R) && Consistent(R) && |gs| <= |R|
      && forall i :: 0 <= i < |ds| ==> ds[i] < |R|
  {
    var olds := OldChain(gs, x);
    var d := Doomed(gs, olds, es, k);
    ReconciledShape(gs, x, es, k);
    ReconciledKeepsOldFields(gs, x, es, k, x);
    DoomedFacts(gs, olds, es, k);
    forall i | 0 <= i < |dels + d| ensures (dels + d)[i] < |gs| {
      if i >= |dels| {
        assert (dels + d)[i] == d[i - |dels|] && d[i - |dels|] in d;
      }
    }
  }

  /** The module state of one copy of the engine. `scheduled` says whether an idle callback
      for workLoop is registered: workLoop registers the next one as its last statement, so an
      exception inside it ends the scheduling for good. `done` records the units performed in
      the current pass. */
  /** A unit of work that raises nothing keeps the pass invariant: the fiber joins the
      performed prefix of the walk and its successor becomes the pending unit. */
  lemma UnitKeepsPass(fs: seq<Fiber>, r: nat, done: seq<nat>, x: nat, node: nat, es: seq<Element>)
    requires Ordered(fs) && Consistent(fs) && Epoch(fs, r) && x < |fs|
    requires PassInvariant(fs, r, done, Some(x))
    requires |OldChain(WithDom(fs, x, node), x)| <= |es| + 1
    ensures var gs := WithDom(fs, x, node);
      var R := Reconciled(gs, x, es, Steps(|es|, |OldChain(gs, x)|));
      Ordered(R) && Consistent(R) && Epoch(R, r) && x < |R|
      && PassInvariant(R, r, done + [x], Successor(R, x))
  {
    if fs[x].dom.None? {
      SetDomKeepsPass(fs, r, done, x, node);
    }
    PassStep(WithDom(fs, x, node), r, done, x, es);
  }

  class Engine {
    const variant: Variant
    const host: Host
    var fibers: seq<Fiber>
    var nextUnitOfWork: Option<nat>
    var wipRoot: Option<nat>
    var currentRoot: Option<nat>
    var deletions: Option<seq<nat>>
    var scheduled: bool
    ghost var done: seq<nat>

    /** The arena is well formed and every reference into it is in range; work is pending
        only under a work-in-progress root; and while the loop is scheduled, a pass is under
        way at the root and stands where the pass invariant says. */
    ghost predicate Valid()
      reads this
    {
      WellFormed()
      && (wipRoot.None? ==> nextUnitOfWork.None?)
      && (scheduled && wipRoot.Some? ==>
            Epoch(fibers, wipRoot.value) && deletions.Some?
            && PassInvariant(fibers, wipRoot.value, done, nextUnitOfWork))
    }

    /** The arena is well formed and every reference into it is in range. */
    ghost predicate WellFormed()
      reads this
    {
      Ordered(fibers) && Consistent(fibers)
      && InArena(fibers, nextUnitOfWork) && InArena(fibers, wipRoot) && InArena(fibers, currentRoot)
      && (deletions.Some? ==> forall i :: 0 <= i < |deletions.value| ==> deletions.value[i] < |fibers|)
    }

    /** Loading the script: every variable null and workLoop registered. */
    constructor(v: Variant, h: Host)
      ensures Valid()
      ensures variant == v && host == h && fibers == []
      ensures nextUnitOfWork.None? && wipRoot.None? && currentRoot.None? && deletions.None?
      ensures scheduled
    {
      variant := v;
      host := h;
      fibers := [];
      nextUnitOfWork := None;
      wipRoot := None;
      currentRoot := None;
      deletions := None;
      scheduled := true;
      done := [];
    }

    /** render(element, container): a new work-in-progress root whose alternate is the
        current root, an empty deletion list, and the root as the next unit of work. */
    method Render(element: Element, container: nat)
      requires Valid() && container < host.nodes
      modifies this
      ensures Valid()
      ensures fibers == old(fibers) + [RootFiber(element, container, old(currentRoot))]
      ensures wipRoot == Some(|old(fibers)|) && nextUnitOfWork == wipRoot && deletions == Some([])
      ensures currentRoot == old(currentRoot) && scheduled == old(scheduled)
      ensures Walk(fibers, wipRoot) == [wipRoot.value] && done == []
    {
      var root := RootFiber(element, container, currentRoot);
      PassStart(fibers, root);
      fibers := fibers + [root];
      wipRoot := Some(|fibers| - 1);
      deletions := Some([]);
      nextUnitOfWork := wipRoot;
      done := [];
    }

    /** performUnitOfWork(fiber x): give x a dom node if it has none, reconcile its
        `props.children`, and return the next unit of work: x's first child, else the sibling
        of the nearest of x and its ancestors that has one, else null. */
    method PerformUnitOfWork(x: nat) returns (next: Option<nat>, fault: Option<Fault>)
      requires WellFormed() && x < |fibers| && deletions.Some?
      modifies this, host
      ensures WellFormed() && deletions.Some?
      ensures var created := old(fibers)[x].dom.None?;
        host.log == old(host.log)
          + (if created then CreateCalls(variant, old(host.nodes), old(fibers)[x].tag, old(fibers)[x].props) else [])
        && host.nodes == old(host.nodes) + (if created then 1 else 0)
      ensures var gs := WithDom(old(fibers), x, old(host.nodes));
        match ChildrenOf(old(fibers)[x].props)
        case None => fault == Some(MissingChildren) && fibers == gs && deletions == old(deletions)
        case Some(es) =>
          var olds := OldChain(gs, x);
          var k := Steps(|es|, |olds|);
          fibers == Reconciled(gs, x, es, k)
          && deletions == Some(old(deletions).value + Doomed(gs, olds, es, k))
          && (fault.Some? <==> |olds| >= |es| + 2)
          && (fault.Some? ==> fault == Some(NullPrevSibling))
      ensures fault.None? ==> x < |fibers| && next == Successor(fibers, x)
      ensures nextUnitOfWork == old(nextUnitOfWork) && wipRoot == old(wipRoot)
      ensures currentRoot == old(currentRoot) && scheduled == old(scheduled) && done == old(done)
    {
      ghost var fs, dels := fibers, deletions.value;
      if fibers[x].dom.None? {
        var node := host.CreateDom(variant, fibers[x].tag, fibers[x].props);
        fibers := fibers[x := fibers[x].(dom := Some(node))];
      }
      ghost var gs := fibers;
      assert gs == WithDom(fs, x, old(host.nodes));
      var elements := ChildrenOf(fibers[x].props);
      if elements.None? {
        return None, Some(MissingChildren);
      }
      var es := elements.value;
      fault := ReconcileChildren(x, es);
      UnitKeepsShape(gs, x, es, Steps(|es|, |OldChain(gs, x)|), dels);
      if fault.Some? {
        return None, fault;
      }
      next := NextUnit(x);
    }

    /** The unit of work after fiber x: its child, else the sibling of the nearest of x and
        its ancestors that has one, else null. */
    method NextUnit(x: nat) returns (next: Option<nat>)
      requires Ordered(fibers) && x < |fibers|
      ensures next == Successor(fibers, x)
    {
      if fibers[x].child.Some? {
        return fibers[x].child;
      }
      var nextFiber: Option<nat> := Some(x);
      while nextFiber.Some?
        invariant InArena(fibers, nextFiber) && UpFrom(fibers, nextFiber) == Up(fibers, x)
        decreases if nextFiber.Some? then nextFiber.value + 1 else 0
      {
        assert OrderedAt(fibers, nextFiber.value);
        if fibers[nextFiber.value].sibling.Some? {
          return fibers[nextFiber.value].sibling;
        }
        nextFiber := fibers[nextFiber.value].parent;
      }
      return None;
    }

    /** One call of workLoop(deadline): perform units while one is pending and the idle
        period lasts, then commit when the variant's guard allows it, and register workLoop
        again unless something was raised. `deadline[i]` is whether `timeRemaining() < 1`
        after the (i+1)-th unit; past its end the idle period is over. */
    method WorkLoop(deadline: seq<bool>)
      returns (units: nat, committed: bool, fault: Option<Fault>, ghost before: seq<Mutation>, ghost root: nat)
      requires Valid() && scheduled
      modifies this, host
      ensures Valid()
      ensures scheduled <==> fault.None?
      ensures old(host.log) <= before <= host.log && units <= |deadline| + 1
      ensures fault.None? && nextUnitOfWork.Some? ==> 0 < units && (units > |deadline| || deadline[units - 1])
      ensures forall i :: 0 <= i < units - 1 ==> !deadline[i]
      ensures fault.None? ==> |done| == |old(done)| + units
      ensures fault.None? && !committed ==> !ShouldCommit(variant, nextUnitOfWork, wipRoot)
      ensures variant == Reference && committed ==>
        old(wipRoot) == Some(root) && root < |fibers| && deletions.Some?
        && InArena(fibers, fibers[root].child)
        && AllCommittable(fibers, Walk(fibers, fibers[root].child))
        && fault == Removals(fibers, deletions.value).fault
        && host.log == before + Removals(fibers, deletions.value).out
             + (if fault.None? then IntendedRun(fibers, Walk(fibers, fibers[root].child)) else [])
        && (fault.None? ==> currentRoot == Some(root) && wipRoot.None? && nextUnitOfWork.None?)
      ensures variant == Own && old(wipRoot).Some? ==> !committed && wipRoot == old(wipRoot)
      ensures variant == Own && committed ==> fault.Some?
    {
      committed, root := false, 0;
      units, fault := PerformUnits(deadline);
      before := host.log;
      if fault.Some? {
        return;
      }
      if ShouldCommit(variant, nextUnitOfWork, wipRoot) {
        committed := true;
        if variant == Reference {
          root := wipRoot.value;
          CompletedPassCommitsCleanly(fibers, root, done);
          ThenOut(before, Removals(fibers, deletions.value), WorkRun(variant, fibers, fibers[root].child));
        }
        fault := CommitRoot();
        if fault.Some? {
          scheduled := false;
        }
      }
    }

    /** workLoop's while loop: perform units while one is pending and `timeRemaining()` has
        not dropped below 1, stopping at the first unit that raises. */
    method PerformUnits(deadline: seq<bool>) returns (units: nat, fault: Option<Fault>)
      requires Valid() && scheduled
      modifies this, host
      ensures Valid() && (scheduled <==> fault.None?)
      ensures wipRoot == old(wipRoot) && currentRoot == old(currentRoot) && old(host.log) <= host.log
      ensures units <= |deadline| + 1
      ensures fault.None? && nextUnitOfWork.Some? ==> 0 < units && (units > |deadline| || deadline[units - 1])
      ensures forall i :: 0 <= i < units - 1 ==> !deadline[i]
      ensures fault.None? ==> |done| == |old(done)| + units
    {
      units, fault := 0, None;
      var shouldYield := false;
      while nextUnitOfWork.Some? && !shouldYield
        invariant Valid() && scheduled && fault.None?
        invariant wipRoot == old(wipRoot) && currentRoot == old(currentRoot) && old(host.log) <= host.log
        invariant units <= |deadline| + 1 && (!shouldYield ==> units <= |deadline|)
        invariant shouldYield ==> 0 < units && (units > |deadline| || deadline[units - 1])
        invariant !shouldYield ==> forall i :: 0 <= i < units ==> !deadline[i]
        invariant shouldYield ==> forall i :: 0 <= i < units - 1 ==> !deadline[i]
        invariant |done| == |old(done)| + units
        decreases |deadline| + 1 - units
      {
        fault := PerformNext();
        if fault.Some? {
          return;
        }
        units := units + 1;
        shouldYield := units > |deadline| || deadline[units - 1];
      }
    }

    /** One iteration of workLoop's while loop: `nextUnitOfWork = performUnitOfWork(nextUnitOfWork)`.
        A unit that raises leaves nextUnitOfWork as it was and ends the scheduling. */
    method PerformNext() returns (fault: Option<Fault>)
      requires Valid() && scheduled && nextUnitOfWork.Some?
      modifies this, host
      ensures Valid() && (scheduled <==> fault.None?)
      ensures wipRoot == old(wipRoot) && currentRoot == old(currentRoot) && old(host.log) <= host.log
      ensures fault.None? ==> done == old(done) + [old(nextUnitOfWork).value]
    {
      var x := nextUnitOfWork.value;
      ghost var fs, r, es := fibers, wipRoot.value, ChildrenOf(fibers[x].props);
      ghost var node := host.nodes;
      var next;
      next, fault := PerformUnitOfWork(x);
      if fault.Some? {
        scheduled := false;
        return;
      }
      UnitKeepsPass(fs, r, done, x, node, es.value);
      nextUnitOfWork := next;
      done := done + [x];
    }

    /** commitRoot with each fiber in `deletions` removed from its parent's node: fail on
        `deletions` null, remove the deleted fibers' nodes, fail on `wipRoot` null, run
        commitWork from the root's child, and make the work-in-progress root current. */
    method CommitRoot() returns (fault: Option<Fault>)
      requires WellFormed()
      modifies this, host
      ensures WellFormed()
      ensures var run := RootCommit(variant, old(fibers), old(deletions), old(wipRoot));
        host.log == old(host.log) + run.out && fault == run.fault
      ensures if fault.None? then currentRoot == old(wipRoot) && wipRoot.None?
        else currentRoot == old(currentRoot) && wipRoot == old(wipRoot)
      ensures fibers == old(fibers) && deletions == old(deletions) && nextUnitOfWork == old(nextUnitOfWork)
      ensures host.nodes == old(host.nodes) && scheduled == old(scheduled) && done == old(done)
    {
      if deletions.None? {
        return Some(NullDeletions);
      }
      var ds := deletions.value;
      fault := CommitDeletions(ds);
      ghost var removed := Removals(fibers, ds);
      if fault.Some? {
        ThenOut(old(host.log), removed, Run([], Some(NullWipRoot)));
        return;
      }
      if wipRoot.None? {
        ThenOut(old(host.log), removed, Run([], Some(NullWipRoot)));
        return Some(NullWipRoot);
      }
      assert OrderedAt(fibers, wipRoot.value);
      fault := CommitWork(fibers[wipRoot.value].child);
      ThenOut(old(host.log), removed, WorkRun(variant, fibers, fibers[wipRoot.value].child));
      if fault.Some? {
        return;
      }
      currentRoot := wipRoot;
      wipRoot := None;
    }

    /** The removals of the deleted fibers, in order, stopping at the first fault. */
    method CommitDeletions(ds: seq<nat>) returns (fault: Option<Fault>)
      requires Ordered(fibers) && forall i :: 0 <= i < |ds| ==> ds[i] < |fibers|
      modifies host
      ensures host.log == old(host.log) + Removals(fibers, ds).out
      ensures fault == Removals(fibers, ds).fault && host.nodes == old(host.nodes)
    {
      fault := None;
      var i := 0;
      while i < |ds|
        invariant i <= |ds|
        invariant host.log == old(host.log) + Removals(fibers, ds[..i]).out
        invariant Removals(fibers, ds[..i]).fault.None? && fault.None?
        invariant host.nodes == old(host.nodes)
      {
        ghost var done, e := Removals(fibers, ds[..i]), RemovalEffect(fibers, ds[i]);
        fault := CommitDeletion(ds[i]);
        assert ds[..i + 1] == ds[..i] + [ds[i]];
        RemovalsSnoc(fibers, ds[..i], ds[i]);
        ThenOut(old(host.log), done, e);
        assert host.log == old(host.log) + Then(done, e).out && fault == Then(done, e).fault;
        if fault.Some? {
          assert ds == ds[..i + 1] + ds[i + 1..];
          RemovalsConcat(fibers, ds[..i + 1], ds[i + 1..]);
          return;
        }
        i := i + 1;
      }
      assert ds[..i] == ds;
    }

    /** The removal of one deleted fiber: `fiber.parent.dom.removeChild(fiber.dom)`. */
    method CommitDeletion(d: nat) returns (fault: Option<Fault>)
      requires Ordered(fibers) && d < |fibers|
      modifies host
      ensures host.log == old(host.log) + RemovalEffect(fibers, d).out
      ensures fault == RemovalEffect(fibers, d).fault && host.nodes == old(host.nodes)
    {
      assert OrderedAt(fibers, d);
      var fiber := fibers[d];
      if fiber.parent.None? {
        return Some(NullParent);
      }
      var domParent := fibers[fiber.parent.value].dom;
      if domParent.None? {
        return Some(NullParentDom);
      }
      if fiber.dom.None? {
        return Some(NullDom);
      }
      host.Record(RemoveChild(domParent.value, fiber.dom.value));
      return None;
    }

    /** commitWork(fiber): apply the fiber's effect, then commit its child and its sibling. */
    method CommitWork(fiber: Option<nat>) returns (fault: Option<Fault>)
      requires Ordered(fibers) && InArena(fibers, fiber)
      modifies host
      ensures host.log == old(host.log) + WorkRun(variant, fibers, fiber).out
      ensures fault == WorkRun(variant, fibers, fiber).fault && host.nodes == old(host.nodes)
      decreases Rank(fibers, fiber)
    {
      if fiber.None? {
        return None;
      }
      var x := fiber.value;
      WorkRunSplit(variant, fibers, x);
      ghost var e, c := FiberEffect(variant, fibers, x), WorkRun(variant, fibers, fibers[x].child);
      ThenOut(old(host.log), Then(e, c), WorkRun(variant, fibers, fibers[x].sibling));
      ThenOut(old(host.log), e, c);
      fault := CommitEffect(x);
      if fault.Some? {
        return;
      }
      fault := CommitWork(fibers[x].child);
      if fault.Some? {
        return;
      }
      fault := CommitWork(fibers[x].sibling);
    }

    /** The body of commitWork for one fiber, before it recurses. */
    method CommitEffect(x: nat) returns (fault: Option<Fault>)
      requires Ordered(fibers) && x < |fibers|
      modifies host
      ensures host.log == old(host.log) + FiberEffect(variant, fibers, x).out
      ensures fault == FiberEffect(variant, fibers, x).fault && host.nodes == old(host.nodes)
    {
      assert OrderedAt(fibers, x);
      var fiber := fibers[x];
      if fiber.parent.None? {
        return Some(NullParent);
      }
      var domParent := fibers[fiber.parent.value].dom;
      ghost var log0 := host.log;
      fault := CommitTag(x, domParent);
      if fault.Some? || variant == Reference {
        return;
      }
      ghost var tagged := host.log[|log0|..];
      assert host.log == log0 + tagged;
      if domParent.None? {
        return Some(NullParentDom);
      }
      if fiber.dom.None? {
        return Some(NullDom);
      }
      host.Record(AppendChild(domParent.value, fiber.dom.value));
      AppendTwo(log0, tagged, [AppendChild(domParent.value, fiber.dom.value)]);
    }

    /** commitWork's handling of the effect tag of fiber x, whose parent's node is `domParent`. */
    method CommitTag(x: nat, domParent: Option<nat>) returns (fault: Option<Fault>)
      requires Ordered(fibers) && x < |fibers|
      modifies host
      ensures host.log == old(host.log) + TagEffect(variant, fibers, x, domParent).out
      ensures fault == TagEffect(variant, fibers, x, domParent).fault && host.nodes == old(host.nodes)
    {
      assert OrderedAt(fibers, x);
      var fiber := fibers[x];
      if fiber.effectTag == Some(Placement) && fiber.dom.Some? {
        if domParent.None? {
          return Some(NullParentDom);
        }
        host.Record(AppendChild(domParent.value, fiber.dom.value));
      } else if fiber.effectTag == Some(Update) && fiber.dom.Some? {
        if fiber.alternate.None? {
          return Some(NullAlternate);
        }
        host.UpdateDom(variant, fiber.dom.value, fibers[fiber.alternate.value].props, fiber.props);
      } else if fiber.effectTag == Some(Deletion) {
        if domParent.None? {
          return Some(NullParentDom);
        }
        if fiber.dom.None? {
          return Some(NullDom);
        }
        host.Record(RemoveChild(domParent.value, fiber.dom.value));
      }
      return None;
    }

    /** commitRoot as written: `deletions.forEach(commitRoot)` re-enters commitRoot for the
        first deleted fiber, which meets the same non-empty list, so every call with a
        deletion pending ends in a stack overflow after `depth` frames, having changed
        nothing. With no deletion it is CommitRoot. */
    method CommitRootAsWritten(depth: nat) returns (fault: Option<Fault>)
      requires WellFormed()
      modifies this, host
      ensures WellFormed()
      ensures old(deletions).None? ==> fault == Some(NullDeletions) && host.log == old(host.log)
      ensures old(deletions).Some? && old(deletions).value != [] ==>
        fault == LiteralCommitRoot(depth, old(deletions).value) && host.log == old(host.log)
        && currentRoot == old(currentRoot) && wipRoot == old(wipRoot)
      ensures old(deletions) == Some([]) ==>
        var run := RootCommit(variant, old(fibers), old(deletions), old(wipRoot));
        host.log == old(host.log) + run.out && fault == run.fault
        && if fault.None? then currentRoot == old(wipRoot) && wipRoot.None?
           else currentRoot == old(currentRoot) && wipRoot == old(wipRoot)
      ensures fibers == old(fibers) && deletions == old(deletions) && nextUnitOfWork == old(nextUnitOfWork)
      ensures host.nodes == old(host.nodes) && scheduled == old(scheduled) && done == old(done)
      decreases depth
    {
      if deletions.None? {
        return Some(NullDeletions);
      }
      if deletions.value != [] {
        if depth == 0 {
          return Some(StackOverflow);
        }
        fault := CommitRootAsWritten(depth - 1);
        return;
      }
      fault := CommitRoot();
    }

    /** reconcileChildren(fibers[w], es), iteration by iteration. It stops with
        NullPrevSibling when the old chain is two or more longer than es, in the state the
        closed form gives for the iterations started. */
    method ReconcileChildren(w: nat, es: seq<Element>) returns (fault: Option<Fault>)
      requires Ordered(fibers) && w < |fibers| && deletions.Some?
      modifies this
      ensures var olds := OldChain(old(fibers), w);
        var k := Steps(|es|, |olds|);
        fibers == Reconciled(old(fibers), w, es, k)
        && deletions == Some(old(deletions).value + Doomed(old(fibers), olds, es, k))
        && (fault.Some? <==> |olds| >= |es| + 2)
        && (fault.Some? ==> fault == Some(NullPrevSibling))
      ensures nextUnitOfWork == old(nextUnitOfWork) && wipRoot == old(wipRoot)
      ensures currentRoot == old(currentRoot) && scheduled == old(scheduled) && done == old(done)
    {
      ghost var fs, dels := fibers, deletions.value;
      ghost var olds := OldChain(fs, w);
      ghost var n, m := |es|, |olds|;
      assert OrderedAt(fs, w);
      var oldFiber: Option<nat> := None;
      if fibers[w].alternate.Some? {
        assert OrderedAt(fs, fibers[w].alternate.value);
        oldFiber := fibers[fibers[w].alternate.value].child;
        ChainFacts(fs, oldFiber);
      }
      fault := ReconcileLoop(fs, dels, w, es, oldFiber);
      ArenaIsReconciled(fs, w, es, Steps(n, m));
      DeletionsAfterAppendsDoomed(dels, fs, olds, es, Steps(n, m));
    }

    /** The while loop of reconcileChildren, from `oldFiber` at the head of the old chain:
        it leaves the arena and `deletions` as the loop's own construction after all its
        iterations, including the one that throws. */
    method ReconcileLoop(ghost fs: seq<Fiber>, ghost dels: seq<nat>, w: nat, es: seq<Element>,
                         oldFiber0: Option<nat>)
      returns (fault: Option<Fault>)
      requires Ordered(fs) && w < |fs| && fibers == fs && deletions == Some(dels)
      requires oldFiber0 == OldAt(OldChain(fs, w), 0)
      modifies this
      ensures var olds := OldChain(fs, w);
        var k := Steps(|es|, |olds|);
        fibers == Arena(fs, w, es, k) && deletions == Some(DeletionsAfter(dels, fs, olds, es, k))
        && (fault.Some? <==> |olds| >= |es| + 2)
        && (fault.Some? ==> fault == Some(NullPrevSibling))
      ensures nextUnitOfWork == old(nextUnitOfWork) && wipRoot == old(wipRoot)
      ensures currentRoot == old(currentRoot) && scheduled == old(scheduled) && done == old(done)
    {
      ghost var olds := OldChain(fs, w);
      ghost var n, m := |es|, |olds|;
      var index := 0;
      var oldFiber := oldFiber0;
      var prevSibling: Option<nat> := None;
      while index < |es| || oldFiber.Some?
        invariant index <= Steps(n, m) && (m >= n + 2 ==> index <= n + 1)
        invariant fibers == Arena(fs, w, es, index)
        invariant oldFiber == OldAt(olds, index)
        invariant prevSibling == PrevNew(|fs|, n, index)
        invariant deletions == Some(DeletionsAfter(dels, fs, olds, es, index))
        invariant nextUnitOfWork == old(nextUnitOfWork) && wipRoot == old(wipRoot)
        invariant currentRoot == old(currentRoot) && scheduled == old(scheduled) && done == old(done)
        decreases (if n > m then n else m) - index
      {
        var newFiber;
        newFiber, oldFiber, fault := ReconcileIteration(fs, dels, w, es, index, oldFiber, prevSibling);
        if fault.Some? {
          assert index + 1 == Steps(n, m);
          return;
        }
        prevSibling := newFiber;
        index := index + 1;
      }
      assert index == Steps(n, m);
      return None;
    }

    /** One iteration of the loop, stated on the closed form: from the arena after `index`
        iterations to the arena after `index + 1`. */
    method ReconcileIteration(ghost fs: seq<Fiber>, ghost dels: seq<nat>, w: nat, es: seq<Element>,
                              index: nat, oldFiber: Option<nat>, prevSibling: Option<nat>)
      returns (newFiber: Option<nat>, nextOld: Option<nat>, fault: Option<Fault>)
      requires Ordered(fs) && w < |fs|
      requires fibers == Arena(fs, w, es, index)
      requires deletions == Some(DeletionsAfter(dels, fs, OldChain(fs, w), es, index))
      requires oldFiber == OldAt(OldChain(fs, w), index) && prevSibling == PrevNew(|fs|, |es|, index)
      modifies this
      ensures var olds := OldChain(fs, w);
        fibers == Arena(fs, w, es, index + 1)
        && deletions == Some(DeletionsAfter(dels, fs, olds, es, index + 1))
        && newFiber == PrevNew(|fs|, |es|, index + 1)
        && nextOld == OldAt(olds, index + 1)
        && (fault.Some? <==> index > |es|) && (fault.Some? ==> fault == Some(NullPrevSibling))
      ensures nextUnitOfWork == old(nextUnitOfWork) && wipRoot == old(wipRoot)
      ensures currentRoot == old(currentRoot) && scheduled == old(scheduled) && done == old(done)
    {
      ghost var olds := OldChain(fs, w);
      ArenaKeepsOldFields(fs, w, es, index, if index < |olds| then olds[index] else w);
      newFiber, nextOld, fault := ReconcileOne(fs, w, es, index, oldFiber, prevSibling);
    }

    /** One iteration of reconcileChildren's loop body at `index`, with `oldFiber` and
        `prevSibling` as the loop holds them: it takes the arena after `index` iterations to
        the arena after `index + 1`, or throws at `prevSibling.sibling` with the fiber
        pushed and tagged. */
    method ReconcileOne(ghost fs: seq<Fiber>, w: nat, es: seq<Element>, index: nat,
                        oldFiber: Option<nat>, prevSibling: Option<nat>)
      returns (newFiber: Option<nat>, nextOld: Option<nat>, fault: Option<Fault>)
      requires Ordered(fs) && w < |fs| && deletions.Some?
      requires |fibers| == |fs| + Min(index, |es|)
      requires var olds := OldChain(fs, w);
        oldFiber == (if index < |olds| then Some(olds[index]) else None)
        && prevSibling == (if 0 < index <= |es| then Some(|fs| + index - 1) else None)
        && (index < |olds| ==> fibers[olds[index]].tag == fs[olds[index]].tag
                               && fibers[olds[index]].dom == fs[olds[index]].dom
                               && fibers[olds[index]].sibling == fs[olds[index]].sibling)
      modifies this
      ensures var olds := OldChain(fs, w);
        fibers == Body(fs, w, es, old(fibers), index)
        && deletions == Some(old(deletions).value + Pushed(fs, olds, es, index))
        && newFiber == (if index < |es| then Some(|fs| + index) else None)
        && nextOld == (if index + 1 < |olds| then Some(olds[index + 1]) else None)
        && (fault.Some? <==> index > |es|) && (fault.Some? ==> fault == Some(NullPrevSibling))
      ensures nextUnitOfWork == old(nextUnitOfWork) && wipRoot == old(wipRoot)
      ensures currentRoot == old(currentRoot) && scheduled == old(scheduled) && done == old(done)
    {
      newFiber, nextOld := PushFiber(fs, w, es, index, oldFiber);
      if index == 0 {
        fibers := fibers[w := fibers[w].(child := newFiber)];
      } else if prevSibling.None? {
        return newFiber, nextOld, Some(NullPrevSibling);
      } else {
        fibers := fibers[prevSibling.value := fibers[prevSibling.value].(sibling := newFiber)];
      }
      fault := None;
    }

    /** The first half of an iteration: push the fiber for element `index` (reusing the old
        fiber's type and node when the types agree), then tag the old fiber DELETION and push
        it onto `deletions` when they do not. */
    method PushFiber(ghost fs: seq<Fiber>, w: nat, es: seq<Element>, index: nat, oldFiber: Option<nat>)
      returns (newFiber: Option<nat>, nextOld: Option<nat>)
      requires Ordered(fs) && w < |fs| && deletions.Some?
      requires |fibers| == |fs| + Min(index, |es|)
      requires var olds := OldChain(fs, w);
        oldFiber == (if index < |olds| then Some(olds[index]) else None)
        && (index < |olds| ==> fibers[olds[index]].tag == fs[olds[index]].tag
                               && fibers[olds[index]].dom == fs[olds[index]].dom
                               && fibers[olds[index]].sibling == fs[olds[index]].sibling)
      modifies this
      ensures var olds := OldChain(fs, w);
        var a1 := if index < |es| then old(fibers) + [NewFiber(fs, w, olds, es, index, index + 1)] else old(fibers);
        fibers == (if index < |olds| && !Same(fs, olds, es, index)
          then a1[olds[index] := a1[olds[index]].(effectTag := Some(Deletion))] else a1)
        && deletions == Some(old(deletions).value + Pushed(fs, olds, es, index))
        && newFiber == (if index < |es| then Some(|fs| + index) else None)
        && nextOld == (if index + 1 < |olds| then Some(olds[index + 1]) else None)
      ensures nextUnitOfWork == old(nextUnitOfWork) && wipRoot == old(wipRoot)
      ensures currentRoot == old(currentRoot) && scheduled == old(scheduled) && done == old(done)
    {
      ghost var olds := OldChain(fs, w);
      ghost var d0 := deletions.value;
      if index < |olds| {
        OldChainSiblings(fs, w, index);
      }
      newFiber := None;
      nextOld := oldFiber;
      var sameType := oldFiber.Some? && index < |es| && fibers[oldFiber.value].tag == Some(es[index].tag);
      assert sameType == Same(fs, olds, es, index);
      if sameType {
        var o := fibers[oldFiber.value];
        fibers := fibers + [Fiber(o.tag, es[index].props, o.dom, Some(w), None, None, oldFiber, Some(Update))];
        newFiber := Some(|fibers| - 1);
      }
      if index < |es| && !sameType {
        fibers := fibers + [Fiber(Some(es[index].tag), es[index].props, None, Some(w), None, None, None, Some(Placement))];
        newFiber := Some(|fibers| - 1);
      }
      if oldFiber.Some? && !sameType {
        fibers := fibers[oldFiber.value := fibers[oldFiber.value].(effectTag := Some(Deletion))];
        deletions := Some(deletions.value + [oldFiber.value]);
      } else {
        assert d0 + [] == d0;
      }
      if oldFiber.Some? {
        nextOld := fibers[oldFiber.value].sibling;
      }
    }
  }
}
