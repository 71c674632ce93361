/** One render pass over a changing arena. performUnitOfWork reconciles the fiber it is given
    and so grows the tree it is walking; this module shows that the units performed from the
    work-in-progress root are still exactly the pre-order walk of the tree that exists when
    the pass ends, each fiber once. */
module Pass {
  import opened Wrappers
  import opened Elements
  import opened Fibers
  import opened Reconciliation

  /** Fibers r, r + 1, ... belong to the pass rooted at r: render creates r, reconcileChildren
      appends the others. Older fibers link only among themselves; the pass's fibers refer to
      older fibers only as alternates, are never tagged DELETION, and each one below the root
      hangs under a fiber of the pass. */
  predicate Epoch(fs: seq<Fiber>, r: nat)
  {
    r < |fs| && fs[r].parent.None? && fs[r].sibling.None?
    && forall y :: 0 <= y < |fs| ==> EpochAt(fs, r, y)
  }

  predicate EpochAt(fs: seq<Fiber>, r: nat, y: nat)
    requires y < |fs|
  {
    if y < r then
      Before(fs[y].child, r) && Before(fs[y].sibling, r)
    else
      Before(fs[y].alternate, r) && fs[y].effectTag != Some(Deletion)
      && (fs[y].effectTag == Some(Update) ==> fs[y].alternate.Some?)
      && (y > r ==> fs[y].parent.Some? && r <= fs[y].parent.value)
  }

  /** Where the pass stands after performing the units `done`, with `pending` as
      nextUnitOfWork: `done` is a prefix of the current pre-order walk from r, `pending` is the
      walk's next fiber (none once the walk is exhausted), the fibers not yet performed have no
      children yet, those performed have a dom node, and every fiber of the pass is on the walk. */
  predicate PassInvariant(fs: seq<Fiber>, r: nat, done: seq<nat>, pending: Option<nat>)
    requires Ordered(fs) && r < |fs|
  {
    var w := Walk(fs, Some(r));
    |done| <= |w| && done == w[..|done|]
    && pending == (if |done| < |w| then Some(w[|done|]) else None)
    && (forall i :: 0 <= i < |w| ==> w[i] < |fs|)
    && (forall i :: |done| <= i < |w| ==> fs[w[i]].child.None?)
    && (forall i :: 0 <= i < |done| ==> fs[done[i]].dom.Some?)
    && (forall y :: r <= y < |fs| ==> y in w)
  }

  /** Consecutive units performed from `start` on a fixed arena are linked by the successor
      step, and the unit pending after them is the last one's successor. */
  lemma {:induction false} TraceLinks(fs: seq<Fiber>, start: Option<nat>, k: nat)
    requires Ordered(fs) && InArena(fs, start)
    ensures var t := Trace(fs, start, k);
      |t| <= k
      && (forall i :: 0 <= i < |t| ==> t[i] < |fs|)
      && (|t| > 0 ==> start == Some(t[0]))
      && (forall i :: 0 <= i < |t| - 1 ==> Successor(fs, t[i]) == Some(t[i + 1]))
      && (|t| == k > 0 ==> Advance(fs, start, k) == Successor(fs, t[k - 1]))
    decreases k
  {
    if k > 0 && start.Some? {
      var x := start.value;
      TraceStep(fs, x, k - 1);
      TraceLinks(fs, Successor(fs, x), k - 1);
      var t' := Trace(fs, Successor(fs, x), k - 1);
      var t := [x] + t';
      assert Trace(fs, start, k) == t;
      forall i | 0 <= i < |t| - 1 ensures Successor(fs, t[i]) == Some(t[i + 1]) {
        if i > 0 {
          assert t[i] == t'[i - 1] && t[i + 1] == t'[i];
        }
      }
    }
  }

  /** On a tree whose root has no parent and no sibling, the pre-order walk is a chain of
      successor steps that ends with no successor. */
  lemma WalkLinks(fs: seq<Fiber>, r: nat)
    requires Ordered(fs) && Consistent(fs) && r < |fs|
    requires fs[r].parent.None? && fs[r].sibling.None?
    ensures var w := Walk(fs, Some(r));
      |w| > 0 && w[0] == r
      && (forall i :: 0 <= i < |w| ==> w[i] < |fs|)
      && (forall i :: 0 <= i < |w| - 1 ==> Successor(fs, w[i]) == Some(w[i + 1]))
      && Successor(fs, w[|w| - 1]).None?
  {
    var w := Walk(fs, Some(r));
    assert OrderedAt(fs, r);
    assert w == [r] + Walk(fs, fs[r].child) + Walk(fs, fs[r].sibling);
    SuccessorEnumeratesPreOrder(fs, r);
    TraceLinks(fs, Some(r), |w|);
  }

  /** The walk after fiber x has received the children c: c comes right after x. */
  function Ins(w: seq<nat>, x: nat, c: seq<nat>): (r: seq<nat>)
    ensures x !in w ==> r == w
  {
    if w == [] then []
    else (if w[0] == x then [x] + c else [w[0]]) + Ins(w[1..], x, c)
  }

  lemma {:induction false} InsConcat(a: seq<nat>, b: seq<nat>, x: nat, c: seq<nat>)
    ensures Ins(a + b, x, c) == Ins(a, x, c) + Ins(b, x, c)
  {
    if a == [] {
      assert a + b == b;
    } else {
      assert (a + b)[0] == a[0] && (a + b)[1..] == a[1..] + b;
      InsConcat(a[1..], b, x, c);
    }
  }

  /** Inserting after the only occurrence of x. */
  lemma InsAt(p: seq<nat>, x: nat, rest: seq<nat>, c: seq<nat>)
    requires x !in p && x !in rest
    ensures Ins(p + [x] + rest, x, c) == p + [x] + c + rest
  {
    var px := p + [x];
    var ix := Ins([x], x, c);
    assert ix == [x] + c + Ins([], x, c);
    assert ix == [x] + c;
    InsConcat(p, [x], x, c);
    assert Ins(px, x, c) == p + ix;
    InsConcat(px, rest, x, c);
    assert Ins(px + rest, x, c) == p + ix + rest;
    RegroupAfter(p, [x], c, rest);
  }

  lemma RegroupAfter(p: seq<nat>, a: seq<nat>, c: seq<nat>, rest: seq<nat>)
    ensures p + (a + c) + rest == p + a + c + rest
  {
  }

  /** Grafting children onto a childless fiber x changes the walk only by inserting the
      children's walk right after x. */
  lemma {:induction false} WalkGraft(fs: seq<Fiber>, gs: seq<Fiber>, s: Option<nat>, x: nat, c: seq<nat>)
    requires Ordered(fs) && Ordered(gs) && |fs| <= |gs| && x < |fs| && InArena(fs, s)
    requires forall y :: 0 <= y < |fs| && y != x ==>
      gs[y].child == fs[y].child && gs[y].sibling == fs[y].sibling
    requires gs[x].sibling == fs[x].sibling && fs[x].child.None?
    requires InArena(gs, gs[x].child) && Walk(gs, gs[x].child) == c
    ensures Walk(gs, s) == Ins(Walk(fs, s), x, c)
    decreases Rank(fs, s)
  {
    if s.Some? {
      var y := s.value;
      assert OrderedAt(fs, y) && OrderedAt(gs, y);
      var wc, ws := Walk(fs, fs[y].child), Walk(fs, fs[y].sibling);
      assert Walk(fs, s) == [y] + wc + ws;
      WalkGraft(fs, gs, fs[y].sibling, x, c);
      if y == x {
        assert wc == [];
        assert Walk(gs, s) == [x] + c + Ins(ws, x, c);
        assert ([y] + wc + ws)[1..] == ws;
      } else {
        WalkGraft(fs, gs, fs[y].child, x, c);
        assert Walk(gs, s) == [y] + Ins(wc, x, c) + Ins(ws, x, c);
        InsConcat([y] + wc, ws, x, c);
        InsConcat([y], wc, x, c);
        assert Ins([y], x, c) == [y] + Ins([], x, c);
      }
    }
  }

  /** A chain of childless fibers is its own walk. */
  lemma {:induction false} WalkOfLeafChain(fs: seq<Fiber>, s: Option<nat>)
    requires Ordered(fs) && InArena(fs, s)
    requires forall y :: y in Chain(fs, s) ==> y < |fs| && fs[y].child.None?
    ensures Walk(fs, s) == Chain(fs, s)
    decreases Rank(fs, s)
  {
    if s.Some? {
      var y := s.value;
      assert OrderedAt(fs, y);
      assert Chain(fs, s) == [y] + Chain(fs, fs[y].sibling);
      forall z | z in Chain(fs, fs[y].sibling) ensures z < |fs| && fs[z].child.None? {
        assert z in Chain(fs, s);
      }
      WalkOfLeafChain(fs, fs[y].sibling);
    }
  }

  /** Under the pass rooted at r, the fibers of a chain that starts below r stay below r. */
  lemma {:induction false} ChainBelow(fs: seq<Fiber>, r: nat, s: Option<nat>)
    requires Ordered(fs) && Epoch(fs, r) && Before(s, r)
    ensures forall z :: z in Chain(fs, s) ==> z < r
    decreases Rank(fs, s)
  {
    if s.Some? {
      var y := s.value;
      assert OrderedAt(fs, y) && EpochAt(fs, r, y);
      assert Chain(fs, s) == [y] + Chain(fs, fs[y].sibling);
      ChainBelow(fs, r, fs[y].sibling);
    }
  }

  /** The old children a fiber of the pass reconciles against are older than the pass. */
  lemma OldChainBelow(fs: seq<Fiber>, r: nat, x: nat)
    requires Ordered(fs) && Epoch(fs, r) && r <= x < |fs|
    ensures forall i :: 0 <= i < |OldChain(fs, x)| ==> OldChain(fs, x)[i] < r
  {
    assert EpochAt(fs, r, x) && OrderedAt(fs, x);
    if fs[x].alternate.Some? {
      var a := fs[x].alternate.value;
      assert EpochAt(fs, r, a) && OrderedAt(fs, a);
      ChainBelow(fs, r, fs[a].child);
      var olds := OldChain(fs, x);
      assert olds == Chain(fs, fs[a].child);
      forall i | 0 <= i < |olds| ensures olds[i] < r {
        assert olds[i] in Chain(fs, fs[a].child);
      }
    }
  }

  /** The walk from r stays among the pass's fibers. */
  lemma WalkAboveRoot(fs: seq<Fiber>, r: nat)
    requires Ordered(fs) && Consistent(fs) && r < |fs|
    ensures forall z :: z in Walk(fs, Some(r)) ==> r <= z < |fs|
  {
    forall z | z in Walk(fs, Some(r)) ensures r <= z < |fs| {
      WalkInSiblingTrees(fs, r, z);
    }
  }

  /** Giving fiber x a dom node changes neither the links nor the pass. */
  lemma SetDomKeepsShape(fs: seq<Fiber>, r: nat, x: nat, d: nat)
    requires Ordered(fs) && Consistent(fs) && Epoch(fs, r) && x < |fs|
    ensures var gs := fs[x := fs[x].(dom := Some(d))];
      Ordered(gs) && Consistent(gs) && Epoch(gs, r)
      && OldChain(gs, x) == OldChain(fs, x)
      && Walk(gs, Some(r)) == Walk(fs, Some(r))
  {
    var gs := fs[x := fs[x].(dom := Some(d))];
    forall y | 0 <= y < |gs| ensures OrderedAt(gs, y) { assert OrderedAt(fs, y); }
    forall y | 0 <= y < |gs| ensures LinkedAt(gs, y) && EpochAt(gs, r, y) {
      assert OrderedAt(fs, y) && LinkedAt(fs, y) && EpochAt(fs, r, y);
    }
    assert Epoch(fs, r);
    SameLinksSameWalk(fs, gs, Some(r));
    SameLinksSameChain(fs, gs, x);
  }

  lemma {:induction false} SameLinksSameWalk(fs: seq<Fiber>, gs: seq<Fiber>, s: Option<nat>)
    requires Ordered(fs) && Ordered(gs) && |fs| == |gs| && InArena(fs, s)
    requires forall y :: 0 <= y < |fs| ==> gs[y].child == fs[y].child && gs[y].sibling == fs[y].sibling
    ensures Walk(gs, s) == Walk(fs, s)
    decreases Rank(fs, s)
  {
    if s.Some? {
      var y := s.value;
      assert OrderedAt(fs, y);
      SameLinksSameWalk(fs, gs, fs[y].child);
      SameLinksSameWalk(fs, gs, fs[y].sibling);
    }
  }

  lemma SameLinksSameChain(fs: seq<Fiber>, gs: seq<Fiber>, x: nat)
    requires Ordered(fs) && Ordered(gs) && |fs| == |gs| && x < |fs|
    requires forall y :: 0 <= y < |fs| ==> gs[y].sibling == fs[y].sibling
    requires gs[x].alternate == fs[x].alternate
    requires forall y :: 0 <= y < |fs| ==> gs[y].child == fs[y].child
    ensures OldChain(gs, x) == OldChain(fs, x)
  {
    assert OrderedAt(fs, x);
    if fs[x].alternate.Some? {
      var a := fs[x].alternate.value;
      assert OrderedAt(fs, a);
      SameSiblingsSameChain(fs, gs, fs[a].child);
    }
  }

  lemma {:induction false} SameSiblingsSameChain(fs: seq<Fiber>, gs: seq<Fiber>, s: Option<nat>)
    requires Ordered(fs) && Ordered(gs) && |fs| == |gs| && InArena(fs, s)
    requires forall y :: 0 <= y < |fs| ==> gs[y].sibling == fs[y].sibling
    ensures Chain(gs, s) == Chain(fs, s)
    decreases Rank(fs, s)
  {
    if s.Some? {
      var y := s.value;
      assert OrderedAt(fs, y);
      SameSiblingsSameChain(fs, gs, fs[y].sibling);
    }
  }

  /** Every reconciliation step keeps the pass's arena discipline: it tags only old fibers
      (those older than the pass) and appends fibers that hang under x and point back only
      to old fibers. */
  lemma ReconcileKeepsEpoch(fs: seq<Fiber>, r: nat, x: nat, es: seq<Element>, i: nat)
    requires Ordered(fs) && Consistent(fs) && Epoch(fs, r) && r <= x < |fs|
    ensures Epoch(Reconciled(fs, x, es, i), r)
  {
    var R := Reconciled(fs, x, es, i);
    ReconciledAt(fs, x, es, i, r);
    assert |R| == |fs| + Min(i, |es|);
    forall y | 0 <= y < |R| ensures EpochAt(R, r, y) {
      ReconcileKeepsEpochAt(fs, r, x, es, i, y);
    }
  }

  lemma ReconcileKeepsEpochAt(fs: seq<Fiber>, r: nat, x: nat, es: seq<Element>, i: nat, y: nat)
    requires Ordered(fs) && Consistent(fs) && Epoch(fs, r) && r <= x < |fs|
    requires y < |fs| + Min(i, |es|)
    ensures y < |Reconciled(fs, x, es, i)| && EpochAt(Reconciled(fs, x, es, i), r, y)
  {
    var olds := OldChain(fs, x);
    ReconciledAt(fs, x, es, i, y);
    OldChainBelow(fs, r, x);
    if y < |fs| {
      assert EpochAt(fs, r, y);
      ReconciledTagAt(fs, x, es, i, y);
      DoomedFacts(fs, olds, es, i);
      if y in Doomed(fs, olds, es, i) {
        assert y in olds;
      }
    }
  }

  /** After a completed reconcileChildren(x, es), x's children are the new fibers, childless,
      in element order, and nothing else's links changed. */
  lemma ChildrenAfterReconcile(fs: seq<Fiber>, x: nat, es: seq<Element>)
    requires Ordered(fs) && Consistent(fs) && x < |fs| && fs[x].child.None?
    requires |OldChain(fs, x)| <= |es| + 1
    ensures var R := Reconciled(fs, x, es, Steps(|es|, |OldChain(fs, x)|));
      Ordered(R) && Consistent(R) && |R| == |fs| + |es|
      && InArena(R, R[x].child) && Walk(R, R[x].child) == Range(|fs|, |es|)
      && (forall j :: |fs| <= j < |R| ==> R[j].child.None?)
      && (forall y :: 0 <= y < |fs| && y != x ==>
            R[y].child == fs[y].child && R[y].sibling == fs[y].sibling && R[y].dom == fs[y].dom)
      && R[x].sibling == fs[x].sibling && R[x].dom == fs[x].dom
  {
    var k := Steps(|es|, |OldChain(fs, x)|);
    var R := Reconciled(fs, x, es, k);
    ReconciledShape(fs, x, es, k);
    ReconciledAt(fs, x, es, k, x);
    assert Min(k, |es|) == |es|;
    forall y | 0 <= y < |fs| && y != x
      ensures R[y].child == fs[y].child && R[y].sibling == fs[y].sibling && R[y].dom == fs[y].dom
    {
      ReconciledAt(fs, x, es, k, y);
    }
    forall j | |fs| <= j < |R| ensures R[j].child.None? {
      ReconciledAt(fs, x, es, k, j);
    }
    if k == 0 {
      ReconciledNone(fs, x, es);
      assert |es| == 0;
    } else {
      NewChildChain(fs, x, es);
      assert forall y :: y in Range(|fs|, |es|) ==> |fs| <= y < |R|;
      WalkOfLeafChain(R, R[x].child);
    }
  }

  /** The walk of the pass after performing x: the old walk with x's new children right
      after x. */
  lemma WalkAfterReconcile(fs: seq<Fiber>, r: nat, done: seq<nat>, x: nat, es: seq<Element>)
    requires Ordered(fs) && Consistent(fs) && Epoch(fs, r)
    requires PassInvariant(fs, r, done, Some(x))
    requires |OldChain(fs, x)| <= |es| + 1
    ensures r <= x < |fs|
    ensures var w := Walk(fs, Some(r));
      var R := Reconciled(fs, x, es, Steps(|es|, |OldChain(fs, x)|));
      |done| < |w| && w[|done|] == x && Ordered(R)
      && Walk(R, Some(r)) == done + [x] + Range(|fs|, |es|) + w[|done| + 1..]
      && x !in done && x !in w[|done| + 1..]
  {
    var w := Walk(fs, Some(r));
    var rest := w[|done| + 1..];
    assert w == done + [x] + rest;
    WalkAboveRoot(fs, r);
    assert x in w;
    WalkHasNoRepeats(fs, Some(r));
    assert x !in done by {
      forall i | 0 <= i < |done| ensures done[i] != x { assert done[i] == w[i]; }
    }
    assert x !in rest by {
      forall i | 0 <= i < |rest| ensures rest[i] != x { assert rest[i] == w[|done| + 1 + i]; }
    }
    assert fs[x].child.None?;
    var R := Reconciled(fs, x, es, Steps(|es|, |OldChain(fs, x)|));
    ChildrenAfterReconcile(fs, x, es);
    WalkGraft(fs, R, Some(r), x, Range(|fs|, |es|));
    InsAt(done, x, rest, Range(|fs|, |es|));
  }

  /** performUnitOfWork(x) on the pending fiber x, with x's dom in place and a completed
      reconcileChildren, moves the pass one fiber along its walk: x joins the performed
      prefix and the fiber it returns is the next fiber of the grown walk. */
  lemma PassStep(fs: seq<Fiber>, r: nat, done: seq<nat>, x: nat, es: seq<Element>)
    requires Ordered(fs) && Consistent(fs) && Epoch(fs, r)
    requires PassInvariant(fs, r, done, Some(x)) && x < |fs| && fs[x].dom.Some?
    requires |OldChain(fs, x)| <= |es| + 1
    ensures var R := Reconciled(fs, x, es, Steps(|es|, |OldChain(fs, x)|));
      Ordered(R) && Consistent(R) && Epoch(R, r) && x < |R|
      && PassInvariant(R, r, done + [x], Successor(R, x))
  {
    var k := Steps(|es|, |OldChain(fs, x)|);
    var R := Reconciled(fs, x, es, k);
    WalkAfterReconcile(fs, r, done, x, es);
    ChildrenAfterReconcile(fs, x, es);
    ReconcileKeepsEpoch(fs, r, x, es, k);
    GrownPass(fs, R, r, done, x, |es|);
  }

  /** The pass invariant after a unit of work, for any arena R that grows fs by n childless
      fibers placed in x's walk right after x and changes no other child link or dom. */
  lemma GrownPass(fs: seq<Fiber>, R: seq<Fiber>, r: nat, done: seq<nat>, x: nat, n: nat)
    requires Ordered(fs) && r < |fs| && PassInvariant(fs, r, done, Some(x)) && x < |fs|
    requires fs[x].dom.Some?
    requires Ordered(R) && Consistent(R) && |R| == |fs| + n && Epoch(R, r)
    requires var w := Walk(fs, Some(r));
      |done| < |w| && x !in w[|done| + 1..]
      && Walk(R, Some(r)) == done + [x] + Range(|fs|, n) + w[|done| + 1..]
    requires forall y :: 0 <= y < |fs| && y != x ==> R[y].child == fs[y].child && R[y].dom == fs[y].dom
    requires R[x].dom == fs[x].dom
    requires forall j :: |fs| <= j < |R| ==> R[j].child.None?
    ensures PassInvariant(R, r, done + [x], Successor(R, x))
  {
    var w := Walk(fs, Some(r));
    var c := Range(|fs|, n);
    var rest := w[|done| + 1..];
    assert w == done + [x] + rest;
    WalkLinks(R, r);
    var w' := Walk(R, Some(r));
    var d' := done + [x];
    assert w' == d' + c + rest;
    assert w'[..|d'|] == d';
    assert w'[|done|] == x;
    if |d'| < |w'| {
      assert Successor(R, w'[|done|]) == Some(w'[|done| + 1]);
    }
    forall i | |d'| <= i < |w'| ensures R[w'[i]].child.None? {
      StepChildless(fs, R, w, done, x, c, rest, i);
    }
    forall i | 0 <= i < |d'| ensures R[d'[i]].dom.Some? {
      if i < |done| {
        assert d'[i] == w[i];
      }
    }
    StepCover(w, done, x, c, rest, r, |fs|, n);
  }

  lemma StepChildless(fs: seq<Fiber>, R: seq<Fiber>, w: seq<nat>, done: seq<nat>, x: nat,
                      c: seq<nat>, rest: seq<nat>, i: nat)
    requires |fs| <= |R| && w == done + [x] + rest && x !in rest
    requires forall j :: 0 <= j < |w| ==> w[j] < |fs|
    requires forall j :: |done| <= j < |w| ==> fs[w[j]].child.None?
    requires forall y :: 0 <= y < |fs| && y != x ==> R[y].child == fs[y].child
    requires forall j :: |fs| <= j < |R| ==> R[j].child.None?
    requires forall j :: 0 <= j < |c| ==> |fs| <= c[j] < |R|
    requires |done| + 1 <= i < |done + [x] + c + rest|
    ensures (done + [x] + c + rest)[i] < |R| && R[(done + [x] + c + rest)[i]].child.None?
  {
    var w' := done + [x] + c + rest;
    var d := |done| + 1;
    if i < d + |c| {
      assert w'[i] == c[i - d];
    } else {
      assert w'[i] == rest[i - d - |c|] == w[i - |c|];
    }
  }

  lemma StepCover(w: seq<nat>, done: seq<nat>, x: nat, c: seq<nat>, rest: seq<nat>, r: nat, base: nat, n: nat)
    requires w == done + [x] + rest && c == Range(base, n)
    requires forall y :: r <= y < base ==> y in w
    ensures forall y :: r <= y < base + n ==> y in done + [x] + c + rest
  {
    forall y | r <= y < base + n ensures y in done + [x] + c + rest {
      if y < base {
        assert y in w;
      } else {
        assert y == c[y - base];
      }
    }
  }

  /** render appends a fresh root (no parent, no sibling, no children yet, no effect tag,
      the current root as alternate): the arena stays well formed and a pass starts at it
      with nothing performed and the root itself pending. */
  lemma PassStart(fs: seq<Fiber>, root: Fiber)
    requires Ordered(fs) && Consistent(fs)
    requires root.parent.None? && root.child.None? && root.sibling.None?
    requires Before(root.alternate, |fs|) && root.effectTag.None?
    ensures var gs := fs + [root];
      Ordered(gs) && Consistent(gs) && Epoch(gs, |fs|)
      && Walk(gs, Some(|fs|)) == [|fs|]
      && PassInvariant(gs, |fs|, [], Some(|fs|))
  {
    var gs, r := fs + [root], |fs|;
    forall y | 0 <= y < |gs| ensures OrderedAt(gs, y) {
      if y < r { assert OrderedAt(fs, y) && gs[y] == fs[y]; }
    }
    forall y | 0 <= y < |gs| ensures LinkedAt(gs, y) && EpochAt(gs, r, y) {
      if y < r {
        assert OrderedAt(fs, y) && LinkedAt(fs, y) && gs[y] == fs[y];
        if fs[y].child.Some? { assert gs[fs[y].child.value] == fs[fs[y].child.value]; }
        if fs[y].sibling.Some? { assert gs[fs[y].sibling.value] == fs[fs[y].sibling.value]; }
      }
    }
    assert OrderedAt(gs, r);
    assert Walk(gs, Some(r)) == [r] + Walk(gs, None) + Walk(gs, None);
  }

  /** Giving the pending fiber x a dom node (performUnitOfWork's createDom step) keeps the
      pass where it is. */
  lemma SetDomKeepsPass(fs: seq<Fiber>, r: nat, done: seq<nat>, x: nat, d: nat)
    requires Ordered(fs) && Consistent(fs) && Epoch(fs, r) && x < |fs|
    requires PassInvariant(fs, r, done, Some(x))
    ensures var gs := fs[x := fs[x].(dom := Some(d))];
      Ordered(gs) && Consistent(gs) && Epoch(gs, r) && OldChain(gs, x) == OldChain(fs, x)
      && PassInvariant(gs, r, done, Some(x)) && gs[x].dom.Some?
  {
    SetDomKeepsShape(fs, r, x, d);
  }

  /** A pass with nothing pending has performed exactly the walk of its tree, each fiber
      once, and every fiber of the pass is on it. */
  lemma PassComplete(fs: seq<Fiber>, r: nat, done: seq<nat>)
    requires Ordered(fs) && Consistent(fs) && Epoch(fs, r)
    requires PassInvariant(fs, r, done, None)
    ensures done == Walk(fs, Some(r)) && NoRepeats(done)
    ensures forall y :: r <= y < |fs| ==> y in done
    ensures forall i :: 0 <= i < |done| ==> done[i] < |fs| && fs[done[i]].dom.Some?
  {
    var w := Walk(fs, Some(r));
    assert done == w[..|done|] == w;
    WalkHasNoRepeats(fs, Some(r));
  }
}
