/** The fiber graph: fibers live in an arena (a sequence indexed by fiber id) and refer to
    each other through optional indices, as the JavaScript objects refer to each other
    through `parent`, `child`, `sibling` and `alternate`. This module holds the traversals the
    engine performs on it: the child chain, the pre-order walk of commitWork, and the
    next-unit-of-work step of performUnitOfWork. */
module Fibers {
  import opened Wrappers
  import opened Elements

  datatype Effect = Placement | Update | Deletion

  /** A fiber. `tag` is the element type (the root fiber has none); `dom` is the host node. */
  datatype Fiber = Fiber(
    tag: Option<string>,
    props: Props,
    dom: Option<nat>,
    parent: Option<nat>,
    child: Option<nat>,
    sibling: Option<nat>,
    alternate: Option<nat>,
    effectTag: Option<Effect>)

  predicate Before(o: Option<nat>, i: nat)
  {
    o.None? || o.value < i
  }

  predicate Between(o: Option<nat>, i: nat, n: nat)
  {
    o.None? || i < o.value < n
  }

  predicate InArena(fs: seq<Fiber>, o: Option<nat>)
  {
    o.None? || o.value < |fs|
  }

  /** Every fiber is created after its parent and its alternate and before its child and its
      next sibling, so child and sibling links point forward and the others backward. */
  predicate Ordered(fs: seq<Fiber>)
  {
    forall i :: 0 <= i < |fs| ==> OrderedAt(fs, i)
  }

  predicate OrderedAt(fs: seq<Fiber>, i: nat)
    requires i < |fs|
  {
    Between(fs[i].child, i, |fs|) && Between(fs[i].sibling, i, |fs|)
    && Before(fs[i].parent, i) && Before(fs[i].alternate, i)
  }

  /** Fiber i's first child has i as parent, and its next sibling shares its parent. */
  predicate LinkedAt(fs: seq<Fiber>, i: nat)
    requires Ordered(fs) && i < |fs|
  {
    assert OrderedAt(fs, i);
    (fs[i].child.Some? ==> fs[fs[i].child.value].parent == Some(i))
    && (fs[i].sibling.Some? ==> fs[fs[i].sibling.value].parent == fs[i].parent)
  }

  /** Parent links agree with child and sibling links everywhere. */
  predicate Consistent(fs: seq<Fiber>)
    requires Ordered(fs)
  {
    forall i :: 0 <= i < |fs| ==> LinkedAt(fs, i)
  }

  function Rank(fs: seq<Fiber>, o: Option<nat>): nat
  {
    if o.Some? && o.value < |fs| then |fs| - o.value else 0
  }

  /** The chain `start`, `start.sibling`, `start.sibling.sibling`, ... */
  function Chain(fs: seq<Fiber>, start: Option<nat>): seq<nat>
    requires Ordered(fs) && InArena(fs, start)
    decreases Rank(fs, start)
  {
    match start
    case None => []
    case Some(x) =>
      assert OrderedAt(fs, x);
      [x] + Chain(fs, fs[x].sibling)
  }

  /** A chain runs forward through the arena one sibling link at a time, from `start` to a
      fiber without a next sibling. */
  lemma {:induction false} ChainFacts(fs: seq<Fiber>, start: Option<nat>)
    requires Ordered(fs) && InArena(fs, start)
    ensures var c := Chain(fs, start);
      (|c| == 0 <==> start.None?)
      && (forall i :: 0 <= i < |c| ==> start.value <= c[i] < |fs|)
      && (forall i, j :: 0 <= i < j < |c| ==> c[i] < c[j])
      && (forall i :: 0 <= i < |c| - 1 ==> fs[c[i]].sibling == Some(c[i + 1]))
      && (|c| > 0 ==> c[0] == start.value && fs[c[|c| - 1]].sibling.None?)
    decreases Rank(fs, start)
  {
    if start.Some? {
      var x := start.value;
      assert OrderedAt(fs, x);
      var rest := Chain(fs, fs[x].sibling);
      ChainFacts(fs, fs[x].sibling);
      assert Chain(fs, start) == [x] + rest;
    }
  }

  /** The order in which commitWork(start) visits fibers: the fiber, then its child's walk,
      then its sibling's walk. From a fiber without siblings this is the pre-order of its tree. */
  function Walk(fs: seq<Fiber>, start: Option<nat>): seq<nat>
    requires Ordered(fs) && InArena(fs, start)
    decreases Rank(fs, start)
  {
    match start
    case None => []
    case Some(x) =>
      assert OrderedAt(fs, x);
      [x] + Walk(fs, fs[x].child) + Walk(fs, fs[x].sibling)
  }

  /** The walk from `start` visits only fibers of the arena, none before `start`. */
  lemma {:induction false} WalkInArena(fs: seq<Fiber>, start: Option<nat>)
    requires Ordered(fs) && InArena(fs, start)
    ensures forall i :: 0 <= i < |Walk(fs, start)| ==> start.value <= Walk(fs, start)[i] < |fs|
    decreases Rank(fs, start)
  {
    if start.Some? {
      var x := start.value;
      assert OrderedAt(fs, x);
      WalkInArena(fs, fs[x].child);
      WalkInArena(fs, fs[x].sibling);
      var wc, ws := Walk(fs, fs[x].child), Walk(fs, fs[x].sibling);
      forall i | 0 <= i < |[x] + wc + ws| ensures x <= ([x] + wc + ws)[i] < |fs| {
        if 0 < i <= |wc| {
          assert ([x] + wc + ws)[i] == wc[i - 1];
        } else if i > |wc| {
          assert ([x] + wc + ws)[i] == ws[i - 1 - |wc|];
        }
      }
    }
  }

  /** Giving a fiber a dom node changes none of the links. */
  lemma SetDomKeepsOrder(fs: seq<Fiber>, x: nat, d: Option<nat>)
    requires Ordered(fs) && x < |fs|
    ensures var gs := fs[x := fs[x].(dom := d)];
      Ordered(gs) && (Consistent(fs) ==> Consistent(gs))
  {
    var gs := fs[x := fs[x].(dom := d)];
    forall y | 0 <= y < |gs| ensures OrderedAt(gs, y) { assert OrderedAt(fs, y); }
    if Consistent(fs) {
      forall y | 0 <= y < |gs| ensures LinkedAt(gs, y) { assert OrderedAt(fs, y) && LinkedAt(fs, y); }
    }
  }

  /** The sibling of the nearest of {x, its ancestors} that has one. */
  function Up(fs: seq<Fiber>, x: nat): Option<nat>
    requires Ordered(fs) && x < |fs|
    decreases x
  {
    assert OrderedAt(fs, x);
    if fs[x].sibling.Some? then fs[x].sibling
    else match fs[x].parent
      case None => None
      case Some(p) => Up(fs, p)
  }

  function UpFrom(fs: seq<Fiber>, o: Option<nat>): Option<nat>
    requires Ordered(fs) && InArena(fs, o)
  {
    match o
    case None => None
    case Some(p) => Up(fs, p)
  }

  /** The unit of work performUnitOfWork returns after fiber x: its child, else Up. */
  function Successor(fs: seq<Fiber>, x: nat): Option<nat>
    requires Ordered(fs) && x < |fs|
  {
    if fs[x].child.Some? then fs[x].child else Up(fs, x)
  }

  lemma {:induction false} UpInArena(fs: seq<Fiber>, x: nat)
    requires Ordered(fs) && x < |fs|
    ensures InArena(fs, Up(fs, x)) && InArena(fs, Successor(fs, x))
    decreases x
  {
    assert OrderedAt(fs, x);
    if fs[x].sibling.None? && fs[x].parent.Some? {
      UpInArena(fs, fs[x].parent.value);
    }
  }

  /** The fibers performed by k units of work from `start` on a fixed arena. */
  function Trace(fs: seq<Fiber>, start: Option<nat>, k: nat): seq<nat>
    requires Ordered(fs) && InArena(fs, start)
    decreases k
  {
    if k == 0 || start.None? then []
    else
      UpInArena(fs, start.value);
      [start.value] + Trace(fs, Successor(fs, start.value), k - 1)
  }

  /** The pending unit of work after k units from `start`. */
  function Advance(fs: seq<Fiber>, start: Option<nat>, k: nat): (r: Option<nat>)
    requires Ordered(fs) && InArena(fs, start)
    ensures InArena(fs, r)
    decreases k
  {
    if k == 0 || start.None? then start
    else
      UpInArena(fs, start.value);
      Advance(fs, Successor(fs, start.value), k - 1)
  }

  lemma {:induction false} TraceSplit(fs: seq<Fiber>, start: Option<nat>, a: nat, b: nat)
    requires Ordered(fs) && InArena(fs, start)
    ensures Trace(fs, start, a + b) == Trace(fs, start, a) + Trace(fs, Advance(fs, start, a), b)
    ensures Advance(fs, start, a + b) == Advance(fs, Advance(fs, start, a), b)
    decreases a
  {
    if a > 0 && start.Some? {
      UpInArena(fs, start.value);
      TraceSplit(fs, Successor(fs, start.value), a - 1, b);
      assert a + b - 1 == (a - 1) + b;
    }
  }

  lemma TraceStep(fs: seq<Fiber>, x: nat, k: nat)
    requires Ordered(fs) && x < |fs|
    ensures InArena(fs, Successor(fs, x))
    ensures Trace(fs, Some(x), k + 1) == [x] + Trace(fs, Successor(fs, x), k)
    ensures Advance(fs, Some(x), k + 1) == Advance(fs, Successor(fs, x), k)
  {
    UpInArena(fs, x);
  }

  /** From x's successor, x's child's walk is performed and then Up(x) is pending. */
  lemma {:induction false} TraceAfterFiber(fs: seq<Fiber>, x: nat)
    requires Ordered(fs) && Consistent(fs) && x < |fs|
    ensures InArena(fs, Successor(fs, x)) && InArena(fs, Up(fs, x))
    ensures var wc := Walk(fs, fs[x].child);
      Trace(fs, Successor(fs, x), |wc|) == wc && Advance(fs, Successor(fs, x), |wc|) == Up(fs, x)
    decreases |fs| - x, 0
  {
    UpInArena(fs, x);
    assert OrderedAt(fs, x);
    var c := fs[x].child;
    assert LinkedAt(fs, x);
    if c.Some? {
      TraceFollowsWalk(fs, c.value);
    }
  }

  /** From x, the fiber itself and its child's walk are performed, and then Up(x) is pending. */
  lemma {:induction false} TraceThroughChild(fs: seq<Fiber>, x: nat)
    requires Ordered(fs) && Consistent(fs) && x < |fs| && OrderedAt(fs, x)
    ensures InArena(fs, Up(fs, x))
    ensures Trace(fs, Some(x), |Walk(fs, fs[x].child)| + |Walk(fs, fs[x].sibling)| + 1)
      == [x] + Walk(fs, fs[x].child) + Trace(fs, Up(fs, x), |Walk(fs, fs[x].sibling)|)
    ensures Advance(fs, Some(x), |Walk(fs, fs[x].child)| + |Walk(fs, fs[x].sibling)| + 1)
      == Advance(fs, Up(fs, x), |Walk(fs, fs[x].sibling)|)
    decreases |fs| - x, 1
  {
    var wc, ws := Walk(fs, fs[x].child), Walk(fs, fs[x].sibling);
    var t, u, k := Successor(fs, x), Up(fs, x), |wc| + |ws|;
    UpInArena(fs, x);
    assert InArena(fs, t);
    assert Trace(fs, Some(x), k + 1) == [x] + Trace(fs, t, k) && Advance(fs, Some(x), k + 1) == Advance(fs, t, k) by {
      TraceStep(fs, x, k);
    }
    assert Trace(fs, t, |wc|) == wc && Advance(fs, t, |wc|) == u by {
      TraceAfterFiber(fs, x);
    }
    assert Trace(fs, t, k) == Trace(fs, t, |wc|) + Trace(fs, Advance(fs, t, |wc|), |ws|)
        && Advance(fs, t, k) == Advance(fs, Advance(fs, t, |wc|), |ws|) by {
      TraceSplit(fs, t, |wc|, |ws|);
    }
    assert Trace(fs, Some(x), k + 1) == [x] + (wc + Trace(fs, u, |ws|));
    assert [x] + (wc + Trace(fs, u, |ws|)) == [x] + wc + Trace(fs, u, |ws|);
  }

  /** Following performUnitOfWork's next-unit step from x visits exactly x's walk and then
      continues where x's parent would (the sibling of x's nearest ancestor that has one). */
  lemma {:induction false} TraceFollowsWalk(fs: seq<Fiber>, x: nat)
    requires Ordered(fs) && Consistent(fs) && x < |fs| && OrderedAt(fs, x)
    ensures var w := Walk(fs, Some(x));
      Trace(fs, Some(x), |w|) == w && Advance(fs, Some(x), |w|) == UpFrom(fs, fs[x].parent)
    decreases |fs| - x, 2
  {
    assert OrderedAt(fs, x);
    var s := fs[x].sibling;
    TraceThroughChild(fs, x);
    assert LinkedAt(fs, x);
    if s.Some? {
      TraceFollowsWalk(fs, s.value);
    }
  }

  /** The successor step, started at a root (no parent, no sibling), performs the root's tree
      in pre-order and then returns no further unit. */
  lemma SuccessorEnumeratesPreOrder(fs: seq<Fiber>, r: nat)
    requires Ordered(fs) && Consistent(fs) && r < |fs|
    requires fs[r].parent.None? && fs[r].sibling.None?
    ensures var w := Walk(fs, Some(r));
      Trace(fs, Some(r), |w|) == w && Advance(fs, Some(r), |w|).None?
  {
    TraceFollowsWalk(fs, r);
  }

  /** a is z or an ancestor of z. */
  predicate AncestorOrSelf(fs: seq<Fiber>, a: nat, z: nat)
    requires Ordered(fs) && z < |fs|
    decreases z
  {
    assert OrderedAt(fs, z);
    z == a || (fs[z].parent.Some? && AncestorOrSelf(fs, a, fs[z].parent.value))
  }

  lemma {:induction false} AncestorIsSmaller(fs: seq<Fiber>, a: nat, z: nat)
    requires Ordered(fs) && z < |fs| && AncestorOrSelf(fs, a, z)
    ensures a <= z
    decreases z
  {
    assert OrderedAt(fs, z);
    if z != a {
      AncestorIsSmaller(fs, a, fs[z].parent.value);
    }
  }

  lemma {:induction false} AncestorTransitive(fs: seq<Fiber>, x: nat, a: nat, z: nat)
    requires Ordered(fs) && a < |fs| && z < |fs|
    requires AncestorOrSelf(fs, x, a) && AncestorOrSelf(fs, a, z)
    ensures AncestorOrSelf(fs, x, z)
    decreases z
  {
    assert OrderedAt(fs, z);
    if z != a {
      AncestorTransitive(fs, x, a, fs[z].parent.value);
    }
  }

  /** Two ancestors of z with the same parent are the same fiber. */
  lemma {:induction false} AncestorsWithSameParent(fs: seq<Fiber>, a: nat, b: nat, z: nat)
    requires Ordered(fs) && a < |fs| && b < |fs| && z < |fs|
    requires AncestorOrSelf(fs, a, z) && AncestorOrSelf(fs, b, z)
    requires fs[a].parent == fs[b].parent
    ensures a == b
    decreases z
  {
    assert OrderedAt(fs, z) && OrderedAt(fs, a) && OrderedAt(fs, b);
    if z == a && z != b {
      AncestorIsSmaller(fs, b, fs[z].parent.value);
    } else if z == b && z != a {
      AncestorIsSmaller(fs, a, fs[z].parent.value);
    } else if z != a && z != b {
      AncestorsWithSameParent(fs, a, b, fs[z].parent.value);
    }
  }

  lemma {:induction false} ChainSharesParent(fs: seq<Fiber>, x: nat)
    requires Ordered(fs) && Consistent(fs) && x < |fs|
    ensures forall y :: y in Chain(fs, Some(x)) ==> y < |fs| && x <= y && fs[y].parent == fs[x].parent
    decreases |fs| - x
  {
    assert OrderedAt(fs, x) && LinkedAt(fs, x);
    if fs[x].sibling.Some? {
      ChainSharesParent(fs, fs[x].sibling.value);
    }
  }

  /** Every fiber of x's walk lies in the tree of x or of a later sibling of x. */
  lemma {:induction false} WalkInSiblingTrees(fs: seq<Fiber>, x: nat, z: nat)
    requires Ordered(fs) && Consistent(fs) && x < |fs|
    requires z in Walk(fs, Some(x))
    ensures z < |fs| && x <= z
    ensures exists b :: b in Chain(fs, Some(x)) && b < |fs| && AncestorOrSelf(fs, b, z)
    decreases |fs| - x
  {
    var c, s := fs[x].child, fs[x].sibling;
    assert OrderedAt(fs, x) && LinkedAt(fs, x);
    ChainSharesParent(fs, x);
    if z == x {
      assert x in Chain(fs, Some(x)) && AncestorOrSelf(fs, x, x);
    } else if z in Walk(fs, c) {
      WalkInSiblingTrees(fs, c.value, z);
      var a :| a in Chain(fs, c) && a < |fs| && AncestorOrSelf(fs, a, z);
      ChainSharesParent(fs, c.value);
      assert AncestorOrSelf(fs, x, a);
      AncestorTransitive(fs, x, a, z);
      assert x in Chain(fs, Some(x));
    } else {
      assert z in Walk(fs, s);
      WalkInSiblingTrees(fs, s.value, z);
      var b :| b in Chain(fs, s) && b < |fs| && AncestorOrSelf(fs, b, z);
      assert b in Chain(fs, Some(x));
    }
  }

  predicate NoRepeats(s: seq<nat>)
  {
    forall i, j :: 0 <= i < j < |s| ==> s[i] != s[j]
  }

  /** commitWork's walk visits no fiber twice. */
  lemma {:induction false} WalkHasNoRepeats(fs: seq<Fiber>, start: Option<nat>)
    requires Ordered(fs) && Consistent(fs) && InArena(fs, start)
    ensures NoRepeats(Walk(fs, start))
    decreases Rank(fs, start)
  {
    if start.Some? {
      var x := start.value;
      var c, s := fs[x].child, fs[x].sibling;
      assert OrderedAt(fs, x);
      var wc, ws := Walk(fs, c), Walk(fs, s);
      assert LinkedAt(fs, x);
      WalkHasNoRepeats(fs, c);
      WalkHasNoRepeats(fs, s);
      forall z | z in wc ensures x < z && z !in ws {
        WalkInSiblingTrees(fs, c.value, z);
        var a :| a in Chain(fs, c) && a < |fs| && AncestorOrSelf(fs, a, z);
        ChainSharesParent(fs, c.value);
        assert AncestorOrSelf(fs, x, a);
        AncestorTransitive(fs, x, a, z);
        AncestorIsSmaller(fs, a, z);
        if z in ws {
          WalkInSiblingTrees(fs, s.value, z);
          var b :| b in Chain(fs, s) && b < |fs| && AncestorOrSelf(fs, b, z);
          ChainSharesParent(fs, s.value);
          AncestorsWithSameParent(fs, x, b, z);
        }
      }
      forall z | z in ws ensures x < z {
        WalkInSiblingTrees(fs, s.value, z);
      }
      var w := [x] + wc + ws;
      forall i, j | 0 <= i < j < |w| ensures w[i] != w[j] {
        if i == 0 {
          assert w[j] in wc || w[j] in ws;
        } else if j <= |wc| {
          assert w[i] == wc[i - 1] && w[j] == wc[j - 1];
        } else if i > |wc| {
          assert w[i] == ws[i - 1 - |wc|] && w[j] == ws[j - 1 - |wc|];
        } else {
          assert w[i] in wc && w[j] in ws;
        }
      }
    }
  }

  /** From a root fiber, performUnitOfWork's next-unit step visits every fiber of the root's
      tree exactly once, in pre-order, and then stops. */
  lemma PreOrderVisitsEachFiberOnce(fs: seq<Fiber>, r: nat)
    requires Ordered(fs) && Consistent(fs) && r < |fs|
    requires fs[r].parent.None? && fs[r].sibling.None?
    ensures var w := Walk(fs, Some(r));
      Trace(fs, Some(r), |w|) == w && NoRepeats(w) && Advance(fs, Some(r), |w|).None?
      && (forall z :: z in w ==> z < |fs| && AncestorOrSelf(fs, r, z))
  {
    SuccessorEnumeratesPreOrder(fs, r);
    WalkHasNoRepeats(fs, Some(r));
    forall z | z in Walk(fs, Some(r)) ensures z < |fs| && AncestorOrSelf(fs, r, z) {
      WalkInSiblingTrees(fs, r, z);
      assert Chain(fs, Some(r)) == [r];
    }
  }
}
