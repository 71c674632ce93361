/** reconcileChildren(wipFiber, elements) in closed form (src/index.js; the copy in
    src/own/simple-react.js is the same code). The loop pairs the old child chain (the
    children of wipFiber's alternate) with the new elements by position: an old fiber and an
    element of the same type give an UPDATE fiber that reuses the old host node; an element
    without such a partner gives a PLACEMENT fiber; an old fiber without such a partner is
    tagged DELETION and pushed onto `deletions`. New fibers are appended to the arena in
    element order and linked as wipFiber's child chain. */
module Reconciliation {
  import opened Wrappers
  import opened Elements
  import opened Fibers

  function Min(a: nat, b: nat): nat
  {
    if a <= b then a else b
  }

  /** The ids base, base + 1, ..., base + count - 1. */
  function Range(base: nat, count: nat): (r: seq<nat>)
    ensures |r| == count && forall i :: 0 <= i < count ==> r[i] == base + i
  {
    seq(count, i requires 0 <= i < count => base + i)
  }

  /** The old children the loop walks: `wipFiber.alternate && wipFiber.alternate.child`
      followed along `sibling`. */
  function OldChain(fs: seq<Fiber>, w: nat): (olds: seq<nat>)
    requires Ordered(fs) && w < |fs|
    ensures forall i :: 0 <= i < |olds| ==> olds[i] < |fs|
    ensures forall i, j :: 0 <= i < j < |olds| ==> olds[i] < olds[j]
  {
    match fs[w].alternate
    case None => []
    case Some(a) =>
      assert OrderedAt(fs, w) && OrderedAt(fs, a);
      ChainFacts(fs, fs[a].child);
      Chain(fs, fs[a].child)
  }

  /** Consecutive old children are linked by `sibling`, and the last has none. */
  lemma OldChainSiblings(fs: seq<Fiber>, w: nat, t: nat)
    requires Ordered(fs) && w < |fs| && t < |OldChain(fs, w)|
    ensures var olds := OldChain(fs, w);
      fs[olds[t]].sibling == if t + 1 < |olds| then Some(olds[t + 1]) else None
  {
    assert OrderedAt(fs, w);
    var a := fs[w].alternate.value;
    assert OrderedAt(fs, a);
    ChainFacts(fs, fs[a].child);
  }

  /** Position i pairs an old fiber with an element of the same type (`sameType`). */
  predicate Same(fs: seq<Fiber>, olds: seq<nat>, es: seq<Element>, i: nat)
  {
    i < |es| && i < |olds| && olds[i] < |fs| && fs[olds[i]].tag == Some(es[i].tag)
  }

  /** How many times the loop body starts for n elements and m old children: max(n, m),
      except that when m >= n + 2 the body at position n + 1 finds `prevSibling` null and
      throws, so the loop stops there. */
  function Steps(n: nat, m: nat): nat
  {
    if m >= n + 2 then n + 2 else if n >= m then n else m
  }

  /** The loop's `oldFiber` at the start of iteration i: the i-th old fiber, or null. */
  function OldAt(olds: seq<nat>, i: nat): Option<nat>
  {
    if i < |olds| then Some(olds[i]) else None
  }

  /** The loop's `prevSibling` at the start of iteration i: the new fiber of iteration i - 1,
      or null before the first iteration and once the elements are exhausted. */
  function PrevNew(base: nat, n: nat, i: nat): Option<nat>
  {
    if 0 < i <= n then Some(base + i - 1) else None
  }

  /** What iteration i pushes onto `deletions`: its old fiber, when there is one and the
      element at i is not of its type. */
  function Pushed(fs: seq<Fiber>, olds: seq<nat>, es: seq<Element>, i: nat): seq<nat>
  {
    if i < |olds| && !Same(fs, olds, es, i) then [olds[i]] else []
  }

  /** The old fibers tagged DELETION and pushed onto `deletions` by the first k iterations. */
  function Doomed(fs: seq<Fiber>, olds: seq<nat>, es: seq<Element>, k: nat): seq<nat>
  {
    if k == 0 then [] else
      Doomed(fs, olds, es, k - 1) + Pushed(fs, olds, es, k - 1)
  }

  /** `deletions` after the first k iterations, starting from `dels`. */
  function DeletionsAfter(dels: seq<nat>, fs: seq<Fiber>, olds: seq<nat>, es: seq<Element>, k: nat): seq<nat>
  {
    if k == 0 then dels else DeletionsAfter(dels, fs, olds, es, k - 1) + Pushed(fs, olds, es, k - 1)
  }

  /** The iterations append exactly the doomed old fibers to whatever `deletions` held. */
  lemma {:induction false} DeletionsAfterAppendsDoomed(dels: seq<nat>, fs: seq<Fiber>, olds: seq<nat>, es: seq<Element>, k: nat)
    ensures DeletionsAfter(dels, fs, olds, es, k) == dels + Doomed(fs, olds, es, k)
  {
    if k == 0 {
      assert dels + [] == dels;
    } else {
      DeletionsAfterAppendsDoomed(dels, fs, olds, es, k - 1);
      var d, p := Doomed(fs, olds, es, k - 1), Pushed(fs, olds, es, k - 1);
      assert dels + d + p == dels + (d + p);
    }
  }

  /** The fiber built for element i, stored at |fs| + i, when `made` new fibers exist: an
      UPDATE of the old fiber at the same position when the types agree, else a PLACEMENT.
      Its sibling is the next new fiber, once that exists. */
  function NewFiber(fs: seq<Fiber>, w: nat, olds: seq<nat>, es: seq<Element>, i: nat, made: nat): Fiber
    requires i < |es|
  {
    var sibling := if i + 1 < made then Some(|fs| + i + 1) else None;
    if Same(fs, olds, es, i) then
      var prior := fs[olds[i]];
      Fiber(prior.tag, es[i].props, prior.dom, Some(w), None, sibling, Some(olds[i]), Some(Update))
    else
      Fiber(Some(es[i].tag), es[i].props, None, Some(w), None, sibling, None, Some(Placement))
  }

  /** What iteration 0 stores in `wipFiber.child`: the first new fiber, or null. */
  function FirstNew(fs: seq<Fiber>, es: seq<Element>): Option<nat>
  {
    if |es| > 0 then Some(|fs|) else None
  }

  /** The arena after the first i iterations of reconcileChildren(w, es). */
  function Reconciled(fs: seq<Fiber>, w: nat, es: seq<Element>, i: nat): (r: seq<Fiber>)
    requires Ordered(fs) && w < |fs|
    ensures |r| == |fs| + Min(i, |es|)
  {
    var olds := OldChain(fs, w);
    var made := Min(i, |es|);
    var doomed := Doomed(fs, olds, es, i);
    seq(|fs| + made, j requires 0 <= j < |fs| + made =>
      if j < |fs| then
        fs[j].(child := if j == w && i > 0 then FirstNew(fs, es) else fs[j].child,
               effectTag := if j in doomed then Some(Deletion) else fs[j].effectTag)
      else NewFiber(fs, w, olds, es, j - |fs|, made))
  }

  /** An iteration changes a fiber that existed before the call only by linking wipFiber's
      child (iteration 0) and by tagging the old fiber at its position. */
  lemma StepOnOldFiber(fs: seq<Fiber>, w: nat, es: seq<Element>, i: nat, j: nat)
    requires Ordered(fs) && w < |fs| && j < |fs|
    ensures var olds := OldChain(fs, w);
      var a := Reconciled(fs, w, es, i);
      Reconciled(fs, w, es, i + 1)[j] == a[j].(
        child := if j == w && i == 0 then FirstNew(fs, es) else a[j].child,
        effectTag := if i < |olds| && !Same(fs, olds, es, i) && j == olds[i] then Some(Deletion) else a[j].effectTag)
  {
    var olds := OldChain(fs, w);
    assert Doomed(fs, olds, es, i + 1) == Doomed(fs, olds, es, i)
      + (if i < |olds| && !Same(fs, olds, es, i) then [olds[i]] else []);
  }

  /** An iteration changes the new fibers only by adding the one for its element and linking
      the previous one's sibling to it (or to null); stated on the fibers' values. */
  lemma NewFiberStep(fs: seq<Fiber>, w: nat, olds: seq<nat>, es: seq<Element>, i: nat, t: nat, x1: Fiber, x0: Fiber, b: Fiber)
    requires t < Min(i + 1, |es|)
    requires x1 == NewFiber(fs, w, olds, es, t, Min(i + 1, |es|))
    requires t < i ==> x0 == NewFiber(fs, w, olds, es, t, Min(i, |es|))
    requires b == if t == i then NewFiber(fs, w, olds, es, i, i + 1)
      else if t + 1 == i then x0.(sibling := if i < |es| then Some(|fs| + i) else None)
      else x0
    ensures x1 == b
  {
    if t < i {
      NewFiberResized(fs, w, olds, es, t, Min(i, |es|), Min(i + 1, |es|));
    }
  }

  /** A new fiber of the arena after i iterations, as the closed form gives it. */
  lemma ReconciledNewAt(fs: seq<Fiber>, w: nat, es: seq<Element>, i: nat, t: nat)
    requires Ordered(fs) && w < |fs| && t < Min(i, |es|)
    ensures |Reconciled(fs, w, es, i)| == |fs| + Min(i, |es|)
    ensures Reconciled(fs, w, es, i)[|fs| + t] == NewFiber(fs, w, OldChain(fs, w), es, t, Min(i, |es|))
  {
  }

  lemma NewFiberResized(fs: seq<Fiber>, w: nat, olds: seq<nat>, es: seq<Element>, t: nat, made: nat, made': nat)
    requires t < |es|
    ensures NewFiber(fs, w, olds, es, t, made') ==
      NewFiber(fs, w, olds, es, t, made).(sibling := if t + 1 < made' then Some(|fs| + t + 1) else None)
  {
  }

  /** One iteration of the loop body, at position i, applied to the arena `a`: append the
      new fiber (when there is an element), tag the old fiber (when it has no same-type
      partner), and store the new fiber (or null) as wipFiber's child or as the previous new
      fiber's sibling. */
  function Body(fs: seq<Fiber>, w: nat, es: seq<Element>, a: seq<Fiber>, i: nat): seq<Fiber>
    requires Ordered(fs) && w < |fs| && |fs| <= |a|
    requires 0 < i <= |es| ==> |fs| + i - 1 < |a|
  {
    var olds := OldChain(fs, w);
    var base := |fs|;
    var a1 := if i < |es| then a + [NewFiber(fs, w, olds, es, i, i + 1)] else a;
    var a2 := if i < |olds| && !Same(fs, olds, es, i)
      then a1[olds[i] := a1[olds[i]].(effectTag := Some(Deletion))] else a1;
    var nf := if i < |es| then Some(base + i) else None;
    if i == 0 then a2[w := a2[w].(child := nf)]
    else if i - 1 < |es| then a2[base + i - 1 := a2[base + i - 1].(sibling := nf)]
    else a2
  }

  /** The loop body changes a fiber that existed before the call only by linking wipFiber's
      child (iteration 0) and by tagging the old fiber at position i. */
  lemma BodyOnOldFiber(fs: seq<Fiber>, w: nat, es: seq<Element>, a: seq<Fiber>, i: nat, j: nat)
    requires Ordered(fs) && w < |fs| && j < |fs| && |a| == |fs| + Min(i, |es|)
    ensures |Body(fs, w, es, a, i)| == |fs| + Min(i + 1, |es|)
    ensures var olds := OldChain(fs, w);
      Body(fs, w, es, a, i)[j] == a[j].(
        child := if j == w && i == 0 then FirstNew(fs, es) else a[j].child,
        effectTag := if i < |olds| && !Same(fs, olds, es, i) && j == olds[i] then Some(Deletion) else a[j].effectTag)
  {
    var olds := OldChain(fs, w);
    var a1 := if i < |es| then a + [NewFiber(fs, w, olds, es, i, i + 1)] else a;
    var a2 := if i < |olds| && !Same(fs, olds, es, i)
      then a1[olds[i] := a1[olds[i]].(effectTag := Some(Deletion))] else a1;
    assert a1[j] == a[j];
    assert a2[j] == a[j].(effectTag := if i < |olds| && !Same(fs, olds, es, i) && j == olds[i] then Some(Deletion) else a[j].effectTag);
  }

  /** The loop body changes the new fibers only by adding the one for element i and linking
      the previous one's sibling to it (or to null). */
  lemma BodyOnNewFiber(fs: seq<Fiber>, w: nat, es: seq<Element>, a: seq<Fiber>, i: nat, t: nat)
    requires Ordered(fs) && w < |fs| && t < Min(i + 1, |es|) && |a| == |fs| + Min(i, |es|)
    ensures |fs| + t < |Body(fs, w, es, a, i)|
    ensures var olds := OldChain(fs, w);
      var nf := if i < |es| then Some(|fs| + i) else None;
      Body(fs, w, es, a, i)[|fs| + t] ==
        if t == i then NewFiber(fs, w, olds, es, i, i + 1)
        else if t + 1 == i then a[|fs| + t].(sibling := nf)
        else a[|fs| + t]
  {
    var olds := OldChain(fs, w);
    var base := |fs|;
    var a1 := if i < |es| then a + [NewFiber(fs, w, olds, es, i, i + 1)] else a;
    var a2 := if i < |olds| && !Same(fs, olds, es, i)
      then a1[olds[i] := a1[olds[i]].(effectTag := Some(Deletion))] else a1;
    var nf := if i < |es| then Some(base + i) else None;
    assert |a1| == base + Min(i + 1, |es|);
    assert a2[base + t] == a1[base + t];
    if t == i {
      assert a1[base + t] == NewFiber(fs, w, olds, es, i, i + 1);
    } else {
      assert a1[base + t] == a[base + t];
    }
    if i == 0 {
      assert Body(fs, w, es, a, i) == a2[w := a2[w].(child := nf)];
    } else if i - 1 < |es| {
      assert Body(fs, w, es, a, i) == a2[base + i - 1 := a2[base + i - 1].(sibling := nf)];
    } else {
      assert Body(fs, w, es, a, i) == a2;
    }
  }

  /** The closed form is faithful to the loop: one more iteration of the body takes the
      arena after i iterations to the arena after i + 1. */
  lemma ReconcileStep(fs: seq<Fiber>, w: nat, es: seq<Element>, i: nat)
    requires Ordered(fs) && w < |fs|
    ensures Reconciled(fs, w, es, i + 1) == Body(fs, w, es, Reconciled(fs, w, es, i), i)
  {
    var a := Reconciled(fs, w, es, i);
    var b, c := Reconciled(fs, w, es, i + 1), Body(fs, w, es, a, i);
    BodyOnOldFiber(fs, w, es, a, i, w);
    forall j | 0 <= j < |b| ensures b[j] == c[j] {
      StepAgreesAt(fs, w, es, i, j);
    }
  }

  lemma StepAgreesAt(fs: seq<Fiber>, w: nat, es: seq<Element>, i: nat, j: nat)
    requires Ordered(fs) && w < |fs| && j < |fs| + Min(i + 1, |es|)
    ensures var a := Reconciled(fs, w, es, i);
      |Body(fs, w, es, a, i)| == |fs| + Min(i + 1, |es|)
      && Reconciled(fs, w, es, i + 1)[j] == Body(fs, w, es, a, i)[j]
  {
    if j < |fs| {
      StepAgreesOnOld(fs, w, es, i, j);
    } else {
      BodyOnOldFiber(fs, w, es, Reconciled(fs, w, es, i), i, w);
      StepAgreesOnNew(fs, w, es, i, j - |fs|);
    }
  }

  lemma StepAgreesOnOld(fs: seq<Fiber>, w: nat, es: seq<Element>, i: nat, j: nat)
    requires Ordered(fs) && w < |fs| && j < |fs|
    ensures var a := Reconciled(fs, w, es, i);
      |Body(fs, w, es, a, i)| == |fs| + Min(i + 1, |es|)
      && Reconciled(fs, w, es, i + 1)[j] == Body(fs, w, es, a, i)[j]
  {
    var a := Reconciled(fs, w, es, i);
    StepOnOldFiber(fs, w, es, i, j);
    BodyOnOldFiber(fs, w, es, a, i, j);
  }

  lemma StepAgreesOnNew(fs: seq<Fiber>, w: nat, es: seq<Element>, i: nat, t: nat)
    requires Ordered(fs) && w < |fs| && t < Min(i + 1, |es|)
    ensures var a := Reconciled(fs, w, es, i);
      |fs| + t < |Body(fs, w, es, a, i)|
      && Reconciled(fs, w, es, i + 1)[|fs| + t] == Body(fs, w, es, a, i)[|fs| + t]
  {
    var a := Reconciled(fs, w, es, i);
    var olds := OldChain(fs, w);
    BodyOnNewFiber(fs, w, es, a, i, t);
    ReconciledNewAt(fs, w, es, i + 1, t);
    var x1, b := Reconciled(fs, w, es, i + 1)[|fs| + t], Body(fs, w, es, a, i)[|fs| + t];
    if t < i {
      ReconciledNewAt(fs, w, es, i, t);
      NewFiberStep(fs, w, olds, es, i, t, x1, a[|fs| + t], b);
    } else {
      NewFiberStep(fs, w, olds, es, i, t, x1, x1, b);
    }
  }

  /** The arena after the first i iterations, as the loop builds it: i applications of the
      loop body. */
  function Arena(fs: seq<Fiber>, w: nat, es: seq<Element>, i: nat): (r: seq<Fiber>)
    requires Ordered(fs) && w < |fs|
    ensures |r| == |fs| + Min(i, |es|)
  {
    if i == 0 then fs else Body(fs, w, es, Arena(fs, w, es, i - 1), i - 1)
  }

  /** With no iteration, reconcileChildren leaves the arena as it was. */
  lemma ReconciledNone(fs: seq<Fiber>, w: nat, es: seq<Element>)
    requires Ordered(fs) && w < |fs|
    ensures Reconciled(fs, w, es, 0) == fs
  {
    var R := Reconciled(fs, w, es, 0);
    forall j | 0 <= j < |fs| ensures R[j] == fs[j] {
      ReconciledAt(fs, w, es, 0, j);
    }
  }

  /** The closed form agrees with the loop's own construction after every iteration. */
  lemma {:induction false} ArenaIsReconciled(fs: seq<Fiber>, w: nat, es: seq<Element>, i: nat)
    requires Ordered(fs) && w < |fs|
    ensures Arena(fs, w, es, i) == Reconciled(fs, w, es, i)
  {
    if i == 0 {
      ReconciledNone(fs, w, es);
    } else {
      var prev := Arena(fs, w, es, i - 1);
      assert Arena(fs, w, es, i) == Body(fs, w, es, prev, i - 1);
      ArenaIsReconciled(fs, w, es, i - 1);
      ReconcileStep(fs, w, es, i - 1);
    }
  }

  /** The fields of a fiber that existed before the call which the loop body reads, in the
      loop's own construction. */
  lemma ArenaKeepsOldFields(fs: seq<Fiber>, w: nat, es: seq<Element>, i: nat, j: nat)
    requires Ordered(fs) && w < |fs| && j < |fs|
    ensures var r := Arena(fs, w, es, i);
      r[j].tag == fs[j].tag && r[j].dom == fs[j].dom && r[j].sibling == fs[j].sibling
  {
    ArenaIsReconciled(fs, w, es, i);
    ReconciledKeepsOldFields(fs, w, es, i, j);
  }

  /** The fibers pushed onto `deletions` are the old fibers, in old-chain order, whose
      position was reached without a same-type element. */
  lemma DoomedFacts(fs: seq<Fiber>, olds: seq<nat>, es: seq<Element>, k: nat)
    requires forall i, j :: 0 <= i < j < |olds| ==> olds[i] < olds[j]
    ensures var d := Doomed(fs, olds, es, k);
      (forall t :: 0 <= t < |olds| ==> (olds[t] in d <==> t < k && !Same(fs, olds, es, t)))
      && (forall x :: x in d ==> x in olds)
      && (forall a, b :: 0 <= a < b < |d| ==> d[a] < d[b])
      && |d| <= k
  {
    DoomedMembers(fs, olds, es, k);
    DoomedIncreasing(fs, olds, es, k);
  }

  lemma {:induction false} DoomedMembers(fs: seq<Fiber>, olds: seq<nat>, es: seq<Element>, k: nat)
    requires forall i, j :: 0 <= i < j < |olds| ==> olds[i] < olds[j]
    ensures var d := Doomed(fs, olds, es, k);
      (forall t :: 0 <= t < |olds| ==> (olds[t] in d <==> t < k && !Same(fs, olds, es, t)))
      && (forall x :: x in d ==> exists t :: 0 <= t < k && t < |olds| && olds[t] == x)
      && |d| <= k
  {
    if k > 0 {
      DoomedMembers(fs, olds, es, k - 1);
    }
  }

  lemma {:induction false} DoomedIncreasing(fs: seq<Fiber>, olds: seq<nat>, es: seq<Element>, k: nat)
    requires forall i, j :: 0 <= i < j < |olds| ==> olds[i] < olds[j]
    ensures var d := Doomed(fs, olds, es, k);
      forall a, b :: 0 <= a < b < |d| ==> d[a] < d[b]
  {
    if k > 0 {
      DoomedIncreasing(fs, olds, es, k - 1);
      var d := Doomed(fs, olds, es, k - 1);
      if k - 1 < |olds| && !Same(fs, olds, es, k - 1) {
        DoomedMembers(fs, olds, es, k - 1);
        var d' := d + [olds[k - 1]];
        forall a, b | 0 <= a < b < |d'| ensures d'[a] < d'[b] {
          if b == |d| {
            assert d'[a] == d[a] && d[a] in d;
            var t :| 0 <= t < k - 1 && t < |olds| && olds[t] == d[a];
          }
        }
      }
    }
  }

  /** The fibers of the arena after i iterations, field by field. */
  lemma ReconciledAt(fs: seq<Fiber>, w: nat, es: seq<Element>, i: nat, j: nat)
    requires Ordered(fs) && w < |fs| && j < |fs| + Min(i, |es|)
    ensures |Reconciled(fs, w, es, i)| == |fs| + Min(i, |es|)
    ensures var r := Reconciled(fs, w, es, i)[j];
      if j < |fs| then
        r.tag == fs[j].tag && r.props == fs[j].props && r.dom == fs[j].dom
        && r.parent == fs[j].parent && r.sibling == fs[j].sibling && r.alternate == fs[j].alternate
        && r.child == (if j == w && i > 0 then FirstNew(fs, es) else fs[j].child)
      else
        r == NewFiber(fs, w, OldChain(fs, w), es, j - |fs|, Min(i, |es|))
  {
  }

  /** The fields of a fiber that existed before the call which the loop reads. */
  lemma ReconciledKeepsOldFields(fs: seq<Fiber>, w: nat, es: seq<Element>, i: nat, j: nat)
    requires Ordered(fs) && w < |fs| && j < |fs|
    ensures var r := Reconciled(fs, w, es, i);
      |r| == |fs| + Min(i, |es|)
      && r[j].tag == fs[j].tag && r[j].dom == fs[j].dom && r[j].sibling == fs[j].sibling
  {
    ReconciledAt(fs, w, es, i, j);
  }

  /** An old fiber's effect tag after i iterations: DELETION once it has been pushed. */
  lemma ReconciledTagAt(fs: seq<Fiber>, w: nat, es: seq<Element>, i: nat, j: nat)
    requires Ordered(fs) && w < |fs| && j < |fs|
    ensures j < |Reconciled(fs, w, es, i)|
    ensures Reconciled(fs, w, es, i)[j].effectTag ==
      if j in Doomed(fs, OldChain(fs, w), es, i) then Some(Deletion) else fs[j].effectTag
  {
  }

  /** The arena stays well formed at every iteration: links keep pointing forward (child,
      sibling) or backward (parent, alternate), and every child and sibling link agrees with
      the parent links. */
  lemma ReconciledShape(fs: seq<Fiber>, w: nat, es: seq<Element>, i: nat)
    requires Ordered(fs) && Consistent(fs) && w < |fs|
    ensures Ordered(Reconciled(fs, w, es, i)) && Consistent(Reconciled(fs, w, es, i))
  {
    var r := Reconciled(fs, w, es, i);
    ReconciledAt(fs, w, es, i, 0);
    forall j | 0 <= j < |r| ensures OrderedAt(r, j) {
      ReconciledOrderedAt(fs, w, es, i, j);
    }
    assert Ordered(r);
    forall j | 0 <= j < |r| ensures LinkedAt(r, j) {
      ReconciledLinkedAt(fs, w, es, i, j);
    }
  }

  lemma ReconciledOrderedAt(fs: seq<Fiber>, w: nat, es: seq<Element>, i: nat, j: nat)
    requires Ordered(fs) && w < |fs| && j < |fs| + Min(i, |es|)
    ensures j < |Reconciled(fs, w, es, i)| && OrderedAt(Reconciled(fs, w, es, i), j)
  {
    ReconciledAt(fs, w, es, i, j);
    if j < |fs| {
      assert OrderedAt(fs, j);
    }
  }

  lemma ReconciledLinkedAt(fs: seq<Fiber>, w: nat, es: seq<Element>, i: nat, j: nat)
    requires Ordered(fs) && Consistent(fs) && w < |fs| && j < |fs| + Min(i, |es|)
    requires Ordered(Reconciled(fs, w, es, i))
    ensures j < |Reconciled(fs, w, es, i)| && LinkedAt(Reconciled(fs, w, es, i), j)
  {
    var r := Reconciled(fs, w, es, i);
    var base := |fs|;
    ReconciledAt(fs, w, es, i, j);
    assert OrderedAt(r, j);
    if j < base {
      assert OrderedAt(fs, j) && LinkedAt(fs, j);
      if r[j].child.Some? {
        ReconciledAt(fs, w, es, i, r[j].child.value);
      }
      if r[j].sibling.Some? {
        ReconciledAt(fs, w, es, i, r[j].sibling.value);
      }
    } else if r[j].sibling.Some? {
      assert r[j].sibling == Some(j + 1);
      ReconciledAt(fs, w, es, i, j + 1);
    }
  }

  /** Fibers base, ..., base + count - 1 whose siblings link each to the next form the chain
      of those ids, in order. */
  lemma {:induction false} RunChain(r: seq<Fiber>, base: nat, count: nat, t: nat)
    requires Ordered(r) && t < count && base + count <= |r|
    requires forall j :: base <= j < base + count ==>
      r[j].sibling == if j + 1 < base + count then Some(j + 1) else None
    ensures Chain(r, Some(base + t)) == Range(base + t, count - t)
    decreases count - t
  {
    assert Chain(r, Some(base + t)) == [base + t] + Chain(r, r[base + t].sibling);
    if t + 1 < count {
      RunChain(r, base, count, t + 1);
      assert Range(base + t, count - t) == [base + t] + Range(base + t + 1, count - t - 1);
    } else {
      assert Range(base + t, count - t) == [base + t];
    }
  }

  /** Once every element has its fiber, fiber |fs| + i carries element i's type and props,
      hangs under w, has no child yet and links to the next new fiber. */
  lemma NewFiberFinal(fs: seq<Fiber>, w: nat, es: seq<Element>, k: nat, i: nat)
    requires Ordered(fs) && w < |fs| && |es| <= k && i < |es|
    ensures var r := Reconciled(fs, w, es, k);
      |fs| + i < |r|
      && r[|fs| + i].tag == Some(es[i].tag) && r[|fs| + i].props == es[i].props
      && r[|fs| + i].parent == Some(w) && r[|fs| + i].child.None?
      && r[|fs| + i].sibling == if i + 1 < |es| then Some(|fs| + i + 1) else None
  {
    ReconciledAt(fs, w, es, k, |fs| + i);
  }

  /** Once the loop has run, wipFiber's child chain is exactly the new fibers, one per
      element, in element order (FinalNewFibers gives their fields). */
  lemma NewChildChain(fs: seq<Fiber>, w: nat, es: seq<Element>)
    requires Ordered(fs) && Consistent(fs) && w < |fs|
    requires Steps(|es|, |OldChain(fs, w)|) > 0
    ensures var r := Reconciled(fs, w, es, Steps(|es|, |OldChain(fs, w)|));
      Ordered(r) && r[w].child == FirstNew(fs, es)
      && Chain(r, r[w].child) == Range(|fs|, |es|)
      && |r| == |fs| + |es|
  {
    var k := Steps(|es|, |OldChain(fs, w)|);
    var r := Reconciled(fs, w, es, k);
    FinalNewFibers(fs, w, es, k);
    ReconciledAt(fs, w, es, k, w);
    ReconciledShape(fs, w, es, k);
    ChainOfNewRun(r, w, |fs|, |es|);
  }

  /** A parent whose child is the head of a run of n fibers at the end of the arena, each
      linked to the next, has that run as its children chain. */
  lemma ChainOfNewRun(r: seq<Fiber>, w: nat, base: nat, n: nat)
    requires Ordered(r) && w < |r| && |r| == base + n
    requires r[w].child == if n > 0 then Some(base) else None
    requires forall j :: base <= j < base + n ==>
      r[j].sibling == if j + 1 < base + n then Some(j + 1) else None
    ensures InArena(r, r[w].child) && Chain(r, r[w].child) == Range(base, n)
  {
    if n > 0 {
      RunChain(r, base, n, 0);
      assert base + 0 == base;
    } else {
      assert Range(base, n) == [];
    }
  }

  /** Once every element has its fiber, the new fibers carry the elements' types and props,
      hang under wipFiber, are childless, and each one's sibling is the next. */
  lemma FinalNewFibers(fs: seq<Fiber>, w: nat, es: seq<Element>, k: nat)
    requires Ordered(fs) && w < |fs| && |es| <= k
    ensures var r := Reconciled(fs, w, es, k);
      |r| == |fs| + |es|
      && (forall i :: 0 <= i < |es| ==>
           r[|fs| + i].tag == Some(es[i].tag) && r[|fs| + i].props == es[i].props
           && r[|fs| + i].parent == Some(w) && r[|fs| + i].child.None?)
      && forall j :: |fs| <= j < |fs| + |es| ==>
           r[j].sibling == if j + 1 < |fs| + |es| then Some(j + 1) else None
  {
    var r := Reconciled(fs, w, es, k);
    assert Min(k, |es|) == |es|;
    forall i | 0 <= i < |es|
      ensures r[|fs| + i].tag == Some(es[i].tag) && r[|fs| + i].props == es[i].props
           && r[|fs| + i].parent == Some(w) && r[|fs| + i].child.None?
    {
      NewFiberFinal(fs, w, es, k, i);
    }
    forall j | |fs| <= j < |fs| + |es|
      ensures r[j].sibling == if j + 1 < |fs| + |es| then Some(j + 1) else None
    {
      NewFiberFinal(fs, w, es, k, j - |fs|);
    }
  }


  /** In a run that completes (the old chain is at most one longer than the element list),
      each old child ends up in exactly one place: it is pushed onto `deletions` and tagged
      DELETION when its position holds no element of its type, and otherwise it is the
      alternate of the new fiber at its position and of no other new fiber. */
  lemma EveryOldFiberReusedOrDeleted(fs: seq<Fiber>, w: nat, es: seq<Element>, t: nat)
    requires Ordered(fs) && w < |fs|
    requires t < |OldChain(fs, w)| <= |es| + 1
    ensures var olds := OldChain(fs, w);
      var k := Steps(|es|, |olds|);
      var r := Reconciled(fs, w, es, k);
      |r| == |fs| + |es|
      && (olds[t] in Doomed(fs, olds, es, k) <==> !Same(fs, olds, es, t))
      && (!Same(fs, olds, es, t) ==> r[olds[t]].effectTag == Some(Deletion))
      && (forall j :: |fs| <= j < |r| ==>
            (r[j].alternate == Some(olds[t]) <==> j == |fs| + t && Same(fs, olds, es, t)))
  {
    var olds := OldChain(fs, w);
    var k := Steps(|es|, |olds|);
    var r := Reconciled(fs, w, es, k);
    assert Min(k, |es|) == |es|;
    DoomedFacts(fs, olds, es, k);
    ReconciledTagAt(fs, w, es, k, olds[t]);
    forall j | |fs| <= j < |r|
      ensures r[j].alternate == Some(olds[t]) <==> j == |fs| + t && Same(fs, olds, es, t)
    {
      ReconciledAt(fs, w, es, k, j);
    }
  }

  /** The new fiber for element i: an UPDATE that takes over the old fiber's type, dom and
      identity (as alternate) when the old fiber at position i has the element's type, and
      otherwise a PLACEMENT of the element's type with no dom and no alternate. Either way
      it carries the element's props and hangs under wipFiber. */
  lemma NewFibersClassified(fs: seq<Fiber>, w: nat, es: seq<Element>, i: nat)
    requires Ordered(fs) && w < |fs| && i < |es|
    ensures var olds := OldChain(fs, w);
      var r := Reconciled(fs, w, es, Steps(|es|, |olds|));
      |fs| + i < |r|
      && r[|fs| + i].props == es[i].props && r[|fs| + i].parent == Some(w)
      && r[|fs| + i].tag == Some(es[i].tag) && r[|fs| + i].child.None?
      && (Same(fs, olds, es, i) <==> i < |olds| && fs[olds[i]].tag == Some(es[i].tag))
      && (Same(fs, olds, es, i) ==>
            r[|fs| + i].effectTag == Some(Update) && r[|fs| + i].dom == fs[olds[i]].dom
            && r[|fs| + i].alternate == Some(olds[i]))
      && (!Same(fs, olds, es, i) ==>
            r[|fs| + i].effectTag == Some(Placement) && r[|fs| + i].dom.None?
            && r[|fs| + i].alternate.None?)
  {
    var olds := OldChain(fs, w);
    var k := Steps(|es|, |olds|);
    assert Min(k, |es|) == |es|;
    ReconciledAt(fs, w, es, k, |fs| + i);
  }

  /** When the old chain is two or more longer than the element list, the body at position
      |es| + 1 has tagged and pushed its old fiber before it finds `prevSibling` null: the
      fibers at positions |es| and |es| + 1 are both DELETION and last on `deletions`, and the
      old fibers after them are left untouched. */
  lemma ThrowAfterPush(fs: seq<Fiber>, w: nat, es: seq<Element>)
    requires Ordered(fs) && w < |fs|
    requires |OldChain(fs, w)| >= |es| + 2
    ensures var olds := OldChain(fs, w);
      var n := |es|;
      var d := Doomed(fs, olds, es, n + 2);
      var r := Reconciled(fs, w, es, n + 2);
      Steps(n, |olds|) == n + 2
      && |d| >= 2 && d[|d| - 2] == olds[n] && d[|d| - 1] == olds[n + 1]
      && r[olds[n]].effectTag == Some(Deletion) && r[olds[n + 1]].effectTag == Some(Deletion)
      && (forall t :: n + 2 <= t < |olds| ==>
            olds[t] !in d && r[olds[t]].effectTag == fs[olds[t]].effectTag)
  {
    var olds := OldChain(fs, w);
    var n := |es|;
    var d := Doomed(fs, olds, es, n + 2);
    DoomedTail(fs, olds, es);
    DoomedFacts(fs, olds, es, n + 2);
    ReconciledTagAt(fs, w, es, n + 2, olds[n]);
    ReconciledTagAt(fs, w, es, n + 2, olds[n + 1]);
    forall t | n + 2 <= t < |olds|
      ensures olds[t] !in d && Reconciled(fs, w, es, n + 2)[olds[t]].effectTag == fs[olds[t]].effectTag
    {
      ReconciledTagAt(fs, w, es, n + 2, olds[t]);
    }
  }

  lemma DoomedTail(fs: seq<Fiber>, olds: seq<nat>, es: seq<Element>)
    requires |olds| >= |es| + 2
    ensures var n := |es|;
      Doomed(fs, olds, es, n + 2) == Doomed(fs, olds, es, n) + [olds[n], olds[n + 1]]
  {
    var n := |es|;
    assert !Same(fs, olds, es, n) && !Same(fs, olds, es, n + 1);
    assert Doomed(fs, olds, es, n + 2) == Doomed(fs, olds, es, n + 1) + [olds[n + 1]];
    assert Doomed(fs, olds, es, n + 1) == Doomed(fs, olds, es, n) + [olds[n]];
  }
}
