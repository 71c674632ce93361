/** The property diff `updateDom(dom, prevProps, nextProps)` and its key predicates
    (src/index.js, isEvent / isProperty / isNew / isGone / updateDom), with the diverging copy
    of src/own/simple-react.js. The host document is abstract: updateDom's effect is the list
    of calls it makes on the node, in order. */
module DomDiff {
  import opened Elements

  /** One call the engine makes on the host document; nodes are host node ids. */
  datatype Mutation =
    | CreateTextNode(node: nat)
    | CreateHostNode(node: nat, tag: string)
    | RemoveListener(node: nat, event: string, handler: Value)
    | ClearProp(node: nat, name: string)
    | SetProp(node: nat, name: string, value: Value)
    | AddListener(node: nat, event: string, handler: Value)
    | AddEvent(node: nat, event: string, handler: Value)   // simple-react's `dom.addEvent(...)`
    | AppendChild(parent: nat, child: nat)
    | RemoveChild(parent: nat, child: nat)

  /** `key.startsWith('on')` */
  predicate IsEvent(key: string)
  {
    |key| >= 2 && key[..2] == "on"
  }

  predicate IsProperty(key: string)
  {
    key != ChildrenKey && !IsEvent(key)
  }

  /** `prev[key] !== next[key]` */
  predicate IsNew(prev: Props, next: Props, key: string)
  {
    Get(prev, key) != Get(next, key)
  }

  /** `!(key in next)` */
  predicate IsGone(next: Props, key: string)
  {
    !Has(next, key)
  }

  function LowerChar(c: char): char
  {
    if 'A' <= c <= 'Z' then (c as int + 32) as char else c
  }

  function UpperChar(c: char): char
  {
    if 'a' <= c <= 'z' then (c as int - 32) as char else c
  }

  /** `key.substring(2)` */
  function DropPrefix(key: string): string
  {
    if |key| >= 2 then key[2..] else ""
  }

  /** `name.substring(2).toLowerCase()`, for ASCII letters. */
  function EventType(name: string): (r: string)
    ensures |r| == |DropPrefix(name)|
    ensures forall i :: 0 <= i < |r| ==> !('A' <= r[i] <= 'Z')
    ensures forall i :: 0 <= i < |r| ==> LowerChar(r[i]) == LowerChar(DropPrefix(name)[i])
  {
    var s := DropPrefix(name);
    seq(|s|, i requires 0 <= i < |s| => LowerChar(s[i]))
  }

  /** simple-react's `name.substring(2).toUpperCase()`, for ASCII letters. */
  function OwnEventType(name: string): (r: string)
    ensures |r| == |DropPrefix(name)|
    ensures forall i :: 0 <= i < |r| ==> !('a' <= r[i] <= 'z')
    ensures forall i :: 0 <= i < |r| ==> UpperChar(r[i]) == UpperChar(DropPrefix(name)[i])
  {
    var s := DropPrefix(name);
    seq(|s|, i requires 0 <= i < |s| => UpperChar(s[i]))
  }

  /** `keys.filter(...).forEach(...)`: the calls made for each key, in key order. */
  function FilterMap(keys: seq<string>, f: string -> seq<Mutation>): seq<Mutation>
  {
    if keys == [] then [] else FilterMap(keys[..|keys| - 1], f) + f(keys[|keys| - 1])
  }

  // The four phases of src/index.js updateDom, one key at a time.

  function StaleListener(node: nat, prev: Props, next: Props, key: string): seq<Mutation>
  {
    if IsEvent(key) && (!Has(next, key) || IsNew(prev, next, key))
    then [RemoveListener(node, EventType(key), Get(prev, key))] else []
  }

  function GoneProperty(node: nat, prev: Props, next: Props, key: string): seq<Mutation>
  {
    if IsProperty(key) && IsGone(next, key) then [ClearProp(node, key)] else []
  }

  function ChangedProperty(node: nat, prev: Props, next: Props, key: string): seq<Mutation>
  {
    if IsProperty(key) && IsNew(prev, next, key) then [SetProp(node, key, Get(next, key))] else []
  }

  function NewListener(node: nat, prev: Props, next: Props, key: string): seq<Mutation>
  {
    if IsEvent(key) && IsNew(prev, next, key)
    then [AddListener(node, EventType(key), Get(next, key))] else []
  }

  // The two phases that simple-react writes differently. Its remove filter passes the
  // function `isNew(prevProps, nextProps)` itself, which is truthy, so every event key passes.

  function OwnStaleListener(node: nat, prev: Props, next: Props, key: string): seq<Mutation>
  {
    if IsEvent(key) then [RemoveListener(node, OwnEventType(key), Get(prev, key))] else []
  }

  function OwnNewListener(node: nat, prev: Props, next: Props, key: string): seq<Mutation>
  {
    if IsEvent(key) && IsNew(prev, next, key)
    then [AddEvent(node, OwnEventType(key), Get(next, key))] else []
  }

  /** The calls made by src/index.js updateDom(node, prev, next). */
  function Delta(node: nat, prev: Props, next: Props): seq<Mutation>
  {
    FilterMap(Keys(prev), k => StaleListener(node, prev, next, k))
    + FilterMap(Keys(prev), k => GoneProperty(node, prev, next, k))
    + FilterMap(Keys(next), k => ChangedProperty(node, prev, next, k))
    + FilterMap(Keys(next), k => NewListener(node, prev, next, k))
  }

  /** The calls made by src/own/simple-react.js updateDom(node, prev, next). */
  function OwnDelta(node: nat, prev: Props, next: Props): seq<Mutation>
  {
    FilterMap(Keys(prev), k => OwnStaleListener(node, prev, next, k))
    + FilterMap(Keys(next), k => OwnNewListener(node, prev, next, k))
    + FilterMap(Keys(prev), k => GoneProperty(node, prev, next, k))
    + FilterMap(Keys(next), k => ChangedProperty(node, prev, next, k))
  }

  /** Position of a call in the phase order of src/index.js updateDom. */
  function Phase(m: Mutation): nat
  {
    match m
    case RemoveListener(_, _, _) => 0
    case ClearProp(_, _) => 1
    case SetProp(_, _, _) => 2
    case AddListener(_, _, _) => 3
    case _ => 4
  }

  /** Position of a call in the phase order of simple-react's updateDom. */
  function OwnPhase(m: Mutation): nat
  {
    match m
    case RemoveListener(_, _, _) => 0
    case AddEvent(_, _, _) => 1
    case ClearProp(_, _) => 2
    case SetProp(_, _, _) => 3
    case _ => 4
  }

  lemma {:induction false} FilterMapMember(keys: seq<string>, f: string -> seq<Mutation>, m: Mutation)
    ensures m in FilterMap(keys, f) <==> exists k :: k in keys && m in f(k)
    decreases |keys|
  {
    if keys != [] {
      var init, last := keys[..|keys| - 1], keys[|keys| - 1];
      FilterMapMember(init, f, m);
      assert keys == init + [last];
      if m in FilterMap(keys, f) {
        if m in FilterMap(init, f) {
          var k :| k in init && m in f(k);
          assert k in keys;
        } else {
          assert last in keys && m in f(last);
        }
      }
      if exists k :: k in keys && m in f(k) {
        var k :| k in keys && m in f(k);
        if k != last {
          assert k in init;
        }
      }
    }
  }

  lemma {:induction false} FilterMapEmpty(keys: seq<string>, f: string -> seq<Mutation>)
    requires forall k :: k in keys ==> f(k) == []
    ensures FilterMap(keys, f) == []
    decreases |keys|
  {
    if keys != [] {
      FilterMapEmpty(keys[..|keys| - 1], f);
    }
  }

  lemma KeysHas(p: Props)
    ensures forall k :: k in Keys(p) ==> Has(p, k)
  {
  }

  /** Equal props give no calls at all: `updateDom(dom, p, p)` is a no-op. */
  lemma DeltaOfEqualPropsIsEmpty(node: nat, p: Props)
    ensures Delta(node, p, p) == []
  {
    FilterMapEmpty(Keys(p), k => StaleListener(node, p, p, k));
    FilterMapEmpty(Keys(p), k => GoneProperty(node, p, p, k));
    FilterMapEmpty(Keys(p), k => ChangedProperty(node, p, p, k));
    FilterMapEmpty(Keys(p), k => NewListener(node, p, p, k));
  }

  /** Membership in Delta, reduced to membership in the four phases. */
  lemma DeltaMember(node: nat, prev: Props, next: Props, m: Mutation)
    ensures m in Delta(node, prev, next) <==>
      (exists k :: k in Keys(prev) && m in StaleListener(node, prev, next, k))
      || (exists k :: k in Keys(prev) && m in GoneProperty(node, prev, next, k))
      || (exists k :: k in Keys(next) && m in ChangedProperty(node, prev, next, k))
      || (exists k :: k in Keys(next) && m in NewListener(node, prev, next, k))
  {
    FilterMapMember(Keys(prev), k => StaleListener(node, prev, next, k), m);
    FilterMapMember(Keys(prev), k => GoneProperty(node, prev, next, k), m);
    FilterMapMember(Keys(next), k => ChangedProperty(node, prev, next, k), m);
    FilterMapMember(Keys(next), k => NewListener(node, prev, next, k), m);
  }

  /** updateDom removes exactly the handlers of `prev` whose key is gone from `next` or whose
      value changed, under the lower-cased event name. */
  lemma DeltaRemovesStaleListeners(node: nat, prev: Props, next: Props, n: nat, event: string, h: Value)
    ensures RemoveListener(n, event, h) in Delta(node, prev, next) <==>
      n == node && exists k :: k in Keys(prev) && IsEvent(k) && (!Has(next, k) || IsNew(prev, next, k))
                               && event == EventType(k) && h == Get(prev, k)
  {
    var m := RemoveListener(n, event, h);
    DeltaMember(node, prev, next, m);
    forall k ensures m !in NewListener(node, prev, next, k) && m !in GoneProperty(node, prev, next, k)
      && m !in ChangedProperty(node, prev, next, k)
      && (m in StaleListener(node, prev, next, k) <==>
          n == node && IsEvent(k) && (!Has(next, k) || IsNew(prev, next, k)) && event == EventType(k) && h == Get(prev, k))
    {
    }
  }

  /** updateDom clears exactly the plain props of `prev` that `next` lacks. */
  lemma DeltaClearsGoneProperties(node: nat, prev: Props, next: Props, n: nat, name: string)
    ensures ClearProp(n, name) in Delta(node, prev, next) <==>
      n == node && Has(prev, name) && IsProperty(name) && !Has(next, name)
  {
    DeltaMember(node, prev, next, ClearProp(n, name));
  }

  /** updateDom sets exactly the plain props of `next` whose value differs from `prev`'s. */
  lemma DeltaSetsChangedProperties(node: nat, prev: Props, next: Props, n: nat, name: string, v: Value)
    ensures SetProp(n, name, v) in Delta(node, prev, next) <==>
      n == node && Has(next, name) && IsProperty(name) && IsNew(prev, next, name) && v == Get(next, name)
  {
    var m := SetProp(n, name, v);
    DeltaMember(node, prev, next, m);
    if n == node && Has(next, name) && IsProperty(name) && IsNew(prev, next, name) && v == Get(next, name) {
      assert m in ChangedProperty(node, prev, next, name);
    }
    forall k | m in ChangedProperty(node, prev, next, k)
      ensures k == name && n == node && IsProperty(name) && IsNew(prev, next, name) && v == Get(next, name)
    {
    }
  }

  /** updateDom adds exactly the handlers of `next` whose value differs from `prev`'s. */
  lemma DeltaAddsNewListeners(node: nat, prev: Props, next: Props, n: nat, event: string, h: Value)
    ensures AddListener(n, event, h) in Delta(node, prev, next) <==>
      n == node && exists k :: k in Keys(next) && IsEvent(k) && IsNew(prev, next, k)
                               && event == EventType(k) && h == Get(next, k)
  {
    DeltaMember(node, prev, next, AddListener(n, event, h));
  }

  /** Nothing else is called: no node creation, no tree edits, no simple-react `addEvent`,
      and the `children` key is never written. */
  lemma DeltaOnlyTouchesProps(node: nat, prev: Props, next: Props, m: Mutation)
    requires m in Delta(node, prev, next)
    ensures Phase(m) < 4 && m.node == node
    ensures m.ClearProp? || m.SetProp? ==> m.name != ChildrenKey
  {
    DeltaMember(node, prev, next, m);
  }

  lemma BlocksSorted(a: seq<Mutation>, b: seq<Mutation>, c: seq<Mutation>, d: seq<Mutation>, rank: Mutation -> nat)
    requires forall m :: m in a ==> rank(m) == 0
    requires forall m :: m in b ==> rank(m) == 1
    requires forall m :: m in c ==> rank(m) == 2
    requires forall m :: m in d ==> rank(m) == 3
    ensures forall i, j :: 0 <= i < j < |a + b + c + d| ==> rank((a + b + c + d)[i]) <= rank((a + b + c + d)[j])
  {
    var s := a + b + c + d;
    forall i | 0 <= i < |s|
      ensures rank(s[i]) == if i < |a| then 0 else if i < |a| + |b| then 1 else if i < |a| + |b| + |c| then 2 else 3
    {
      if i < |a| { assert s[i] == a[i]; }
      else if i < |a| + |b| { assert s[i] == b[i - |a|]; }
      else if i < |a| + |b| + |c| { assert s[i] == c[i - |a| - |b|]; }
      else { assert s[i] == d[i - |a| - |b| - |c|]; }
    }
  }

  /** src/index.js updateDom calls in four phases: every listener removal comes before every
      cleared prop, which comes before every set prop, which comes before every listener added. */
  lemma DeltaPhaseOrder(node: nat, prev: Props, next: Props)
    ensures var d := Delta(node, prev, next);
      forall i, j :: 0 <= i < j < |d| ==> Phase(d[i]) <= Phase(d[j])
  {
    var a := FilterMap(Keys(prev), k => StaleListener(node, prev, next, k));
    var b := FilterMap(Keys(prev), k => GoneProperty(node, prev, next, k));
    var c := FilterMap(Keys(next), k => ChangedProperty(node, prev, next, k));
    var d := FilterMap(Keys(next), k => NewListener(node, prev, next, k));
    forall m | m in a ensures Phase(m) == 0 { FilterMapMember(Keys(prev), k => StaleListener(node, prev, next, k), m); }
    forall m | m in b ensures Phase(m) == 1 { FilterMapMember(Keys(prev), k => GoneProperty(node, prev, next, k), m); }
    forall m | m in c ensures Phase(m) == 2 { FilterMapMember(Keys(next), k => ChangedProperty(node, prev, next, k), m); }
    forall m | m in d ensures Phase(m) == 3 { FilterMapMember(Keys(next), k => NewListener(node, prev, next, k), m); }
    BlocksSorted(a, b, c, d, Phase);
  }

  /** simple-react's updateDom calls in its own phase order: listener removals, then
      `addEvent` calls, then cleared props, then set props. */
  lemma OwnDeltaPhaseOrder(node: nat, prev: Props, next: Props)
    ensures var d := OwnDelta(node, prev, next);
      forall i, j :: 0 <= i < j < |d| ==> OwnPhase(d[i]) <= OwnPhase(d[j])
  {
    var a := FilterMap(Keys(prev), k => OwnStaleListener(node, prev, next, k));
    var b := FilterMap(Keys(next), k => OwnNewListener(node, prev, next, k));
    var c := FilterMap(Keys(prev), k => GoneProperty(node, prev, next, k));
    var d := FilterMap(Keys(next), k => ChangedProperty(node, prev, next, k));
    forall m | m in a ensures OwnPhase(m) == 0 { FilterMapMember(Keys(prev), k => OwnStaleListener(node, prev, next, k), m); }
    forall m | m in b ensures OwnPhase(m) == 1 { FilterMapMember(Keys(next), k => OwnNewListener(node, prev, next, k), m); }
    forall m | m in c ensures OwnPhase(m) == 2 { FilterMapMember(Keys(prev), k => GoneProperty(node, prev, next, k), m); }
    forall m | m in d ensures OwnPhase(m) == 3 { FilterMapMember(Keys(next), k => ChangedProperty(node, prev, next, k), m); }
    BlocksSorted(a, b, c, d, OwnPhase);
  }

  lemma {:induction false} FilterMapCongruent(keys: seq<string>, f: string -> seq<Mutation>, g: string -> seq<Mutation>)
    requires forall k :: k in keys ==> f(k) == g(k)
    ensures FilterMap(keys, f) == FilterMap(keys, g)
    decreases |keys|
  {
    if keys != [] {
      FilterMapCongruent(keys[..|keys| - 1], f, g);
    }
  }

  /** createDom's `updateDom(dom, {}, props)`: one SetProp per plain prop, in key order, then
      one AddListener per event prop, in key order; a prop whose value is `undefined` is
      skipped (it is not new against the empty object), and nothing is removed or cleared. */
  lemma CreationDelta(node: nat, p: Props)
    ensures Delta(node, [], p) ==
      FilterMap(Keys(p), k => if IsProperty(k) && Get(p, k) != Undefined then [SetProp(node, k, Get(p, k))] else [])
      + FilterMap(Keys(p), k => if IsEvent(k) && Get(p, k) != Undefined then [AddListener(node, EventType(k), Get(p, k))] else [])
  {
    assert Keys([]) == [];
    FilterMapCongruent(Keys(p), k => ChangedProperty(node, [], p, k),
      k => if IsProperty(k) && Get(p, k) != Undefined then [SetProp(node, k, Get(p, k))] else []);
    FilterMapCongruent(Keys(p), k => NewListener(node, [], p, k),
      k => if IsEvent(k) && Get(p, k) != Undefined then [AddListener(node, EventType(k), Get(p, k))] else []);
  }

  /** simple-react's updateDom with equal props still removes every event handler and adds none
      back (its remove filter lets every event key through); the reference copy makes no call
      at all (DeltaOfEqualPropsIsEmpty). */
  lemma OwnDeltaOfEqualPropsDropsHandlers(node: nat, p: Props)
    ensures OwnDelta(node, p, p) == FilterMap(Keys(p), k => OwnStaleListener(node, p, p, k))
    ensures forall k :: k in Keys(p) && IsEvent(k) ==>
      RemoveListener(node, OwnEventType(k), Get(p, k)) in OwnDelta(node, p, p)
    ensures forall m :: m in OwnDelta(node, p, p) ==> m.RemoveListener?
  {
    FilterMapEmpty(Keys(p), k => OwnNewListener(node, p, p, k));
    FilterMapEmpty(Keys(p), k => GoneProperty(node, p, p, k));
    FilterMapEmpty(Keys(p), k => ChangedProperty(node, p, p, k));
    forall k | k in Keys(p) && IsEvent(k)
      ensures RemoveListener(node, OwnEventType(k), Get(p, k)) in OwnDelta(node, p, p)
    {
      FilterMapMember(Keys(p), k => OwnStaleListener(node, p, p, k), RemoveListener(node, OwnEventType(k), Get(p, k)));
    }
    forall m | m in OwnDelta(node, p, p) ensures m.RemoveListener? {
      FilterMapMember(Keys(p), k => OwnStaleListener(node, p, p, k), m);
    }
  }

  /** Membership in OwnDelta, reduced to membership in its four phases. */
  lemma OwnDeltaMember(node: nat, prev: Props, next: Props, m: Mutation)
    ensures m in OwnDelta(node, prev, next) <==>
      (exists k :: k in Keys(prev) && m in OwnStaleListener(node, prev, next, k))
      || (exists k :: k in Keys(next) && m in OwnNewListener(node, prev, next, k))
      || (exists k :: k in Keys(prev) && m in GoneProperty(node, prev, next, k))
      || (exists k :: k in Keys(next) && m in ChangedProperty(node, prev, next, k))
  {
    FilterMapMember(Keys(prev), k => OwnStaleListener(node, prev, next, k), m);
    FilterMapMember(Keys(next), k => OwnNewListener(node, prev, next, k), m);
    FilterMapMember(Keys(prev), k => GoneProperty(node, prev, next, k), m);
    FilterMapMember(Keys(next), k => ChangedProperty(node, prev, next, k), m);
  }

  /** simple-react removes the handler of every event key of `prev`, changed or not, under the
      upper-cased event name. */
  lemma OwnDeltaRemovesEveryListener(node: nat, prev: Props, next: Props, n: nat, event: string, h: Value)
    ensures RemoveListener(n, event, h) in OwnDelta(node, prev, next) <==>
      n == node && exists k :: k in Keys(prev) && IsEvent(k) && event == OwnEventType(k) && h == Get(prev, k)
  {
    var m := RemoveListener(n, event, h);
    OwnDeltaMember(node, prev, next, m);
    forall k ensures m !in OwnNewListener(node, prev, next, k) && m !in GoneProperty(node, prev, next, k)
      && m !in ChangedProperty(node, prev, next, k)
      && (m in OwnStaleListener(node, prev, next, k) <==>
          n == node && IsEvent(k) && event == OwnEventType(k) && h == Get(prev, k))
    {
    }
  }

  /** simple-react calls `addEvent` only for event keys of `next` whose value changed, so an
      unchanged handler that it removed is not put back. */
  lemma OwnDeltaAddsOnlyChangedListeners(node: nat, prev: Props, next: Props, n: nat, event: string, h: Value)
    ensures AddEvent(n, event, h) in OwnDelta(node, prev, next) <==>
      n == node && exists k :: k in Keys(next) && IsEvent(k) && IsNew(prev, next, k)
                               && event == OwnEventType(k) && h == Get(next, k)
    ensures AddListener(n, event, h) !in OwnDelta(node, prev, next)
  {
    OwnAddEvents(node, prev, next, n, event, h);
    OwnAddsNoListener(node, prev, next, n, event, h);
  }

  lemma OwnAddEvents(node: nat, prev: Props, next: Props, n: nat, event: string, h: Value)
    ensures AddEvent(n, event, h) in OwnDelta(node, prev, next) <==>
      n == node && exists k :: k in Keys(next) && IsEvent(k) && IsNew(prev, next, k)
                               && event == OwnEventType(k) && h == Get(next, k)
  {
    var m := AddEvent(n, event, h);
    OwnDeltaMember(node, prev, next, m);
    forall k ensures m !in OwnStaleListener(node, prev, next, k) && m !in GoneProperty(node, prev, next, k)
      && m !in ChangedProperty(node, prev, next, k)
      && (m in OwnNewListener(node, prev, next, k) <==>
          n == node && IsEvent(k) && IsNew(prev, next, k) && event == OwnEventType(k) && h == Get(next, k))
    {
    }
  }

  lemma OwnAddsNoListener(node: nat, prev: Props, next: Props, n: nat, event: string, h: Value)
    ensures AddListener(n, event, h) !in OwnDelta(node, prev, next)
  {
    var m := AddListener(n, event, h);
    OwnDeltaMember(node, prev, next, m);
    forall k ensures m !in OwnStaleListener(node, prev, next, k) && m !in GoneProperty(node, prev, next, k)
      && m !in ChangedProperty(node, prev, next, k) && m !in OwnNewListener(node, prev, next, k)
    {
    }
  }
}
