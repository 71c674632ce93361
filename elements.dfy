/** Element construction: the `{type, props: {..., children}}` description nodes that the
    reconciler consumes (src/index.js, createElement and createTextElement), and the
    divergent copy of createElement in src/own/simple-react.js. */
module Elements {
  import opened Wrappers

  /** A prop value. JavaScript values are reduced to what the engine tells apart:
      primitives, handler functions (compared by identity, hence an id), and the two
      arrays that element construction builds. */
  datatype Value =
    | Str(s: string)
    | Num(n: int)
    | Bool(b: bool)
    | Undefined
    | Handler(id: nat)
    | Kids(elements: seq<Element>)
    | Args(args: seq<Child>)

  /** A child argument of createElement: an object (an element), or a value whose
      `typeof` is not 'object' (a string, a number, a boolean, a function). */
  datatype Child = Obj(element: Element) | Prim(value: Value)

  /** A description node. `props` keeps the key order of the JavaScript object. */
  datatype Element = Element(tag: string, props: Props)

  /** A props object as its own keys in `Object.keys` order, each with its value. */
  type Props = seq<(string, Value)>

  const TextElementType := "TEXT_ELEMENT"
  const ChildrenKey := "children"
  const NodeValueKey := "nodeValue"

  function Keys(p: Props): seq<string>
  {
    seq(|p|, i requires 0 <= i < |p| => p[i].0)
  }

  /** `key in p` */
  predicate Has(p: Props, key: string)
  {
    key in Keys(p)
  }

  /** `p[key]`: the value of the first entry with that key, `undefined` when there is none. */
  function Get(p: Props, key: string): Value
  {
    if p == [] then Undefined
    else if p[0].0 == key then p[0].1
    else Get(p[1..], key)
  }

  predicate DistinctKeys(p: Props)
  {
    forall i, j :: 0 <= i < j < |p| ==> p[i].0 != p[j].0
  }

  /** Assignment `p[key] = v` on an object: an existing key keeps its position, a new key
      goes last. This is what `{...props, children: c}` does with `children`. */
  function Put(p: Props, key: string, v: Value): (r: Props)
    ensures Get(r, key) == v
    ensures forall k :: k != key ==> Get(r, k) == Get(p, k)
    ensures Keys(r) == if Has(p, key) then Keys(p) else Keys(p) + [key]
    ensures DistinctKeys(p) ==> DistinctKeys(r)
  {
    if p == [] then [(key, v)]
    else if p[0].0 == key then
      PutAtHead(p, key, v);
      [(key, v)] + p[1..]
    else
      var rest := Put(p[1..], key, v);
      PutBehindHead(p, key, v, rest);
      [p[0]] + rest
  }

  /** Put when the first entry has the key: its value is replaced in place. */
  lemma PutAtHead(p: Props, key: string, v: Value)
    requires p != [] && p[0].0 == key
    ensures var r := [(key, v)] + p[1..];
      Get(r, key) == v
      && (forall k :: k != key ==> Get(r, k) == Get(p, k))
      && Keys(r) == Keys(p) && Has(p, key)
      && (DistinctKeys(p) ==> DistinctKeys(r))
  {
    var r := [(key, v)] + p[1..];
    assert Keys(p)[0] == key;
    assert Keys(r) == Keys(p);
    assert r[1..] == p[1..];
    if DistinctKeys(p) {
      forall i, j | 0 <= i < j < |r| ensures r[i].0 != r[j].0 {
        assert r[i].0 == p[i].0 && r[j].0 == p[j].0;
      }
    }
  }

  /** Put when the first entry has another key: the rest of the object is updated. */
  lemma PutBehindHead(p: Props, key: string, v: Value, rest: Props)
    requires p != [] && p[0].0 != key
    requires Get(rest, key) == v
    requires forall k :: k != key ==> Get(rest, k) == Get(p[1..], k)
    requires Keys(rest) == if Has(p[1..], key) then Keys(p[1..]) else Keys(p[1..]) + [key]
    requires DistinctKeys(p[1..]) ==> DistinctKeys(rest)
    ensures var r := [p[0]] + rest;
      Get(r, key) == v
      && (forall k :: k != key ==> Get(r, k) == Get(p, k))
      && Keys(r) == (if Has(p, key) then Keys(p) else Keys(p) + [key])
      && (DistinctKeys(p) ==> DistinctKeys(r))
  {
    var r := [p[0]] + rest;
    assert r[1..] == rest;
    assert Keys(p) == [p[0].0] + Keys(p[1..]);
    assert Keys(r) == [p[0].0] + Keys(rest);
    assert Has(p, key) == Has(p[1..], key);
    if DistinctKeys(p) {
      DistinctTail(p);
      PrependDistinct(p[0], rest);
    }
  }

  lemma DistinctTail(p: Props)
    requires p != [] && DistinctKeys(p)
    ensures DistinctKeys(p[1..]) && p[0].0 !in Keys(p[1..])
  {
  }

  lemma PrependDistinct(e: (string, Value), rest: Props)
    requires DistinctKeys(rest) && e.0 !in Keys(rest)
    ensures DistinctKeys([e] + rest)
  {
    forall j | 0 <= j < |rest| ensures rest[j].0 != e.0 {
      assert rest[j].0 == Keys(rest)[j];
    }
  }

  /** The children list stored under `children`, when it is an array of elements. */
  function ChildrenOf(p: Props): Option<seq<Element>>
  {
    match Get(p, ChildrenKey)
    case Kids(es) => Some(es)
    case _ => None
  }

  /** createTextElement(text): a leaf whose `nodeValue` is `text` and whose children are empty. */
  function CreateTextElement(text: Value): (r: Element)
    ensures r.tag == TextElementType
    ensures Get(r.props, NodeValueKey) == text
    ensures ChildrenOf(r.props) == Some([])
    ensures DistinctKeys(r.props)
  {
    var props := [(NodeValueKey, text), (ChildrenKey, Kids([]))];
    assert Get(props, ChildrenKey) == Get(props[1..], ChildrenKey) == Kids([]);
    Element(TextElementType, props)
  }

  /** The children mapping of createElement: objects pass through, anything else becomes a
      text leaf holding that value. */
  function Normalize(children: seq<Child>): seq<Element>
  {
    seq(|children|, i requires 0 <= i < |children| =>
      match children[i]
      case Obj(e) => e
      case Prim(v) => CreateTextElement(v))
  }

  /** createElement(type, props, ...children) */
  function CreateElement(tag: string, props: Props, children: seq<Child>): (r: Element)
    ensures r.tag == tag
    ensures ChildrenOf(r.props).Some? && |ChildrenOf(r.props).value| == |children|
    ensures forall i :: 0 <= i < |children| && children[i].Obj? ==>
      ChildrenOf(r.props).value[i] == children[i].element
    ensures forall i :: 0 <= i < |children| && children[i].Prim? ==>
      ChildrenOf(r.props).value[i] == CreateTextElement(children[i].value)
    ensures forall k :: k != ChildrenKey ==> Get(r.props, k) == Get(props, k)
    ensures Keys(r.props) == if Has(props, ChildrenKey) then Keys(props) else Keys(props) + [ChildrenKey]
    ensures DistinctKeys(props) ==> DistinctKeys(r.props)
  {
    Element(tag, Put(props, ChildrenKey, Kids(Normalize(children))))
  }

  /** The createElement of src/own/simple-react.js: it passes the whole argument list, not the
      child, to createTextElement, so every text leaf's `nodeValue` is that list. */
  function OwnCreateElement(tag: string, props: Props, children: seq<Child>): (r: Element)
    ensures r.tag == tag
    ensures ChildrenOf(r.props).Some? && |ChildrenOf(r.props).value| == |children|
    ensures forall i :: 0 <= i < |children| && children[i].Obj? ==>
      ChildrenOf(r.props).value[i] == children[i].element
    ensures forall i :: 0 <= i < |children| && children[i].Prim? ==>
      ChildrenOf(r.props).value[i] == CreateTextElement(Args(children))
    ensures forall k :: k != ChildrenKey ==> Get(r.props, k) == Get(props, k)
    ensures Keys(r.props) == if Has(props, ChildrenKey) then Keys(props) else Keys(props) + [ChildrenKey]
  {
    var kids := seq(|children|, i requires 0 <= i < |children| =>
      match children[i]
      case Obj(e) => e
      case Prim(_) => CreateTextElement(Args(children)));
    Element(tag, Put(props, ChildrenKey, Kids(kids)))
  }

  /** The two copies of createElement agree exactly when every child is an object: a
      single non-object child makes them differ. */
  lemma CreateElementCopiesAgreeOnlyOnObjects(tag: string, props: Props, children: seq<Child>)
    ensures OwnCreateElement(tag, props, children) == CreateElement(tag, props, children)
        <==> forall i :: 0 <= i < |children| ==> children[i].Obj?
  {
    var own, ref := OwnCreateElement(tag, props, children), CreateElement(tag, props, children);
    if forall i :: 0 <= i < |children| ==> children[i].Obj? {
      assert ChildrenOf(own.props).value == ChildrenOf(ref.props).value;
      assert Get(own.props, ChildrenKey) == Get(ref.props, ChildrenKey);
      assert own.props == ref.props;
    } else {
      var i :| 0 <= i < |children| && children[i].Prim?;
      var v := children[i].value;
      assert v < children[i];
      assert Get(ChildrenOf(own.props).value[i].props, NodeValueKey) == Args(children);
      assert Get(ChildrenOf(ref.props).value[i].props, NodeValueKey) == v;
      assert v != Args(children);
    }
  }
}
