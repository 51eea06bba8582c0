/**
 * The document tree the browser works on: the part of jsoup's `Document`
 * that the browser reads and changes.
 *
 * A document is the sequence of its elements in document order (pre-order,
 * as jsoup's selections return them). An element names its parent by
 * position; a parent always comes before its children, which makes every
 * walk towards the root terminate. An element without a parent hangs
 * directly below the parser's root node, which is not itself an element here.
 */
module Dom {
  import opened Wrappers

  datatype Node = Node(tag: string, attributes: map<string, string>, ownText: string, parent: Option<nat>)

  datatype RawDoc = RawDoc(location: string, nodes: seq<Node>)

  predicate ParentBefore(n: Node, i: nat) {
    n.parent.Some? ==> n.parent.value < i
  }

  predicate ParentsPrecede(d: RawDoc) {
    forall i :: 0 <= i < |d.nodes| ==> ParentBefore(d.nodes[i], i)
  }

  /** A well-formed document: every parent precedes its children. */
  type Doc = d: RawDoc | ParentsPrecede(d) witness RawDoc("", [])

  /** `Element.attr(key)`: the value, or "" when the attribute is absent. */
  function Attr(n: Node, key: string): string {
    if key in n.attributes then n.attributes[key] else ""
  }

  /** `Element.hasAttr(key)`. */
  predicate HasAttr(n: Node, key: string) {
    key in n.attributes
  }

  /** Two documents with the same elements in the same tree positions; only attributes and text may differ. */
  predicate SameShape(d: Doc, e: Doc) {
    && d.location == e.location
    && |d.nodes| == |e.nodes|
    && forall k :: 0 <= k < |d.nodes| ==> d.nodes[k].tag == e.nodes[k].tag && d.nodes[k].parent == e.nodes[k].parent
  }

  /** Replace the element at `i` by one in the same tree position. */
  function Replace(d: Doc, i: nat, n: Node): (r: Doc)
    requires i < |d.nodes| && n.parent == d.nodes[i].parent
    ensures r.location == d.location && r.nodes == d.nodes[i := n]
  {
    var raw := RawDoc(d.location, d.nodes[i := n]);
    assert ParentsPrecede(raw) by {
      forall k | 0 <= k < |raw.nodes| ensures ParentBefore(raw.nodes[k], k) {
        assert ParentBefore(d.nodes[k], k);
      }
    }
    raw
  }

  /**
   * `i` lies in the subtree rooted at `f` (`f` itself included), the set of
   * elements a selection scoped to `f` inspects.
   */
  predicate Under(d: Doc, f: nat, i: nat)
    requires i < |d.nodes|
    ensures Under(d, f, i) ==> f <= i
    decreases i
  {
    assert ParentBefore(d.nodes[i], i);
    i == f || (d.nodes[i].parent.Some? && Under(d, f, d.nodes[i].parent.value))
  }

  /** Subtree membership depends on the parent links alone. */
  lemma {:induction false} UnderSameShape(d: Doc, e: Doc, f: nat, i: nat)
    requires SameShape(d, e) && i < |d.nodes|
    ensures Under(d, f, i) == Under(e, f, i)
    decreases i
  {
    assert ParentBefore(d.nodes[i], i);
    if i != f && d.nodes[i].parent.Some? {
      UnderSameShape(d, e, f, d.nodes[i].parent.value);
    }
  }

  /**
   * `element.parents().first { it.tagName() == tag }`: the nearest proper
   * ancestor of `i` with that tag, if there is one.
   */
  function NearestAncestor(d: Doc, i: nat, tag: string): (r: Option<nat>)
    requires i < |d.nodes|
    ensures r.Some? ==> r.value < i && d.nodes[r.value].tag == tag && Under(d, r.value, i)
    ensures r.Some? ==> forall a :: r.value < a < i && Under(d, a, i) ==> d.nodes[a].tag != tag
    ensures r.None? ==> forall a :: 0 <= a < i && Under(d, a, i) ==> d.nodes[a].tag != tag
    decreases i
  {
    assert ParentBefore(d.nodes[i], i);
    match d.nodes[i].parent
    case None => None
    case Some(p) => if d.nodes[p].tag == tag then Some(p) else NearestAncestor(d, p, tag)
  }

  /**
   * The checkbox and option toggle of `click(Element)`: an attribute whose
   * value equals its own name is removed, any other state (absent, or some
   * other value) becomes `key="key"`.
   */
  function Toggle(d: Doc, i: nat, key: string): (r: Doc)
    requires i < |d.nodes|
    ensures SameShape(d, r)
    ensures forall k :: 0 <= k < |d.nodes| && k != i ==> r.nodes[k] == d.nodes[k]
    ensures r.nodes[i].ownText == d.nodes[i].ownText
    ensures forall a :: a != key ==> (a in r.nodes[i].attributes <==> a in d.nodes[i].attributes)
    ensures forall a :: a != key && a in d.nodes[i].attributes ==> r.nodes[i].attributes[a] == d.nodes[i].attributes[a]
    ensures HasAttr(r.nodes[i], key) <==> Attr(d.nodes[i], key) != key
    ensures HasAttr(r.nodes[i], key) ==> Attr(r.nodes[i], key) == key
  {
    var n := d.nodes[i];
    if Attr(n, key) == key then Replace(d, i, n.(attributes := n.attributes - {key}))
    else Replace(d, i, n.(attributes := n.attributes[key := key]))
  }

  /** Toggling twice restores an attribute that was absent or set to its own name. */
  lemma ToggleTwice(d: Doc, i: nat, key: string)
    requires i < |d.nodes| && key != ""
    requires !HasAttr(d.nodes[i], key) || Attr(d.nodes[i], key) == key
    ensures Toggle(Toggle(d, i, key), i, key) == d
  {
    var n := d.nodes[i];
    var m := Toggle(d, i, key).nodes[i];
    var u := Toggle(Toggle(d, i, key), i, key);
    if HasAttr(n, key) {
      assert m.attributes == n.attributes - {key};
      assert u.nodes[i].attributes == m.attributes[key := key];
      assert u.nodes[i].attributes == n.attributes;
    } else {
      assert m.attributes == n.attributes[key := key];
      assert u.nodes[i].attributes == m.attributes - {key};
      assert u.nodes[i].attributes == n.attributes;
    }
    assert u.nodes[i] == n;
    assert u.nodes == d.nodes;
  }

  /**
   * A bare boolean attribute (`<input type=checkbox checked>`, value "") is
   * not recognised as set: the toggle writes `key="key"`, so the element stays
   * checked, and a second toggle removes the attribute instead of restoring it.
   */
  lemma ToggleOfBareAttribute(d: Doc, i: nat, key: string)
    requires i < |d.nodes| && key != ""
    requires HasAttr(d.nodes[i], key) && Attr(d.nodes[i], key) == ""
    ensures HasAttr(Toggle(d, i, key).nodes[i], key)
    ensures !HasAttr(Toggle(Toggle(d, i, key), i, key).nodes[i], key)
    ensures Toggle(Toggle(d, i, key), i, key) != d
  {
    var r := Toggle(Toggle(d, i, key), i, key);
    assert !HasAttr(r.nodes[i], key);
    assert r.nodes[i] != d.nodes[i];
  }

  /**
   * jsoup's `Element.val(value)`: a `textarea` takes the value as its text,
   * every other element as its `value` attribute.
   */
  function Val(d: Doc, i: nat, v: string): (r: Doc)
    requires i < |d.nodes|
    ensures SameShape(d, r)
    ensures forall k :: 0 <= k < |d.nodes| && k != i ==> r.nodes[k] == d.nodes[k]
    ensures d.nodes[i].tag == "textarea" ==> r.nodes[i] == d.nodes[i].(ownText := v)
    ensures d.nodes[i].tag != "textarea" ==> r.nodes[i].ownText == d.nodes[i].ownText && Attr(r.nodes[i], "value") == v
    ensures d.nodes[i].tag != "textarea" ==>
      forall a :: a != "value" ==> (a in r.nodes[i].attributes <==> a in d.nodes[i].attributes)
    ensures d.nodes[i].tag != "textarea" ==>
      forall a :: a != "value" && a in d.nodes[i].attributes ==> r.nodes[i].attributes[a] == d.nodes[i].attributes[a]
  {
    var n := d.nodes[i];
    if n.tag == "textarea" then Replace(d, i, n.(ownText := v))
    else Replace(d, i, n.(attributes := n.attributes["value" := v]))
  }

}
