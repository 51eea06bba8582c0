/**
 * The query layer of the HTML library, as the browser uses it.
 *
 * How the library matches text, regular expressions and CSS selectors, how it
 * normalises an element's text and how it resolves URLs and turns a filled
 * form into a request are its own business; they are parameters here, bundled
 * in `Html`. What the browser relies on is modelled exactly: a selection is
 * the list of matching elements of the document (or of one subtree) in
 * document order, without repetitions.
 */
module Jsoup {
  import opened Wrappers
  import opened Dom

  datatype Method = GET | POST

  /** A request as built by `Jsoup.connect(url)` or `FormElement.submit()`. */
  datatype Connection = Connection(httpMethod: Method, url: string, data: seq<(string, string)>)

  /** `Jsoup.connect(url)`: a GET request without form data. */
  function Connect(url: string): Connection {
    Connection(GET, url, [])
  }

  /** The library's own semantics, left abstract. */
  datatype Html = Html(
    /** `Element.text()`: the normalised text of an element and its descendants. */
    text: (Doc, nat) -> string,
    /** the value test of `getElementsByAttributeValue`: (actual value, wanted value) */
    attributeValueIs: (string, string) -> bool,
    /** the test of `getElementsContainingOwnText`: (own text, searched text) */
    ownTextContains: (string, string) -> bool,
    /** the test of `getElementsMatchingOwnText`: (own text, regular expression) */
    ownTextMatches: (string, string) -> bool,
    /** the test of `getElementsContainingText`: (full text, searched text) */
    textContains: (string, string) -> bool,
    /** CSS selector matching: (document, root of the query, element, selector) */
    selects: (Doc, Option<nat>, nat, string) -> bool,
    /** `Element.absUrl(attribute)` */
    absUrl: (Doc, nat, string) -> string,
    /** `FormElement.submit()`: the request that submits the form with its current values */
    submit: (Doc, nat) -> Connection
  )

  /** What a selection asks of an element. */
  datatype Query =
    | Tag(name: string)                           // a type selector such as "form"
    | HasId(id: string)                           // getElementById
    | AttributeValue(key: string, value: string)  // getElementsByAttributeValue
    | HasAttribute(key: string)                   // getElementsByAttribute
    | ContainingOwnText(text: string)             // getElementsContainingOwnText
    | MatchingOwnText(regex: string)              // getElementsMatchingOwnText
    | ContainingText(text: string)                // getElementsContainingText
    | Css(selector: string)                       // select

  predicate Matches(h: Html, d: Doc, scope: Option<nat>, q: Query, i: nat)
    requires i < |d.nodes|
  {
    var n := d.nodes[i];
    match q
    case Tag(t) => n.tag == t
    case HasId(s) => Attr(n, "id") == s
    case AttributeValue(k, v) => HasAttr(n, k) && h.attributeValueIs(Attr(n, k), v)
    case HasAttribute(k) => HasAttr(n, k)
    case ContainingOwnText(s) => h.ownTextContains(n.ownText, s)
    case MatchingOwnText(re) => h.ownTextMatches(n.ownText, re)
    case ContainingText(s) => h.textContains(h.text(d, i), s)
    case Css(sel) => h.selects(d, scope, i, sel)
  }

  /** `scope` is the element a query is run on; `None` is the whole document. */
  predicate InScope(d: Doc, scope: Option<nat>, i: nat)
    requires i < |d.nodes|
  {
    scope.None? || Under(d, scope.value, i)
  }

  /** Element `i` belongs to the selection. */
  predicate Selected(h: Html, d: Doc, scope: Option<nat>, q: Query, i: nat)
    requires i < |d.nodes|
  {
    InScope(d, scope, i) && Matches(h, d, scope, q, i)
  }

  /** Element `i` is the first of the selection in document order. */
  predicate FirstSelected(h: Html, d: Doc, scope: Option<nat>, q: Query, i: nat)
    requires i < |d.nodes|
  {
    Selected(h, d, scope, q, i) && forall k :: 0 <= k < i ==> !Selected(h, d, scope, q, k)
  }

  predicate Increasing(s: seq<nat>) {
    forall a, b :: 0 <= a < b < |s| ==> s[a] < s[b]
  }

  /** The selected elements among the first `n`, in document order. */
  function Collect(h: Html, d: Doc, scope: Option<nat>, q: Query, n: nat): (r: seq<nat>)
    requires n <= |d.nodes|
    ensures forall k :: 0 <= k < |r| ==> r[k] < n && Selected(h, d, scope, q, r[k])
    ensures forall i :: 0 <= i < n && Selected(h, d, scope, q, i) ==> i in r
    ensures Increasing(r)
  {
    if n == 0 then []
    else
      var prefix := Collect(h, d, scope, q, n - 1);
      if Selected(h, d, scope, q, n - 1) then prefix + [n - 1] else prefix
  }

  /** A selection: every matching element of the scope, in document order. */
  function Select(h: Html, d: Doc, scope: Option<nat>, q: Query): (r: seq<nat>)
    ensures forall k :: 0 <= k < |r| ==> r[k] < |d.nodes| && Selected(h, d, scope, q, r[k])
    ensures forall i :: 0 <= i < |d.nodes| && Selected(h, d, scope, q, i) ==> i in r
    ensures Increasing(r)
    ensures r != [] ==> FirstSelected(h, d, scope, q, r[0])
  {
    var r := Collect(h, d, scope, q, |d.nodes|);
    assert r != [] ==> FirstSelected(h, d, scope, q, r[0]) by {
      if r != [] {
        forall k | 0 <= k < r[0] ensures !Selected(h, d, scope, q, k) {
          assert k !in r by {
            forall m | 0 <= m < |r| ensures r[m] != k {
              assert m == 0 || r[0] < r[m];
            }
          }
        }
      }
    }
    r
  }

  /** An increasing sequence holds each value at most once. */
  lemma {:induction false} IncreasingOnce(s: seq<nat>, x: nat)
    requires Increasing(s)
    ensures multiset(s)[x] == if x in s then 1 else 0
    decreases |s|
  {
    if s != [] {
      assert s == [s[0]] + s[1..];
      assert Increasing(s[1..]) by {
        forall a, b | 0 <= a < b < |s[1..]| ensures s[1..][a] < s[1..][b] {
          assert s[1..][a] == s[a + 1] && s[1..][b] == s[b + 1];
        }
      }
      IncreasingOnce(s[1..], x);
      if x == s[0] {
        assert x !in s[1..] by {
          forall k | 0 <= k < |s[1..]| ensures s[1..][k] != x {
            assert s[1..][k] == s[k + 1];
          }
        }
      }
    }
  }

  /** A selection lists a selected element exactly once and nothing else. */
  lemma SelectOnce(h: Html, d: Doc, scope: Option<nat>, q: Query, i: nat)
    ensures multiset(Select(h, d, scope, q))[i] == if i < |d.nodes| && Selected(h, d, scope, q, i) then 1 else 0
  {
    IncreasingOnce(Select(h, d, scope, q), i);
  }

  /** The number of selected elements among the first `n`. */
  function CountSelected(h: Html, d: Doc, scope: Option<nat>, q: Query, n: nat): nat
    requires n <= |d.nodes|
    decreases n
  {
    if n == 0 then 0 else CountSelected(h, d, scope, q, n - 1) + (if Selected(h, d, scope, q, n - 1) then 1 else 0)
  }

  lemma {:induction false} CollectLength(h: Html, d: Doc, scope: Option<nat>, q: Query, n: nat)
    requires n <= |d.nodes|
    ensures |Collect(h, d, scope, q, n)| == CountSelected(h, d, scope, q, n)
    decreases n
  {
    if n > 0 {
      CollectLength(h, d, scope, q, n - 1);
    }
  }

  /** The size of a selection is the number of elements that match. */
  lemma SelectLength(h: Html, d: Doc, scope: Option<nat>, q: Query)
    ensures |Select(h, d, scope, q)| == CountSelected(h, d, scope, q, |d.nodes|)
  {
    CollectLength(h, d, scope, q, |d.nodes|);
  }

  /** `firstOrNull()` of a selection. */
  function First(s: seq<nat>): Option<nat> {
    if s == [] then None else Some(s[0])
  }

  /** `singleOrNull()` of a selection: its element when it has exactly one. */
  function Single(s: seq<nat>): Option<nat> {
    if |s| == 1 then Some(s[0]) else None
  }

}
