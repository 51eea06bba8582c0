/**
 * Target resolution and click dispatch of the browser: `click(String, Boolean)`,
 * the private `click(Element)`, `clickLink` and `contains`
 * (JsoupBrowser.kt:56-167), as functions of the current document.
 */
module Resolution {
  import opened Wrappers
  import opened Dom
  import opened Jsoup
  import opened Http
  import opened State

  /** Some element of the scope is selected by `q`. */
  predicate AnySelected(h: Html, d: Doc, scope: Option<nat>, q: Query) {
    exists i :: 0 <= i < |d.nodes| && Selected(h, d, scope, q, i)
  }

  /** A selection is empty exactly when nothing in the scope is selected. */
  lemma SelectEmpty(h: Html, d: Doc, scope: Option<nat>, q: Query)
    ensures Select(h, d, scope, q) == [] <==> !AnySelected(h, d, scope, q)
  {
    var r := Select(h, d, scope, q);
    if r != [] {
      assert Selected(h, d, scope, q, r[0]);
    }
  }

  /**
   * The element `click(string)` acts on: the element with that id, else the
   * first with that `name`, else the first whose own text contains the
   * string, else the first matched by the string read as a CSS selector.
   */
  function ClickTarget(h: Html, d: Doc, target: string): (r: Option<nat>)
    ensures r.Some? ==> r.value < |d.nodes|
    ensures AnySelected(h, d, None, HasId(target)) ==>
      r.Some? && FirstSelected(h, d, None, HasId(target), r.value)
    ensures !AnySelected(h, d, None, HasId(target)) && AnySelected(h, d, None, AttributeValue("name", target)) ==>
      r.Some? && FirstSelected(h, d, None, AttributeValue("name", target), r.value)
    ensures (!AnySelected(h, d, None, HasId(target)) && !AnySelected(h, d, None, AttributeValue("name", target))
      && AnySelected(h, d, None, ContainingOwnText(target))) ==>
      r.Some? && FirstSelected(h, d, None, ContainingOwnText(target), r.value)
    ensures (!AnySelected(h, d, None, HasId(target)) && !AnySelected(h, d, None, AttributeValue("name", target))
      && !AnySelected(h, d, None, ContainingOwnText(target)) && AnySelected(h, d, None, Css(target))) ==>
      r.Some? && FirstSelected(h, d, None, Css(target), r.value)
    ensures r.None? <==>
      && !AnySelected(h, d, None, HasId(target))
      && !AnySelected(h, d, None, AttributeValue("name", target))
      && !AnySelected(h, d, None, ContainingOwnText(target))
      && !AnySelected(h, d, None, Css(target))
  {
    SelectEmpty(h, d, None, HasId(target));
    SelectEmpty(h, d, None, AttributeValue("name", target));
    SelectEmpty(h, d, None, ContainingOwnText(target));
    SelectEmpty(h, d, None, Css(target));
    var byId := First(Select(h, d, None, HasId(target)));
    if byId.Some? then byId
    else
      var byName := First(Select(h, d, None, AttributeValue("name", target)));
      if byName.Some? then byName
      else
        var byText := First(Select(h, d, None, ContainingOwnText(target)));
        if byText.Some? then byText
        else First(Select(h, d, None, Css(target)))
  }

  /** The text query of `clickLink`: the anchored pattern `^string$` when `exact`, containment otherwise. */
  function LinkTextQuery(target: string, exact: bool): Query {
    if exact then MatchingOwnText("^" + target + "$") else ContainingOwnText(target)
  }

  /** With `exact` an element's own text must match the whole anchored pattern; without it, it must contain the target. */
  lemma LinkTextMatches(h: Html, d: Doc, target: string, exact: bool, i: nat)
    requires i < |d.nodes|
    ensures exact ==> (Matches(h, d, None, LinkTextQuery(target, exact), i) <==> h.ownTextMatches(d.nodes[i].ownText, "^" + target + "$"))
    ensures !exact ==> (Matches(h, d, None, LinkTextQuery(target, exact), i) <==> h.ownTextContains(d.nodes[i].ownText, target))
  {
  }

  /**
   * The elements `clickLink` considers: all text matches, or, only when there
   * is none, all selector matches; in document order.
   */
  function LinkCandidates(h: Html, d: Doc, target: string, exact: bool): (r: seq<nat>)
    ensures Increasing(r)
    ensures forall k :: 0 <= k < |r| ==> r[k] < |d.nodes|
    ensures AnySelected(h, d, None, LinkTextQuery(target, exact)) ==>
      forall i :: 0 <= i < |d.nodes| ==> (i in r <==> Selected(h, d, None, LinkTextQuery(target, exact), i))
    ensures !AnySelected(h, d, None, LinkTextQuery(target, exact)) ==>
      forall i :: 0 <= i < |d.nodes| ==> (i in r <==> Selected(h, d, None, Css(target), i))
    ensures r == [] <==> !AnySelected(h, d, None, LinkTextQuery(target, exact)) && !AnySelected(h, d, None, Css(target))
  {
    var q := LinkTextQuery(target, exact);
    SelectEmpty(h, d, None, q);
    SelectEmpty(h, d, None, Css(target));
    var elements := Select(h, d, None, q);
    if |elements| == 0 then elements + Select(h, d, None, Css(target)) else elements
  }

  /** `contains(text)`: some element's text contains it, or it selects something as a CSS selector. */
  function PageContains(h: Html, d: Doc, text: string): (r: bool)
    ensures r <==> AnySelected(h, d, None, ContainingText(text)) || AnySelected(h, d, None, Css(text))
  {
    SelectEmpty(h, d, None, ContainingText(text));
    SelectEmpty(h, d, None, Css(text));
    |Select(h, d, None, ContainingText(text))| > 0 || |Select(h, d, None, Css(text))| > 0
  }

  /** What clicking an element amounts to; `at` is the element that decided it. */
  datatype Action =
    | Stop(at: nat)                     // html, head or body: the climb ends, nothing happens
    | Submit(at: nat, form: nat)        // a form is executed
    | NoForm(at: nat)                   // a submit button outside any form
    | Flip(at: nat, attribute: string)  // a checkbox or option is toggled
    | Follow(at: nat)                   // the element's href is loaded
    | NoParent(at: nat)                 // nothing clickable up to an element without parent

  predicate IsSubmitter(n: Node) {
    n.tag == "button" || (n.tag == "input" && Attr(n, "type") == "submit")
  }

  predicate IsCheckbox(n: Node) {
    n.tag == "input" && Attr(n, "type") == "checkbox"
  }

  /** An element `click(Element)` passes on to its parent. */
  predicate Plain(n: Node) {
    && n.tag !in ["html", "head", "body"]
    && !IsSubmitter(n)
    && n.tag != "form"
    && !IsCheckbox(n)
    && n.tag != "option"
    && !HasAttr(n, "href")
  }

  /** The decision table of `click(Element)` for an element that is not plain. */
  function Classify(d: Doc, i: nat): (r: Action)
    requires i < |d.nodes| && !Plain(d.nodes[i])
    ensures r.at == i && !r.NoParent?
    ensures r.Stop? <==> d.nodes[i].tag in ["html", "head", "body"]
    ensures r.NoForm? <==> d.nodes[i].tag !in ["html", "head", "body"] && IsSubmitter(d.nodes[i]) && NearestAncestor(d, i, "form").None?
    ensures r.Submit? ==> r.form < |d.nodes| && d.nodes[r.form].tag == "form" && Under(d, r.form, i)
    ensures r.Submit? ==> (r.form == i <==> !IsSubmitter(d.nodes[i]))
    ensures r.Flip? ==> (IsCheckbox(d.nodes[i]) && r.attribute == "checked") || (d.nodes[i].tag == "option" && r.attribute == "selected")
    ensures r.Follow? ==> HasAttr(d.nodes[i], "href") && !IsSubmitter(d.nodes[i]) && !IsCheckbox(d.nodes[i])
  {
    var n := d.nodes[i];
    if n.tag in ["html", "head", "body"] then Stop(i)
    else if IsSubmitter(n) then
      match NearestAncestor(d, i, "form")
      case Some(f) => Submit(i, f)
      case None => NoForm(i)
    else if n.tag == "form" then Submit(i, i)
    else if IsCheckbox(n) then Flip(i, "checked")
    else if n.tag == "option" then Flip(i, "selected")
    else Follow(i)
  }

  /**
   * `click(Element)`: climbs from `i` over plain elements to the nearest
   * ancestor-or-self that is not plain, and classifies it.
   */
  function Dispatch(d: Doc, i: nat): (a: Action)
    requires i < |d.nodes|
    ensures a.at < |d.nodes| && a.at <= i && Under(d, a.at, i)
    ensures forall k :: a.at < k <= i && Under(d, k, i) ==> Plain(d.nodes[k])
    ensures a.NoParent? <==> Plain(d.nodes[a.at])
    ensures a.NoParent? ==> d.nodes[a.at].parent.None?
    ensures !a.NoParent? ==> a == Classify(d, a.at)
    decreases i
  {
    var n := d.nodes[i];
    assert ParentBefore(n, i);
    if Plain(n) then
      match n.parent
      case None => NoParent(i)
      case Some(p) => Dispatch(d, p)
    else Classify(d, i)
  }

  /** The result of an operation that ends in `execute`. */
  function Issued(p: (World, bool)): (Result<bool>, World) {
    (if p.1 then Ok(true) else Err(IOException), p.0)
  }

  /** The effect of `click(Element)` on element `i`: the result and the new session and transport state. */
  function ClickEffect(h: Html, userAgent: string, w: World, i: nat): (r: (Result<bool>, World))
    requires i < |w.session.document.nodes|
    ensures r.0 == Ok(false) || r.0 == Err(NoSuchElement) || r.0 == Err(NullPointer) ==> r.1 == w
    ensures w.sent <= r.1.sent && |r.1.sent| <= |w.sent| + 1
    ensures |r.1.sent| == |w.sent| ==>
      && r.1.pending == w.pending && r.1.session.cookies == w.session.cookies && r.1.session.referrer == w.session.referrer
    ensures r.0 == Ok(true) && |r.1.sent| == |w.sent| + 1 ==> NextReply(w.pending).Delivered?
  {
    var d := w.session.document;
    match Dispatch(d, i)
    case Stop(_) => (Ok(false), w)
    case NoForm(_) => (Err(NoSuchElement), w)
    case NoParent(_) => (Err(NullPointer), w)
    case Submit(_, f) => Issued(Perform(w, userAgent, h.submit(d, f)))
    case Flip(k, key) => (Ok(true), w.(session := w.session.(document := Toggle(d, k, key))))
    case Follow(k) => Issued(Perform(w, userAgent, Connect(h.absUrl(d, k, "href"))))
  }

  /** `click(Element)` answers false exactly when the climb ends at html, head or body, and then changes nothing. */
  lemma ClickFalseOnlyAtRoot(h: Html, userAgent: string, w: World, i: nat)
    requires i < |w.session.document.nodes|
    ensures ClickEffect(h, userAgent, w, i).0 == Ok(false) <==> Dispatch(w.session.document, i).Stop?
    ensures Dispatch(w.session.document, i).Stop? ==>
      ClickEffect(h, userAgent, w, i).1 == w
      && w.session.document.nodes[Dispatch(w.session.document, i).at].tag in ["html", "head", "body"]
  {
  }

  /**
   * A button or submit input executes its nearest enclosing form and answers
   * true once the exchange succeeds; without an enclosing form the click
   * raises `NoSuchElement` and it does not answer false.
   */
  lemma ClickSubmitter(h: Html, userAgent: string, w: World, i: nat)
    requires i < |w.session.document.nodes| && IsSubmitter(w.session.document.nodes[i])
    ensures NearestAncestor(w.session.document, i, "form").Some? ==>
      var f := NearestAncestor(w.session.document, i, "form").value;
      && w.session.document.nodes[f].tag == "form"
      && ClickEffect(h, userAgent, w, i) == Issued(Perform(w, userAgent, h.submit(w.session.document, f)))
    ensures NearestAncestor(w.session.document, i, "form").None? ==>
      ClickEffect(h, userAgent, w, i) == (Err(NoSuchElement), w)
  {
    assert !Plain(w.session.document.nodes[i]);
  }

  /**
   * What a click sends, for any element: a link reached by the climb loads
   * its absolute `href`; a reached form is submitted itself; a reached
   * button or submit input submits its nearest enclosing form; a reached
   * checkbox or option is toggled in place and nothing is sent.
   */
  lemma ClickSends(h: Html, userAgent: string, w: World, i: nat)
    requires i < |w.session.document.nodes|
    ensures var d := w.session.document;
      var a := Dispatch(d, i);
      var r := ClickEffect(h, userAgent, w, i);
      && (a.Follow? ==>
            && r == Issued(Perform(w, userAgent, Connect(h.absUrl(d, a.at, "href"))))
            && r.1.sent == w.sent + [RequestFor(w.session, userAgent, Connect(h.absUrl(d, a.at, "href")))])
      && (a.Submit? && !IsSubmitter(d.nodes[a.at]) ==>
            && d.nodes[a.at].tag == "form"
            && r == Issued(Perform(w, userAgent, h.submit(d, a.at)))
            && r.1.sent == w.sent + [RequestFor(w.session, userAgent, h.submit(d, a.at))])
      && (a.Submit? && IsSubmitter(d.nodes[a.at]) ==>
            && NearestAncestor(d, a.at, "form") == Some(a.form)
            && r == Issued(Perform(w, userAgent, h.submit(d, a.form)))
            && r.1.sent == w.sent + [RequestFor(w.session, userAgent, h.submit(d, a.form))])
      && (a.Flip? ==> r == (Ok(true), w.(session := w.session.(document := Toggle(d, a.at, a.attribute)))))
  {
  }

  /** Two documents that agree on everything `click(Element)` looks at. */
  predicate SameClickView(d: Doc, e: Doc) {
    && SameShape(d, e)
    && forall k :: 0 <= k < |d.nodes| ==>
      && Attr(d.nodes[k], "type") == Attr(e.nodes[k], "type")
      && (HasAttr(d.nodes[k], "href") <==> HasAttr(e.nodes[k], "href"))
  }

  lemma {:induction false} NearestAncestorSameShape(d: Doc, e: Doc, i: nat, tag: string)
    requires SameShape(d, e) && i < |d.nodes|
    ensures NearestAncestor(d, i, tag) == NearestAncestor(e, i, tag)
    decreases i
  {
    assert ParentBefore(d.nodes[i], i);
    if d.nodes[i].parent.Some? {
      NearestAncestorSameShape(d, e, d.nodes[i].parent.value, tag);
    }
  }

  /** Dispatch depends only on tags, parents, `type` attributes and the presence of `href`. */
  lemma {:induction false} DispatchSameView(d: Doc, e: Doc, i: nat)
    requires SameClickView(d, e) && i < |d.nodes|
    ensures Dispatch(d, i) == Dispatch(e, i)
    decreases i
  {
    assert ParentBefore(d.nodes[i], i);
    NearestAncestorSameShape(d, e, i, "form");
    if Plain(d.nodes[i]) && d.nodes[i].parent.Some? {
      DispatchSameView(d, e, d.nodes[i].parent.value);
    }
  }

  /**
   * A checkbox or option click toggles the attribute, issues no request and
   * answers true; clicking the same element again restores the session,
   * provided the attribute was absent or held its own name.
   */
  lemma ClickToggleTwice(h: Html, userAgent: string, w: World, i: nat)
    requires i < |w.session.document.nodes| && Dispatch(w.session.document, i).Flip?
    requires var a := Dispatch(w.session.document, i);
      var n := w.session.document.nodes[a.at];
      !HasAttr(n, a.attribute) || Attr(n, a.attribute) == a.attribute
    ensures var a := Dispatch(w.session.document, i);
      ClickEffect(h, userAgent, w, i) == (Ok(true), w.(session := w.session.(document := Toggle(w.session.document, a.at, a.attribute))))
    ensures ClickEffect(h, userAgent, ClickEffect(h, userAgent, w, i).1, i) == (Ok(true), w)
  {
    var d := w.session.document;
    var a := Dispatch(d, i);
    assert a.attribute == "checked" || a.attribute == "selected";
    var t := Toggle(d, a.at, a.attribute);
    assert SameClickView(d, t) by {
      forall k | 0 <= k < |d.nodes|
        ensures Attr(d.nodes[k], "type") == Attr(t.nodes[k], "type")
        ensures HasAttr(d.nodes[k], "href") <==> HasAttr(t.nodes[k], "href")
      {
      }
    }
    DispatchSameView(d, t, i);
    ToggleTwice(d, a.at, a.attribute);
  }

}
