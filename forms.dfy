/**
 * Form filling of `executeForm` (JsoupBrowser.kt:214-256): the candidate
 * fields of a form, the unique-match resolution of one binding, the filling
 * of one form and the search over all forms, as functions of the document.
 */
module Forms {
  import opened Wrappers
  import opened Common
  import opened Dom
  import opened Jsoup

  /** Kotlin's `s in t` on strings: `s` occurs in `t`. */
  predicate IsSubstring(s: string, t: string)
    decreases |t|
  {
    (|s| <= |t| && t[..|s|] == s) || (|t| > 0 && IsSubstring(s, t[1..]))
  }

  /** The tests the browser's own lambdas apply to candidate elements. */
  datatype Where =
    | IdIs(id: string)      // it.id() == id
    | NameIs(name: string)  // it.attr("name") == name
    | TextHas(text: string) // text in it.text()
    | TypeIs(kind: string)  // it.attr("type") == kind

  predicate Holds(h: Html, d: Doc, w: Where, i: nat)
    requires i < |d.nodes|
  {
    match w
    case IdIs(s) => Attr(d.nodes[i], "id") == s
    case NameIs(s) => Attr(d.nodes[i], "name") == s
    case TextHas(s) => IsSubstring(s, h.text(d, i))
    case TypeIs(t) => Attr(d.nodes[i], "type") == t
  }

  predicate AllIn(d: Doc, cands: seq<nat>) {
    forall k :: 0 <= k < |cands| ==> cands[k] < |d.nodes|
  }

  /** Every listed element lies in the subtree of `f`. */
  predicate AllUnder(d: Doc, f: nat, cands: seq<nat>) {
    forall k :: 0 <= k < |cands| ==> cands[k] < |d.nodes| && Under(d, f, cands[k])
  }

  lemma AllUnderAppend(d: Doc, f: nat, a: seq<nat>, b: seq<nat>)
    requires AllUnder(d, f, a) && AllUnder(d, f, b)
    ensures AllIn(d, a + b) && AllUnder(d, f, a + b)
  {
    forall k | 0 <= k < |a + b| ensures (a + b)[k] < |d.nodes| && Under(d, f, (a + b)[k]) {
      if k >= |a| {
        assert (a + b)[k] == b[k - |a|];
      }
    }
  }

  /** Position `k` of the list is the only one whose element passes the test. */
  predicate UniqueAt(h: Html, d: Doc, cands: seq<nat>, w: Where, k: nat)
    requires AllIn(d, cands)
  {
    && k < |cands| && Holds(h, d, w, cands[k])
    && forall l :: 0 <= l < |cands| && l != k ==> !Holds(h, d, w, cands[l])
  }

  predicate Unique(h: Html, d: Doc, cands: seq<nat>, w: Where)
    requires AllIn(d, cands)
  {
    exists k :: 0 <= k < |cands| && UniqueAt(h, d, cands, w, k)
  }

  /** The entries of the list that pass the test, repetitions kept. */
  function Matching(h: Html, d: Doc, cands: seq<nat>, w: Where): (m: seq<nat>)
    requires AllIn(d, cands)
    decreases |cands|
  {
    if cands == [] then []
    else (if Holds(h, d, w, cands[0]) then [cands[0]] else []) + Matching(h, d, cands[1..], w)
  }

  lemma {:induction false} MatchingMembers(h: Html, d: Doc, cands: seq<nat>, w: Where)
    requires AllIn(d, cands)
    ensures forall x :: x in Matching(h, d, cands, w) ==> x in cands && x < |d.nodes| && Holds(h, d, w, x)
    decreases |cands|
  {
    if cands != [] {
      MatchingMembers(h, d, cands[1..], w);
    }
  }

  lemma {:induction false} MatchingNone(h: Html, d: Doc, cands: seq<nat>, w: Where)
    requires AllIn(d, cands)
    ensures |Matching(h, d, cands, w)| == 0 <==> forall k :: 0 <= k < |cands| ==> !Holds(h, d, w, cands[k])
    decreases |cands|
  {
    if cands != [] {
      var rest := cands[1..];
      MatchingNone(h, d, rest, w);
      if forall k :: 0 <= k < |rest| ==> !Holds(h, d, w, rest[k]) {
        forall k | 0 < k < |cands| ensures !Holds(h, d, w, cands[k]) {
          assert cands[k] == rest[k - 1];
        }
      }
      if forall k :: 0 <= k < |cands| ==> !Holds(h, d, w, cands[k]) {
        forall k | 0 <= k < |rest| ensures !Holds(h, d, w, rest[k]) {
          assert rest[k] == cands[k + 1];
        }
      }
    }
  }

  /** A unique position in `cands` that is not the first is a unique position in `cands[1..]`, and back. */
  lemma UniqueAtTail(h: Html, d: Doc, cands: seq<nat>, w: Where, k: nat)
    requires AllIn(d, cands) && 0 < k < |cands| && !Holds(h, d, w, cands[0])
    ensures UniqueAt(h, d, cands, w, k) <==> UniqueAt(h, d, cands[1..], w, k - 1)
  {
    var rest := cands[1..];
    if UniqueAt(h, d, rest, w, k - 1) {
      forall l | 0 <= l < |cands| && l != k ensures !Holds(h, d, w, cands[l]) {
        if l > 0 { assert cands[l] == rest[l - 1]; }
      }
    }
    if UniqueAt(h, d, cands, w, k) {
      forall l | 0 <= l < |rest| && l != k - 1 ensures !Holds(h, d, w, rest[l]) {
        assert rest[l] == cands[l + 1];
      }
    }
  }

  lemma {:induction false} MatchingOne(h: Html, d: Doc, cands: seq<nat>, w: Where)
    requires AllIn(d, cands)
    ensures |Matching(h, d, cands, w)| == 1 <==> Unique(h, d, cands, w)
    decreases |cands|
  {
    if cands != [] {
      var rest := cands[1..];
      if Holds(h, d, w, cands[0]) {
        MatchingNone(h, d, rest, w);
        if |Matching(h, d, rest, w)| == 0 {
          assert UniqueAt(h, d, cands, w, 0) by {
            forall l | 0 < l < |cands| ensures !Holds(h, d, w, cands[l]) {
              assert cands[l] == rest[l - 1];
            }
          }
        }
        if Unique(h, d, cands, w) {
          var k :| 0 <= k < |cands| && UniqueAt(h, d, cands, w, k);
          assert k == 0;
          forall l | 0 <= l < |rest| ensures !Holds(h, d, w, rest[l]) {
            assert rest[l] == cands[l + 1];
          }
        }
      } else {
        MatchingOne(h, d, rest, w);
        if Unique(h, d, cands, w) {
          var k :| 0 <= k < |cands| && UniqueAt(h, d, cands, w, k);
          UniqueAtTail(h, d, cands, w, k);
        }
        if Unique(h, d, rest, w) {
          var k :| 0 <= k < |rest| && UniqueAt(h, d, rest, w, k);
          UniqueAtTail(h, d, cands, w, k + 1);
        }
      }
    }
  }

  /**
   * Kotlin's `singleOrNull { test }` on a list: the element when exactly one
   * entry passes; none when no entry or more than one does, even when the
   * entries are the same element listed twice.
   */
  function SingleOrNull(h: Html, d: Doc, cands: seq<nat>, w: Where): (r: Option<nat>)
    requires AllIn(d, cands)
    ensures r.Some? <==> Unique(h, d, cands, w)
    ensures r.Some? ==> r.value in cands && Holds(h, d, w, r.value)
  {
    MatchingMembers(h, d, cands, w);
    MatchingOne(h, d, cands, w);
    var m := Matching(h, d, cands, w);
    if |m| == 1 then Some(m[0]) else None
  }

  /** An element listed twice that passes the test makes `singleOrNull` give nothing. */
  lemma ListedTwiceIsAmbiguous(h: Html, d: Doc, cands: seq<nat>, w: Where, k: nat, l: nat)
    requires AllIn(d, cands) && k < l < |cands| && cands[k] == cands[l] && Holds(h, d, w, cands[k])
    ensures SingleOrNull(h, d, cands, w).None?
  {
    forall m | 0 <= m < |cands| ensures !UniqueAt(h, d, cands, w, m) {
      assert m != k || m != l;
    }
  }

  /** A selection scoped to `f` lies in the subtree of `f`. */
  lemma InSubtree(h: Html, d: Doc, f: nat, q: Query)
    ensures AllUnder(d, f, Select(h, d, Some(f), q))
  {
    var s := Select(h, d, Some(f), q);
    forall k | 0 <= k < |s| ensures s[k] < |d.nodes| && Under(d, f, s[k]) {
      assert Selected(h, d, Some(f), q, s[k]);
    }
  }

  /**
   * `inputElements`: the form's inputs, then its textareas, then every element
   * of the form carrying a `role` attribute, the form itself included. An
   * element of both kinds is listed twice.
   */
  function Candidates(h: Html, d: Doc, f: nat): (r: seq<nat>)
    ensures AllIn(d, r) && AllUnder(d, f, r)
  {
    var inputs := Select(h, d, Some(f), Tag("input"));
    var areas := Select(h, d, Some(f), Tag("textarea"));
    var roles := Select(h, d, Some(f), HasAttribute("role"));
    InSubtree(h, d, f, Tag("input"));
    InSubtree(h, d, f, Tag("textarea"));
    InSubtree(h, d, f, HasAttribute("role"));
    AllUnderAppend(d, f, inputs, areas);
    AllUnderAppend(d, f, inputs + areas, roles);
    inputs + areas + roles
  }

  /** Every input, textarea and `role`-carrying element of the form is a candidate. */
  lemma CandidatesCover(h: Html, d: Doc, f: nat, i: nat)
    requires i < |d.nodes| && Under(d, f, i)
    ensures d.nodes[i].tag == "input" || d.nodes[i].tag == "textarea" || HasAttr(d.nodes[i], "role") ==> i in Candidates(h, d, f)
  {
    var inputs := Select(h, d, Some(f), Tag("input"));
    var areas := Select(h, d, Some(f), Tag("textarea"));
    var roles := Select(h, d, Some(f), HasAttribute("role"));
    assert Candidates(h, d, f) == inputs + areas + roles;
    if d.nodes[i].tag == "input" {
      assert Selected(h, d, Some(f), Tag("input"), i);
    } else if d.nodes[i].tag == "textarea" {
      assert Selected(h, d, Some(f), Tag("textarea"), i);
    } else if HasAttr(d.nodes[i], "role") {
      assert Selected(h, d, Some(f), HasAttribute("role"), i);
    }
  }

  /** How often `inputElements` lists element `i`: once for each of the three selections it belongs to. */
  function Listings(d: Doc, f: nat, i: nat): nat
    requires i < |d.nodes|
  {
    var n := d.nodes[i];
    if Under(d, f, i) then
      (if n.tag == "input" then 1 else 0) + (if n.tag == "textarea" then 1 else 0) + (if HasAttr(n, "role") then 1 else 0)
    else 0
  }

  /** The candidate list as a multiset: the three selections together. */
  lemma CandidatesUnion(h: Html, d: Doc, f: nat)
    ensures multiset(Candidates(h, d, f)) ==
      multiset(Select(h, d, Some(f), Tag("input"))) + multiset(Select(h, d, Some(f), Tag("textarea")))
      + multiset(Select(h, d, Some(f), HasAttribute("role")))
  {
    var inputs: seq<nat> := Select(h, d, Some(f), Tag("input"));
    var areas: seq<nat> := Select(h, d, Some(f), Tag("textarea"));
    var roles: seq<nat> := Select(h, d, Some(f), HasAttribute("role"));
    assert Candidates(h, d, f) == inputs + areas + roles;
  }

  /** How often `inputElements` lists element `i`, and only elements of the form that are inputs, textareas or carry `role`. */
  lemma CandidatesMultiplicity(h: Html, d: Doc, f: nat, i: nat)
    ensures multiset(Candidates(h, d, f))[i] == if i < |d.nodes| then Listings(d, f, i) else 0
    ensures i in Candidates(h, d, f) <==>
      i < |d.nodes| && Under(d, f, i) && (d.nodes[i].tag == "input" || d.nodes[i].tag == "textarea" || HasAttr(d.nodes[i], "role"))
  {
    CandidatesUnion(h, d, f);
    var a := TagOnce(h, d, f, "input", i);
    var b := TagOnce(h, d, f, "textarea", i);
    var c := RoleOnce(h, d, f, i);
    var m := multiset(Candidates(h, d, f))[i];
    assert m == a + b + c;
    assert i in Candidates(h, d, f) <==> m > 0;
  }

  lemma TagOnce(h: Html, d: Doc, f: nat, t: string, i: nat) returns (k: nat)
    ensures k == multiset(Select(h, d, Some(f), Tag(t)))[i]
    ensures k == if i < |d.nodes| && Under(d, f, i) && d.nodes[i].tag == t then 1 else 0
  {
    SelectOnce(h, d, Some(f), Tag(t), i);
    k := multiset(Select(h, d, Some(f), Tag(t)))[i];
  }

  lemma RoleOnce(h: Html, d: Doc, f: nat, i: nat) returns (k: nat)
    ensures k == multiset(Select(h, d, Some(f), HasAttribute("role")))[i]
    ensures k == if i < |d.nodes| && Under(d, f, i) && HasAttr(d.nodes[i], "role") then 1 else 0
  {
    SelectOnce(h, d, Some(f), HasAttribute("role"), i);
    k := multiset(Select(h, d, Some(f), HasAttribute("role")))[i];
  }

  /** The total number of listings among the first `n` elements. */
  function ListingCount(d: Doc, f: nat, n: nat): nat
    requires n <= |d.nodes|
    decreases n
  {
    if n == 0 then 0 else ListingCount(d, f, n - 1) + Listings(d, f, n - 1)
  }

  lemma {:induction false} ListingCountSplit(h: Html, d: Doc, f: nat, n: nat)
    requires n <= |d.nodes|
    ensures ListingCount(d, f, n) ==
      CountSelected(h, d, Some(f), Tag("input"), n) + CountSelected(h, d, Some(f), Tag("textarea"), n)
      + CountSelected(h, d, Some(f), HasAttribute("role"), n)
    decreases n
  {
    if n > 0 {
      ListingCountSplit(h, d, f, n - 1);
    }
  }

  /** The length that the skip test of `executeForm` compares: the listings of all elements of the form. */
  lemma CandidatesLength(h: Html, d: Doc, f: nat)
    ensures |Candidates(h, d, f)| == ListingCount(d, f, |d.nodes|)
  {
    SelectLength(h, d, Some(f), Tag("input"));
    SelectLength(h, d, Some(f), Tag("textarea"));
    SelectLength(h, d, Some(f), HasAttribute("role"));
    ListingCountSplit(h, d, f, |d.nodes|);
  }

  /** A position at which `x` occurs in `s`. */
  lemma Position(s: seq<nat>, x: nat) returns (k: nat)
    requires x in s
    ensures k < |s| && s[k] == x
  {
    k :| 0 <= k < |s| && s[k] == x;
  }

  /** An input or textarea of the form that has a `role` attribute is listed twice, so no test can single it out. */
  lemma RoleFieldIsAmbiguous(h: Html, d: Doc, f: nat, i: nat, w: Where)
    requires i < |d.nodes| && Under(d, f, i) && HasAttr(d.nodes[i], "role")
    requires d.nodes[i].tag == "input" || d.nodes[i].tag == "textarea"
    requires Holds(h, d, w, i)
    ensures SingleOrNull(h, d, Candidates(h, d, f), w).None?
  {
    var inputs := Select(h, d, Some(f), Tag("input"));
    var areas := Select(h, d, Some(f), Tag("textarea"));
    var roles := Select(h, d, Some(f), HasAttribute("role"));
    var c := Candidates(h, d, f);
    assert c == inputs + areas + roles;
    assert i in roles by {
      assert Selected(h, d, Some(f), HasAttribute("role"), i);
    }
    var l := Position(roles, i);
    var k: nat;
    if d.nodes[i].tag == "input" {
      assert i in inputs by {
        assert Selected(h, d, Some(f), Tag("input"), i);
      }
      k := Position(inputs, i);
    } else {
      assert i in areas by {
        assert Selected(h, d, Some(f), Tag("textarea"), i);
      }
      var k' := Position(areas, i);
      k := |inputs| + k';
    }
    assert c[k] == i && c[|inputs| + |areas| + l] == i;
    ListedTwiceIsAmbiguous(h, d, c, w, k, |inputs| + |areas| + l);
  }

  /** The form's elements selected by `selector`, when there is exactly one of them. */
  predicate SoleSelected(h: Html, d: Doc, f: nat, selector: string, i: nat)
    requires i < |d.nodes|
  {
    Selected(h, d, Some(f), Css(selector), i)
    && forall j :: 0 <= j < |d.nodes| && Selected(h, d, Some(f), Css(selector), j) ==> j == i
  }

  /**
   * The element one binding name resolves to in a form: the unique candidate
   * with that id, else the unique one with that `name`, else the unique one
   * whose text contains it, else the unique element of the form matched by
   * the name as a CSS selector.
   */
  function ResolveBinding(h: Html, d: Doc, f: nat, cands: seq<nat>, name: string): (r: Option<nat>)
    requires AllIn(d, cands)
    ensures r.Some? ==> r.value < |d.nodes| && (r.value in cands || Selected(h, d, Some(f), Css(name), r.value))
  {
    var element := SingleOrNull(h, d, cands, IdIs(name));
    if element.Some? then element
    else
      var element := SingleOrNull(h, d, cands, NameIs(name));
      if element.Some? then element
      else
        var element := SingleOrNull(h, d, cands, TextHas(name));
        if element.Some? then element
        else Single(Select(h, d, Some(f), Css(name)))
  }

  /**
   * The order of preference of the resolution: a unique candidate by id wins
   * over one by `name`, which wins over one by text; only when none of the
   * three is unique does the CSS selector decide, and then it must match
   * exactly one element of the form.
   */
  lemma ResolveBindingOrder(h: Html, d: Doc, f: nat, cands: seq<nat>, name: string)
    requires AllIn(d, cands)
    ensures var r := ResolveBinding(h, d, f, cands, name);
      && (Unique(h, d, cands, IdIs(name)) ==> r.Some? && r.value in cands && Holds(h, d, IdIs(name), r.value))
      && (!Unique(h, d, cands, IdIs(name)) && Unique(h, d, cands, NameIs(name)) ==>
            r.Some? && r.value in cands && Holds(h, d, NameIs(name), r.value))
      && (!Unique(h, d, cands, IdIs(name)) && !Unique(h, d, cands, NameIs(name)) && Unique(h, d, cands, TextHas(name)) ==>
            r.Some? && r.value in cands && Holds(h, d, TextHas(name), r.value))
    ensures var r := ResolveBinding(h, d, f, cands, name);
      !Unique(h, d, cands, IdIs(name)) && !Unique(h, d, cands, NameIs(name)) && !Unique(h, d, cands, TextHas(name)) ==>
        && (r.Some? <==> exists i :: 0 <= i < |d.nodes| && SoleSelected(h, d, f, name, i))
        && (r.Some? ==> SoleSelected(h, d, f, name, r.value))
  {
    var s := Select(h, d, Some(f), Css(name));
    assert |s| == 1 ==> SoleSelected(h, d, f, name, s[0]) by {
      if |s| == 1 {
        forall j | 0 <= j < |d.nodes| && Selected(h, d, Some(f), Css(name), j) ensures j == s[0] {
          assert j in s;
        }
      }
    }
    assert (exists i :: 0 <= i < |d.nodes| && SoleSelected(h, d, f, name, i)) ==> |s| == 1 by {
      if i :| 0 <= i < |d.nodes| && SoleSelected(h, d, f, name, i) {
        assert i in s;
        assert forall k :: 0 <= k < |s| ==> s[k] == i;
        assert s[0] == s[|s| - 1];
      }
    }
  }

  /**
   * The inner loop of `executeForm` for one form: resolve the bindings in
   * order, giving each resolved element its value at once; the first
   * binding that does not resolve abandons the form, and the values already
   * given stay in the document. The flag says whether every binding resolved.
   */
  function FillForm(h: Html, d: Doc, f: nat, cands: seq<nat>, bindings: seq<(string, string)>): (r: (Doc, bool))
    requires AllIn(d, cands)
    ensures SameShape(d, r.0)
    ensures AllUnder(d, f, cands) ==>
      forall i :: 0 <= i < |d.nodes| && r.0.nodes[i] != d.nodes[i] ==> Under(d, f, i)
    decreases |bindings|
  {
    if bindings == [] then (d, true)
    else
      match ResolveBinding(h, d, f, cands, bindings[0].0)
      case None => (d, false)
      case Some(e) =>
        var d1 := Val(d, e, bindings[0].1);
        var r := FillForm(h, d1, f, cands, bindings[1..]);
        assert AllUnder(d, f, cands) ==>
          forall i :: 0 <= i < |d.nodes| && r.0.nodes[i] != d.nodes[i] ==> Under(d, f, i) by {
          if AllUnder(d, f, cands) {
            assert Under(d, f, e) by {
              if e !in cands {
                assert Selected(h, d, Some(f), Css(bindings[0].0), e);
              }
            }
            forall k | 0 <= k < |cands| ensures cands[k] < |d1.nodes| && Under(d1, f, cands[k]) {
              UnderSameShape(d, d1, f, cands[k]);
            }
            forall i | 0 <= i < |d.nodes| && r.0.nodes[i] != d.nodes[i] ensures Under(d, f, i) {
              UnderSameShape(d, d1, f, i);
            }
          }
        }
        r
  }

  /**
   * Values given in a form that is then abandoned stay in place: a first
   * binding that resolves and a second that does not leave the first value set.
   */
  lemma AbandonedValuesStay(h: Html, d: Doc, f: nat, cands: seq<nat>, bindings: seq<(string, string)>, e: nat)
    requires AllIn(d, cands) && |bindings| >= 2
    requires ResolveBinding(h, d, f, cands, bindings[0].0) == Some(e)
    requires ResolveBinding(h, Val(d, e, bindings[0].1), f, cands, bindings[1].0).None?
    ensures FillForm(h, d, f, cands, bindings) == (Val(d, e, bindings[0].1), false)
  {
    assert bindings[1..][0] == bindings[1];
  }

  /**
   * The document the filling of a form reaches binding `j` with: the first
   * `j` bindings given their values in order, stopping at the first one
   * that does not resolve.
   */
  function FillPrefix(h: Html, d: Doc, f: nat, cands: seq<nat>, bindings: seq<(string, string)>, j: nat): (r: Doc)
    requires AllIn(d, cands) && j <= |bindings|
    ensures SameShape(d, r) && AllIn(r, cands)
    decreases j
  {
    if j == 0 then d
    else
      match ResolveBinding(h, d, f, cands, bindings[0].0)
      case None => d
      case Some(e) => FillPrefix(h, Val(d, e, bindings[0].1), f, cands, bindings[1..], j - 1)
  }

  /** Binding `j` resolves on the document the earlier bindings left. */
  predicate Resolves(h: Html, d: Doc, f: nat, cands: seq<nat>, bindings: seq<(string, string)>, j: nat)
    requires AllIn(d, cands) && j < |bindings|
  {
    ResolveBinding(h, FillPrefix(h, d, f, cands, bindings, j), f, cands, bindings[j].0).Some?
  }

  /** Every binding before `k` resolves. */
  predicate ResolvedBefore(h: Html, d: Doc, f: nat, cands: seq<nat>, bindings: seq<(string, string)>, k: nat)
    requires AllIn(d, cands) && k <= |bindings|
  {
    forall j :: 0 <= j < k ==> Resolves(h, d, f, cands, bindings, j)
  }

  /** `val` put `v` into element `i`: the text of a textarea, the `value` attribute of anything else. */
  predicate HasValue(d: Doc, i: nat, v: string)
    requires i < |d.nodes|
  {
    if d.nodes[i].tag == "textarea" then d.nodes[i].ownText == v else Attr(d.nodes[i], "value") == v
  }

  /** After a first binding that resolves, the prefixes are those of the remaining bindings. */
  lemma FillPrefixTail(h: Html, d: Doc, f: nat, cands: seq<nat>, bindings: seq<(string, string)>, e: nat, j: nat)
    requires AllIn(d, cands) && 0 < j <= |bindings| && ResolveBinding(h, d, f, cands, bindings[0].0) == Some(e)
    ensures FillPrefix(h, d, f, cands, bindings, j) == FillPrefix(h, Val(d, e, bindings[0].1), f, cands, bindings[1..], j - 1)
    ensures j < |bindings| ==>
      && bindings[j] == bindings[1..][j - 1]
      && (Resolves(h, d, f, cands, bindings, j) <==> Resolves(h, Val(d, e, bindings[0].1), f, cands, bindings[1..], j - 1))
  {
  }

  lemma ResolvedBeforeTail(h: Html, d: Doc, f: nat, cands: seq<nat>, bindings: seq<(string, string)>, e: nat, k: nat)
    requires AllIn(d, cands) && 0 < k <= |bindings| && ResolveBinding(h, d, f, cands, bindings[0].0) == Some(e)
    ensures ResolvedBefore(h, d, f, cands, bindings, k) <==> ResolvedBefore(h, Val(d, e, bindings[0].1), f, cands, bindings[1..], k - 1)
  {
    var d1 := Val(d, e, bindings[0].1);
    forall j | 0 < j < k
      ensures Resolves(h, d, f, cands, bindings, j) <==> Resolves(h, d1, f, cands, bindings[1..], j - 1)
    {
      FillPrefixTail(h, d, f, cands, bindings, e, j);
    }
    assert Resolves(h, d, f, cands, bindings, 0);
    if ResolvedBefore(h, d1, f, cands, bindings[1..], k - 1) {
      forall j | 0 <= j < k ensures Resolves(h, d, f, cands, bindings, j) {
        if j > 0 {
          assert Resolves(h, d1, f, cands, bindings[1..], j - 1);
        }
      }
    }
    if ResolvedBefore(h, d, f, cands, bindings, k) {
      forall j | 0 <= j < k - 1 ensures Resolves(h, d1, f, cands, bindings[1..], j) {
        assert Resolves(h, d, f, cands, bindings, j + 1);
      }
    }
  }

  /**
   * A form is filled completely exactly when every binding resolves on the
   * document the earlier ones left, and the document is then the one all
   * bindings produced.
   */
  lemma {:induction false} FillFormFlag(h: Html, d: Doc, f: nat, cands: seq<nat>, bindings: seq<(string, string)>)
    requires AllIn(d, cands)
    ensures FillForm(h, d, f, cands, bindings).1 <==> ResolvedBefore(h, d, f, cands, bindings, |bindings|)
    ensures FillForm(h, d, f, cands, bindings).1 ==>
      FillForm(h, d, f, cands, bindings).0 == FillPrefix(h, d, f, cands, bindings, |bindings|)
    decreases |bindings|
  {
    if bindings != [] {
      match ResolveBinding(h, d, f, cands, bindings[0].0)
      case None =>
        assert FillForm(h, d, f, cands, bindings) == (d, false);
        assert !Resolves(h, d, f, cands, bindings, 0);
      case Some(e) =>
        var d1 := Val(d, e, bindings[0].1);
        assert FillForm(h, d, f, cands, bindings) == FillForm(h, d1, f, cands, bindings[1..]);
        FillFormFlag(h, d1, f, cands, bindings[1..]);
        ResolvedBeforeTail(h, d, f, cands, bindings, e, |bindings|);
        FillPrefixTail(h, d, f, cands, bindings, e, |bindings|);
    }
  }

  /**
   * The filling of a form stops at the first binding that does not resolve
   * and leaves the document with the values given before it.
   */
  lemma {:induction false} FillFormStops(h: Html, d: Doc, f: nat, cands: seq<nat>, bindings: seq<(string, string)>, j: nat)
    requires AllIn(d, cands) && j < |bindings|
    requires ResolvedBefore(h, d, f, cands, bindings, j) && !Resolves(h, d, f, cands, bindings, j)
    ensures FillForm(h, d, f, cands, bindings) == (FillPrefix(h, d, f, cands, bindings, j), false)
    decreases j
  {
    if j > 0 {
      assert Resolves(h, d, f, cands, bindings, 0);
      var e := ResolveBinding(h, d, f, cands, bindings[0].0).value;
      var d1 := Val(d, e, bindings[0].1);
      ResolvedBeforeTail(h, d, f, cands, bindings, e, j);
      FillPrefixTail(h, d, f, cands, bindings, e, j);
      FillFormStops(h, d1, f, cands, bindings[1..], j - 1);
    }
  }

  /** No binding from `from` on resolves to element `i`. */
  predicate NotResolvedTo(h: Html, d: Doc, f: nat, cands: seq<nat>, bindings: seq<(string, string)>, from: nat, i: nat)
    requires AllIn(d, cands)
  {
    forall l :: from <= l < |bindings| ==> ResolveBinding(h, FillPrefix(h, d, f, cands, bindings, l), f, cands, bindings[l].0) != Some(i)
  }

  /** Whether no binding from `from` on resolves to `i` carries over to the tail once the first binding is applied. */
  lemma NotResolvedToTail(h: Html, d: Doc, f: nat, cands: seq<nat>, bindings: seq<(string, string)>, e: nat, from: nat, i: nat)
    requires AllIn(d, cands) && bindings != [] && ResolveBinding(h, d, f, cands, bindings[0].0) == Some(e)
    requires 1 <= from && NotResolvedTo(h, d, f, cands, bindings, from, i)
    ensures NotResolvedTo(h, Val(d, e, bindings[0].1), f, cands, bindings[1..], from - 1, i)
  {
    var d1 := Val(d, e, bindings[0].1);
    forall l | from - 1 <= l < |bindings[1..]|
      ensures ResolveBinding(h, FillPrefix(h, d1, f, cands, bindings[1..], l), f, cands, bindings[1..][l].0) != Some(i)
    {
      FillPrefixTail(h, d, f, cands, bindings, e, l + 1);
      assert ResolveBinding(h, FillPrefix(h, d, f, cands, bindings, l + 1), f, cands, bindings[l + 1].0) != Some(i);
    }
  }

  /** An element no binding resolves to is left as it was. */
  lemma {:induction false} FillFormUntouched(h: Html, d: Doc, f: nat, cands: seq<nat>, bindings: seq<(string, string)>, i: nat)
    requires AllIn(d, cands) && i < |d.nodes| && NotResolvedTo(h, d, f, cands, bindings, 0, i)
    ensures FillForm(h, d, f, cands, bindings).0.nodes[i] == d.nodes[i]
    decreases |bindings|
  {
    if bindings != [] {
      assert ResolveBinding(h, FillPrefix(h, d, f, cands, bindings, 0), f, cands, bindings[0].0) != Some(i);
      match ResolveBinding(h, d, f, cands, bindings[0].0)
      case None =>
      case Some(e) =>
        NotResolvedToTail(h, d, f, cands, bindings, e, 1, i);
        FillFormUntouched(h, Val(d, e, bindings[0].1), f, cands, bindings[1..], i);
    }
  }

  /**
   * When the form is filled completely, every binding's element holds the
   * binding's value, unless a later binding resolved to the same element.
   */
  lemma {:induction false} FillFormWrites(h: Html, d: Doc, f: nat, cands: seq<nat>, bindings: seq<(string, string)>, j: nat)
    requires AllIn(d, cands) && j < |bindings| && FillForm(h, d, f, cands, bindings).1
    ensures var e := ResolveBinding(h, FillPrefix(h, d, f, cands, bindings, j), f, cands, bindings[j].0);
      && e.Some? && e.value < |d.nodes|
      && (NotResolvedTo(h, d, f, cands, bindings, j + 1, e.value) ==>
            HasValue(FillForm(h, d, f, cands, bindings).0, e.value, bindings[j].1))
    decreases j
  {
    FillFormFlag(h, d, f, cands, bindings);
    assert Resolves(h, d, f, cands, bindings, j);
    var e0 := ResolveBinding(h, d, f, cands, bindings[0].0).value;
    var d1 := Val(d, e0, bindings[0].1);
    var rest := bindings[1..];
    if j > 0 {
      FillPrefixTail(h, d, f, cands, bindings, e0, j);
      FillFormWrites(h, d1, f, cands, rest, j - 1);
      var e := ResolveBinding(h, FillPrefix(h, d, f, cands, bindings, j), f, cands, bindings[j].0);
      if NotResolvedTo(h, d, f, cands, bindings, j + 1, e.value) {
        NotResolvedToTail(h, d, f, cands, bindings, e0, j + 1, e.value);
      }
    } else {
      if NotResolvedTo(h, d, f, cands, bindings, 1, e0) {
        NotResolvedToTail(h, d, f, cands, bindings, e0, 1, e0);
        FillFormUntouched(h, d1, f, cands, rest, e0);
      }
    }
  }

  /** One pass of the outer loop: skip a form with fewer candidates than bindings, else fill it. */
  function FormStep(h: Html, d: Doc, f: nat, bindings: seq<(string, string)>): (r: (Doc, bool))
    ensures SameShape(d, r.0)
    ensures |bindings| > |Candidates(h, d, f)| ==> r == (d, false)
    ensures |bindings| <= |Candidates(h, d, f)| ==> r == FillForm(h, d, f, Candidates(h, d, f), bindings)
    ensures forall i :: 0 <= i < |d.nodes| && r.0.nodes[i] != d.nodes[i] ==> Under(d, f, i)
  {
    var inputElements := Candidates(h, d, f);
    if IterableCompareTo(bindings, inputElements) > 0 then (d, false)
    else FillForm(h, d, f, inputElements, bindings)
  }

  /** The filling of one form, as a value the search is generic over. */
  type Step = (Doc, nat) -> (Doc, bool)

  function StepOf(h: Html, bindings: seq<(string, string)>): Step {
    (d: Doc, f: nat) => FormStep(h, d, f, bindings)
  }

  /** A step leaves the document's structure alone. */
  ghost predicate KeepsShape(step: Step) {
    forall d: Doc, f: nat :: SameShape(d, step(d, f).0)
  }

  /** A step changes only elements inside the form it fills. */
  ghost predicate Confined(step: Step) {
    forall d: Doc, f: nat, i: nat :: i < |d.nodes| && i < |step(d, f).0.nodes| && step(d, f).0.nodes[i] != d.nodes[i] ==> Under(d, f, i)
  }

  lemma FormStepKeepsShape(h: Html, bindings: seq<(string, string)>)
    ensures KeepsShape(StepOf(h, bindings)) && Confined(StepOf(h, bindings))
  {
  }

  /**
   * What "the form fits" means for `executeForm`: it has at least as many
   * candidates as there are bindings and every binding resolves among them;
   * the document is then the one with every binding's value given.
   */
  lemma FormStepFits(h: Html, d: Doc, f: nat, bindings: seq<(string, string)>)
    ensures StepOf(h, bindings)(d, f).1 <==>
      |bindings| <= |Candidates(h, d, f)| && ResolvedBefore(h, d, f, Candidates(h, d, f), bindings, |bindings|)
    ensures StepOf(h, bindings)(d, f).1 ==>
      StepOf(h, bindings)(d, f).0 == FillPrefix(h, d, f, Candidates(h, d, f), bindings, |bindings|)
  {
    FillFormFlag(h, d, f, Candidates(h, d, f), bindings);
  }

  datatype Search = Search(document: Doc, chosen: Option<nat>)

  /** Shift a position in `forms[1..]` to one in `forms`. */
  function Later(s: Search): Search {
    match s.chosen
    case None => s
    case Some(k) => s.(chosen := Some(k + 1))
  }

  /**
   * The outer loop of `executeForm` over any step: the document it leaves
   * and the position, among the forms, of the form it submits.
   */
  function SearchWith(step: Step, d: Doc, forms: seq<nat>): (r: Search)
    ensures r.chosen.Some? ==> r.chosen.value < |forms|
    decreases |forms|
  {
    if forms == [] then Search(d, None)
    else
      var (d1, ok) := step(d, forms[0]);
      if ok then Search(d1, Some(0)) else Later(SearchWith(step, d1, forms[1..]))
  }

  /** A search with a step that keeps the structure keeps it too. */
  lemma {:induction false} SearchKeepsShape(step: Step, d: Doc, forms: seq<nat>)
    requires KeepsShape(step)
    ensures SameShape(d, SearchWith(step, d, forms).document)
    decreases |forms|
  {
    if forms != [] {
      var d1 := step(d, forms[0]).0;
      SearchKeepsShape(step, d1, forms[1..]);
    }
  }

  /** The search of `executeForm`, whose step fills a form with the bindings. */
  function FormSearch(h: Html, d: Doc, forms: seq<nat>, bindings: seq<(string, string)>): (r: Search)
    ensures SameShape(d, r.document)
    ensures r.chosen.Some? ==> r.chosen.value < |forms|
  {
    FormStepKeepsShape(h, bindings);
    SearchKeepsShape(StepOf(h, bindings), d, forms);
    SearchWith(StepOf(h, bindings), d, forms)
  }

  /** The document the search reaches form `k` with, when the forms before it were not submitted. */
  function Progress(step: Step, d: Doc, forms: seq<nat>, k: nat): Doc
    requires k <= |forms|
    decreases k
  {
    if k == 0 then d else Progress(step, step(d, forms[0]).0, forms[1..], k - 1)
  }

  /** Reaching form `k + 1` is reaching form `k` and filling it. */
  lemma {:induction false} ProgressNext(step: Step, d: Doc, forms: seq<nat>, k: nat)
    requires k < |forms|
    ensures Progress(step, d, forms, k + 1) == step(Progress(step, d, forms, k), forms[k]).0
    decreases k
  {
    if k > 0 {
      ProgressNext(step, step(d, forms[0]).0, forms[1..], k - 1);
      assert forms[1..][k - 1] == forms[k];
    }
  }

  /** Whether form `m` is filled completely when the search reaches it. */
  predicate FitsAt(step: Step, d: Doc, forms: seq<nat>, m: nat)
    requires m < |forms|
  {
    step(Progress(step, d, forms, m), forms[m]).1
  }

  lemma FitsAtTail(step: Step, d: Doc, forms: seq<nat>, m: nat)
    requires 0 < m < |forms|
    ensures FitsAt(step, d, forms, m) == FitsAt(step, step(d, forms[0]).0, forms[1..], m - 1)
  {
    assert forms[m] == forms[1..][m - 1];
  }

  /** No form before `k` fits. */
  predicate NoneFitBefore(step: Step, d: Doc, forms: seq<nat>, k: nat)
    requires k <= |forms|
  {
    forall m :: 0 <= m < k ==> !FitsAt(step, d, forms, m)
  }

  lemma NoneFitBeforeNext(step: Step, d: Doc, forms: seq<nat>, k: nat)
    requires k < |forms| && NoneFitBefore(step, d, forms, k)
    requires !step(Progress(step, d, forms, k), forms[k]).1
    ensures NoneFitBefore(step, d, forms, k + 1)
  {
  }

  lemma NoneFitBeforeTail(step: Step, d: Doc, forms: seq<nat>, k: nat)
    requires 0 < k <= |forms| && !FitsAt(step, d, forms, 0)
    ensures NoneFitBefore(step, d, forms, k) == NoneFitBefore(step, step(d, forms[0]).0, forms[1..], k - 1)
  {
    var d1 := step(d, forms[0]).0;
    forall m | 0 < m < |forms| ensures FitsAt(step, d, forms, m) == FitsAt(step, d1, forms[1..], m - 1) {
      FitsAtTail(step, d, forms, m);
    }
    if NoneFitBefore(step, d1, forms[1..], k - 1) {
      forall m | 0 <= m < k ensures !FitsAt(step, d, forms, m) {
        if m > 0 { assert !FitsAt(step, d1, forms[1..], m - 1); }
      }
    }
    if NoneFitBefore(step, d, forms, k) {
      forall m | 0 <= m < k - 1 ensures !FitsAt(step, d1, forms[1..], m) {
        assert !FitsAt(step, d, forms, m + 1);
      }
    }
  }

  /**
   * The search submits the first form, in document order, that the step
   * fills completely (on the document as the earlier forms left it), and
   * submits nothing when there is no such form; the document it leaves is
   * the one that form's filling, or the whole unsuccessful search, produced.
   */
  lemma {:induction false} SearchFirstFit(step: Step, d: Doc, forms: seq<nat>)
    ensures var r := SearchWith(step, d, forms);
      r.chosen.Some? ==>
        && NoneFitBefore(step, d, forms, r.chosen.value)
        && FitsAt(step, d, forms, r.chosen.value)
        && r.document == step(Progress(step, d, forms, r.chosen.value), forms[r.chosen.value]).0
    ensures var r := SearchWith(step, d, forms);
      r.chosen.None? ==> NoneFitBefore(step, d, forms, |forms|) && r.document == Progress(step, d, forms, |forms|)
    decreases |forms|
  {
    if forms != [] {
      var (d1, ok) := step(d, forms[0]);
      var tail := forms[1..];
      assert Progress(step, d, forms, 0) == d;
      if !ok {
        var rt := SearchWith(step, d1, tail);
        SearchFirstFit(step, d1, tail);
        match rt.chosen
        case None =>
          NoneFitBeforeTail(step, d, forms, |forms|);
        case Some(j) =>
          NoneFitBeforeTail(step, d, forms, j + 1);
          FitsAtTail(step, d, forms, j + 1);
          assert forms[j + 1] == tail[j];
      }
    }
  }

  /** The position the search picks is the only one that satisfies the first-fit description. */
  lemma FirstFitUnique(step: Step, d: Doc, forms: seq<nat>, k: nat)
    requires k < |forms| && NoneFitBefore(step, d, forms, k) && FitsAt(step, d, forms, k)
    ensures SearchWith(step, d, forms) == Search(step(Progress(step, d, forms, k), forms[k]).0, Some(k))
  {
    SearchFirstFit(step, d, forms);
  }

  /** The search stops at the first form that fits, with the document that form's step left. */
  lemma StopsAt(step: Step, d: Doc, forms: seq<nat>, k: nat, e: Doc)
    requires k < |forms| && NoneFitBefore(step, d, forms, k)
    requires step(Progress(step, d, forms, k), forms[k]) == (e, true)
    ensures SearchWith(step, d, forms) == Search(e, Some(k))
  {
    FirstFitUnique(step, d, forms, k);
  }

  /** When no form fits, the search visits them all and chooses none. */
  lemma NoneFits(step: Step, d: Doc, forms: seq<nat>)
    requires NoneFitBefore(step, d, forms, |forms|)
    ensures SearchWith(step, d, forms) == Search(Progress(step, d, forms, |forms|), None)
  {
    SearchFirstFit(step, d, forms);
  }

  /**
   * Only forms the search visited are touched: every element that changed
   * lies in one of the forms up to the submitted one (or in any form when none
   * is submitted).
   */
  lemma {:induction false} SearchFrame(step: Step, d: Doc, forms: seq<nat>)
    requires KeepsShape(step) && Confined(step)
    ensures var r := SearchWith(step, d, forms);
      forall i :: 0 <= i < |d.nodes| && i < |r.document.nodes| && r.document.nodes[i] != d.nodes[i] ==>
        exists m :: 0 <= m < |forms| && (r.chosen.Some? ==> m <= r.chosen.value) && Under(d, forms[m], i)
    decreases |forms|
  {
    if forms != [] {
      var (d1, ok) := step(d, forms[0]);
      var r := SearchWith(step, d, forms);
      assert SameShape(d, d1);
      SearchKeepsShape(step, d1, forms[1..]);
      if !ok {
        var tail := forms[1..];
        var rt := SearchWith(step, d1, tail);
        SearchFrame(step, d1, tail);
        forall i | 0 <= i < |d.nodes| && i < |r.document.nodes| && r.document.nodes[i] != d.nodes[i]
          ensures exists m :: 0 <= m < |forms| && (r.chosen.Some? ==> m <= r.chosen.value) && Under(d, forms[m], i)
        {
          if d1.nodes[i] != d.nodes[i] {
            assert Under(d, forms[0], i);
          } else {
            assert rt.document.nodes[i] != d1.nodes[i];
            var m :| 0 <= m < |tail| && (rt.chosen.Some? ==> m <= rt.chosen.value) && Under(d1, tail[m], i);
            UnderSameShape(d, d1, tail[m], i);
            assert Under(d, forms[m + 1], i);
          }
        }
      } else {
        forall i | 0 <= i < |d.nodes| && i < |r.document.nodes| && r.document.nodes[i] != d.nodes[i]
          ensures exists m :: 0 <= m < |forms| && (r.chosen.Some? ==> m <= r.chosen.value) && Under(d, forms[m], i)
        {
          assert Under(d, forms[0], i);
        }
      }
    }
  }

}
