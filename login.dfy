/**
 * The form-based login of `login` (JsoupBrowser.kt:285-335) as a function of
 * the session and the transport: which fields a form offers, how it is
 * filled, what is sent, and how the document is rolled back after a
 * rejected attempt.
 */
module Login {
  import opened Wrappers
  import opened Dom
  import opened Jsoup
  import opened Http
  import opened State
  import opened Forms

  /** `form.select("input")`: the form's input elements, in document order. */
  function Inputs(h: Html, d: Doc, f: nat): (r: seq<nat>)
    ensures AllIn(d, r)
    ensures forall k :: 0 <= k < |r| ==> Under(d, f, r[k]) && d.nodes[r[k]].tag == "input"
    ensures forall i :: 0 <= i < |d.nodes| && Under(d, f, i) && d.nodes[i].tag == "input" ==> i in r
  {
    InSubtree(h, d, f, Tag("input"));
    var r := Select(h, d, Some(f), Tag("input"));
    assert forall k :: 0 <= k < |r| ==> Selected(h, d, Some(f), Tag("input"), r[k]);
    r
  }

  /**
   * The username field: the single input of type `email` when the username
   * is a valid address and there is exactly one, otherwise the single input
   * of type `text`.
   */
  function UsernameField(h: Html, email: bool, d: Doc, f: nat): (r: Option<nat>)
    ensures r.Some? ==> r.value in Inputs(h, d, f) && r.value < |d.nodes|
    ensures email && Unique(h, d, Inputs(h, d, f), TypeIs("email")) ==>
      r.Some? && Attr(d.nodes[r.value], "type") == "email"
    ensures !(email && Unique(h, d, Inputs(h, d, f), TypeIs("email"))) ==>
      (r.Some? <==> Unique(h, d, Inputs(h, d, f), TypeIs("text")))
      && (r.Some? ==> Attr(d.nodes[r.value], "type") == "text")
  {
    var inputs := Inputs(h, d, f);
    var byEmail := if email then SingleOrNull(h, d, inputs, TypeIs("email")) else None;
    if byEmail.Some? then byEmail else SingleOrNull(h, d, inputs, TypeIs("text"))
  }

  /** The password field: the single input of type `password`. */
  function PasswordField(h: Html, d: Doc, f: nat): (r: Option<nat>)
    ensures r.Some? <==> Unique(h, d, Inputs(h, d, f), TypeIs("password"))
    ensures r.Some? ==> r.value in Inputs(h, d, f) && r.value < |d.nodes| && Attr(d.nodes[r.value], "type") == "password"
  {
    SingleOrNull(h, d, Inputs(h, d, f), TypeIs("password"))
  }

  /**
   * The username and password fields of a form, when it has both; they are
   * always two different inputs of the form.
   */
  function LoginFields(h: Html, email: bool, d: Doc, f: nat): (r: Option<(nat, nat)>)
    ensures r.Some? <==> UsernameField(h, email, d, f).Some? && PasswordField(h, d, f).Some?
    ensures r.Some? ==> r.value == (UsernameField(h, email, d, f).value, PasswordField(h, d, f).value)
    ensures r.Some? ==>
      && r.value.0 < |d.nodes| && r.value.1 < |d.nodes| && r.value.0 != r.value.1
      && Under(d, f, r.value.0) && Under(d, f, r.value.1)
      && d.nodes[r.value.0].tag == "input" && d.nodes[r.value.1].tag == "input"
      && Attr(d.nodes[r.value.1], "type") == "password"
  {
    var inputs := Inputs(h, d, f);
    match UsernameField(h, email, d, f)
    case None => None
    case Some(u) =>
      match PasswordField(h, d, f)
      case None => None
      case Some(p) =>
        assert Attr(d.nodes[u], "type") != "password";
        var ku :| 0 <= ku < |inputs| && inputs[ku] == u;
        var kp :| 0 <= kp < |inputs| && inputs[kp] == p;
        Some((u, p))
  }

  /** `usernameInput.val(username)` followed by `passwordInput.val(password)`. */
  function Filled(d: Doc, u: nat, p: nat, user: string, pw: string): (r: Doc)
    requires u < |d.nodes| && p < |d.nodes| && u != p
    requires d.nodes[u].tag == "input" && d.nodes[p].tag == "input"
    ensures SameShape(d, r)
    ensures Attr(r.nodes[u], "value") == user && Attr(r.nodes[p], "value") == pw
    ensures forall k :: 0 <= k < |d.nodes| && k != u && k != p ==> r.nodes[k] == d.nodes[k]
    ensures forall k :: 0 <= k < |d.nodes| ==> Attr(r.nodes[k], "type") == Attr(d.nodes[k], "type")
    ensures r.nodes[u].ownText == d.nodes[u].ownText && r.nodes[p].ownText == d.nodes[p].ownText
    ensures forall a :: a != "value" ==>
      && (a in r.nodes[u].attributes <==> a in d.nodes[u].attributes)
      && (a in r.nodes[p].attributes <==> a in d.nodes[p].attributes)
    ensures forall a :: a != "value" && a in d.nodes[u].attributes ==> r.nodes[u].attributes[a] == d.nodes[u].attributes[a]
    ensures forall a :: a != "value" && a in d.nodes[p].attributes ==> r.nodes[p].attributes[a] == d.nodes[p].attributes[a]
  {
    var d1 := Val(d, u, user);
    Val(d1, p, pw)
  }

  /** One submitted form: the session before, the filled document, the transport's answer and the verdict. */
  datatype Attempt = Attempt(form: nat, before: Session, filled: Doc, reply: Reply, seen: Session, verdict: bool)

  /** The session as the form is submitted: the document holds the entered values. */
  function Sending(a: Attempt): Session {
    a.before.(document := a.filled)
  }

  /** `document = backup` after a rejected attempt: the filled document returns, cookies and referrer stay. */
  function RolledBack(a: Attempt): Session {
    a.seen.(document := a.filled)
  }

  /** The submission of an attempt's filled form, as `execute` sends it. */
  function Submission(h: Html, userAgent: string, a: Attempt): Request {
    RequestFor(Sending(a), userAgent, h.submit(a.filled, a.form))
  }

  /**
   * One pass of the loop of `login` on form `f`: nothing when the form lacks
   * one of the fields; otherwise the form is filled, submitted, and judged
   * by the validator on the session the exchange left.
   */
  function TryForm(h: Html, email: bool, validator: Session -> bool, user: string, pw: string, w: World, f: nat): (r: Option<Attempt>)
    ensures r.Some? ==> r.value.form == f && r.value.before == w.session && r.value.reply == NextReply(w.pending)
    ensures r.Some? ==> r.value.seen == Received(Sending(r.value), r.value.reply)
    ensures r.Some? ==> r.value.verdict == (r.value.reply.Delivered? && validator(r.value.seen))
  {
    var d := w.session.document;
    match LoginFields(h, email, d, f)
    case None => None
    case Some((u, p)) =>
      var filled := Filled(d, u, p, user, pw);
      var sending := w.session.(document := filled);
      var reply := NextReply(w.pending);
      var seen := Received(sending, reply);
      Some(Attempt(f, w.session, filled, reply, seen, reply.Delivered? && validator(seen)))
  }

  /**
   * What each attempt is: a form with both fields on the session it was
   * reached with, filled with the username in the one and the password in
   * the other, whose session afterwards is what the exchange left of the
   * filled session (`State.Received`), and whose verdict
   * is the validator's opinion of that session.
   */
  predicate Recorded(h: Html, email: bool, validator: Session -> bool, user: string, pw: string, a: Attempt) {
    && a.seen == Received(Sending(a), a.reply)
    && a.verdict == (a.reply.Delivered? && validator(a.seen))
    && match LoginFields(h, email, a.before.document, a.form)
       case None => false
       case Some((u, p)) => a.filled == Filled(a.before.document, u, p, user, pw)
  }

  /** A form is tried exactly when it has both fields, and the attempt is recorded faithfully. */
  lemma TryFormRecorded(h: Html, email: bool, validator: Session -> bool, user: string, pw: string, w: World, f: nat)
    ensures TryForm(h, email, validator, user, pw, w, f).Some? <==> LoginFields(h, email, w.session.document, f).Some?
    ensures TryForm(h, email, validator, user, pw, w, f).Some? ==>
      Recorded(h, email, validator, user, pw, TryForm(h, email, validator, user, pw, w, f).value)
  {
  }

  /** The world after an attempt's exchange. */
  function Exchanged(h: Html, userAgent: string, w: World, a: Attempt): World {
    World(a.seen, w.sent + [Submission(h, userAgent, a)], AfterReply(w.pending))
  }

  /** The exchange of an attempt is the one `execute` performs on the filled session. */
  lemma ExchangedIsPerform(h: Html, userAgent: string, w: World, a: Attempt)
    requires a.before == w.session && a.reply == NextReply(w.pending) && a.seen == Received(Sending(a), a.reply)
    ensures Perform(w.(session := Sending(a)), userAgent, h.submit(a.filled, a.form)) == (Exchanged(h, userAgent, w, a), a.reply.Delivered?)
  {
  }

  /** A pass of the loop on one form, as a value the loop is generic over. */
  type Trial = (World, nat) -> Option<Attempt>

  function TrialOf(h: Html, email: bool, validator: Session -> bool, user: string, pw: string): Trial {
    (w: World, f: nat) => TryForm(h, email, validator, user, pw, w, f)
  }

  /** What the loop relies on about a trial: it answers for the form and the world it is given. */
  ghost predicate Answers(t: Trial) {
    forall w: World, f: nat :: t(w, f).Some? ==>
      t(w, f).value.form == f && t(w, f).value.before == w.session && t(w, f).value.reply == NextReply(w.pending)
  }

  /** A trial all of whose attempts pass `good`. */
  ghost predicate Yields(t: Trial, good: Attempt -> bool) {
    forall w: World, f: nat :: t(w, f).Some? ==> good(t(w, f).value)
  }

  /** Which forms a trial accepts on a document. */
  type Fits = (Doc, nat) -> bool

  /**
   * A trial that tries exactly the forms `fits` accepts, and whose filling
   * does not change which forms `fits` accepts.
   */
  ghost predicate TriesFitting(t: Trial, fits: Fits) {
    forall w: World, f: nat ::
      && (t(w, f).Some? <==> fits(w.session.document, f))
      && (t(w, f).Some? ==> forall g :: fits(t(w, f).value.filled, g) == fits(w.session.document, g))
  }

  /** The forms of `login`: those with both fields. */
  function FieldsFit(h: Html, email: bool): Fits {
    (d: Doc, f: nat) => LoginFields(h, email, d, f).Some?
  }

  /**
   * The trial of `login` answers for the world it is given, records its
   * attempts faithfully, and tries exactly the forms with both fields.
   */
  lemma TrialOfFacts(h: Html, email: bool, validator: Session -> bool, user: string, pw: string)
    ensures Answers(TrialOf(h, email, validator, user, pw))
    ensures Yields(TrialOf(h, email, validator, user, pw), a => Recorded(h, email, validator, user, pw, a))
    ensures TriesFitting(TrialOf(h, email, validator, user, pw), FieldsFit(h, email))
  {
    var t := TrialOf(h, email, validator, user, pw);
    forall w: World, f: nat
      ensures t(w, f).Some? <==> FieldsFit(h, email)(w.session.document, f)
      ensures t(w, f).Some? ==> Recorded(h, email, validator, user, pw, t(w, f).value)
      ensures t(w, f).Some? ==> forall g :: FieldsFit(h, email)(t(w, f).value.filled, g) == FieldsFit(h, email)(w.session.document, g)
    {
      TryFormRecorded(h, email, validator, user, pw, w, f);
      if t(w, f).Some? {
        var a := t(w, f).value;
        FilledTypeView(h, email, validator, user, pw, a);
        forall g: nat ensures LoginFields(h, email, a.filled, g).Some? == LoginFields(h, email, w.session.document, g).Some? {
          LoginFieldsStable(h, email, w.session.document, a.filled, g);
        }
      }
    }
  }

  datatype LoginRun = LoginRun(outcome: Result<bool>, world: World, attempts: seq<Attempt>)

  /**
   * The loop of `login` from form `forms[0]` on. A form the trial skips is
   * passed over; otherwise its submission is exchanged; a failed exchange
   * raises, an accepted login ends the loop with true, and a rejected one
   * rolls the document back and moves to the next form.
   */
  function LoginFrom(t: Trial, h: Html, userAgent: string, w: World, forms: seq<nat>): (r: LoginRun)
    decreases |forms|
  {
    if forms == [] then LoginRun(Ok(false), w, [])
    else
      match t(w, forms[0])
      case None => LoginFrom(t, h, userAgent, w, forms[1..])
      case Some(a) =>
        var w2 := Exchanged(h, userAgent, w, a);
        if !a.reply.Delivered? then LoginRun(Err(IOException), w2, [a])
        else if a.verdict then LoginRun(Ok(true), w2, [a])
        else
          var rest := LoginFrom(t, h, userAgent, w2.(session := RolledBack(a)), forms[1..]);
          rest.(attempts := [a] + rest.attempts)
  }

  /** A run continued after the attempts already made. */
  function Resumed(log: seq<Attempt>, rest: LoginRun): LoginRun {
    rest.(attempts := log + rest.attempts)
  }

  /**
   * One pass of the loop of `login` given what the trial made of the form:
   * the value `login` returns, if it returns, and the world the pass leaves.
   */
  function Pass(h: Html, userAgent: string, w: World, t: Option<Attempt>): (Option<Result<bool>>, World) {
    match t
    case None => (None, w)
    case Some(a) =>
      var w2 := Exchanged(h, userAgent, w, a);
      if !a.reply.Delivered? then (Some(Err(IOException)), w2)
      else if a.verdict then (Some(Ok(true)), w2)
      else (None, w2.(session := RolledBack(a)))
  }

  /**
   * A skipped form changes nothing; an attempted one sends its submission
   * and consumes a reply; the pass returns true exactly when the validator
   * accepted a parsed reply, raises exactly when the reply was not parsed,
   * and otherwise leaves the received session with the filled document.
   */
  lemma PassEffect(h: Html, userAgent: string, w: World, t: Option<Attempt>)
    ensures var r := Pass(h, userAgent, w, t);
      && (t.None? ==> r == (None, w))
      && (t.Some? ==> r.1.sent == w.sent + [Submission(h, userAgent, t.value)] && r.1.pending == AfterReply(w.pending))
      && (r.0 == Some(Ok(true)) <==> t.Some? && t.value.reply.Delivered? && t.value.verdict)
      && (r.0 == Some(Err(IOException)) <==> t.Some? && !t.value.reply.Delivered?)
      && (r.0.None? && t.Some? ==> r.1.session == t.value.seen.(document := t.value.filled))
  {
  }

  /** The attempts a pass adds to the log. */
  function Logged(t: Option<Attempt>): seq<Attempt> {
    if t.Some? then [t.value] else []
  }

  /** The loop of `login` unrolled once: what the first form's pass leaves to the rest. */
  lemma LoginFromStep(t: Trial, h: Html, userAgent: string, w: World, forms: seq<nat>, log: seq<Attempt>)
    requires forms != []
    ensures var (outcome, w2) := Pass(h, userAgent, w, t(w, forms[0]));
      && (outcome.Some? ==>
            Resumed(log, LoginFrom(t, h, userAgent, w, forms)) == LoginRun(outcome.value, w2, log + Logged(t(w, forms[0]))))
      && (outcome.None? ==>
            Resumed(log, LoginFrom(t, h, userAgent, w, forms)) ==
            Resumed(log + Logged(t(w, forms[0])), LoginFrom(t, h, userAgent, w2, forms[1..])))
  {
  }

  function Last(attempts: seq<Attempt>): Attempt
    requires attempts != []
  {
    attempts[|attempts| - 1]
  }

  /**
   * The outcome is decided by the last attempt alone: true when it was
   * delivered and accepted, an I/O error when its exchange failed, false
   * when it was rejected (or when no form was tried). Every earlier
   * attempt was delivered and rejected.
   */
  lemma {:induction false} LoginVerdicts(t: Trial, h: Html, userAgent: string, w: World, forms: seq<nat>)
    ensures var r := LoginFrom(t, h, userAgent, w, forms);
      && (r.attempts == [] ==> r.outcome == Ok(false))
      && (r.attempts != [] ==>
            r.outcome == if !Last(r.attempts).reply.Delivered? then Err(IOException)
                         else if Last(r.attempts).verdict then Ok(true) else Ok(false))
      && forall k :: 0 <= k < |r.attempts| - 1 ==> r.attempts[k].reply.Delivered? && !r.attempts[k].verdict
    decreases |forms|
  {
    if forms != [] {
      match t(w, forms[0])
      case None =>
        LoginVerdicts(t, h, userAgent, w, forms[1..]);
      case Some(a) =>
        if a.reply.Delivered? && !a.verdict {
          var w3 := Exchanged(h, userAgent, w, a).(session := RolledBack(a));
          LoginVerdicts(t, h, userAgent, w3, forms[1..]);
          var rest := LoginFrom(t, h, userAgent, w3, forms[1..]);
          var all := [a] + rest.attempts;
          if rest.attempts != [] {
            assert Last(all) == Last(rest.attempts);
          }
          forall k | 0 < k < |all| - 1 ensures all[k].reply.Delivered? && !all[k].verdict {
            assert all[k] == rest.attempts[k - 1];
          }
        }
    }
  }

  /**
   * The attempts form a chain from the starting session: each starts from
   * the previous one rolled back.
   */
  predicate Chained(s: Session, attempts: seq<Attempt>) {
    && (attempts != [] ==> attempts[0].before == s)
    && forall k :: 0 <= k < |attempts| - 1 ==> attempts[k + 1].before == RolledBack(attempts[k])
  }

  /**
   * The attempts chain from the starting session, and the session `login`
   * leaves is the starting one when no form was tried, the rolled-back one
   * after a rejection, and the session of the last exchange after an
   * acceptance or a failure.
   */
  lemma {:induction false} LoginChain(t: Trial, h: Html, userAgent: string, w: World, forms: seq<nat>)
    requires Answers(t)
    ensures var r := LoginFrom(t, h, userAgent, w, forms);
      && Chained(w.session, r.attempts)
      && r.world.session == if r.attempts == [] then w.session
                            else if r.outcome == Ok(false) then RolledBack(Last(r.attempts))
                            else Last(r.attempts).seen
    decreases |forms|
  {
    if forms != [] {
      match t(w, forms[0])
      case None =>
        LoginChain(t, h, userAgent, w, forms[1..]);
      case Some(a) =>
        if a.reply.Delivered? && !a.verdict {
          var w3 := Exchanged(h, userAgent, w, a).(session := RolledBack(a));
          LoginChain(t, h, userAgent, w3, forms[1..]);
          LoginVerdicts(t, h, userAgent, w3, forms[1..]);
          var rest := LoginFrom(t, h, userAgent, w3, forms[1..]);
          var all := [a] + rest.attempts;
          if rest.attempts != [] {
            assert Last(all) == Last(rest.attempts);
            assert all[1] == rest.attempts[0];
          }
          forall k | 0 < k < |all| - 1 ensures all[k + 1].before == RolledBack(all[k]) {
            assert all[k] == rest.attempts[k - 1] && all[k + 1] == rest.attempts[k];
          }
        }
    }
  }

  predicate AllGood(good: Attempt -> bool, attempts: seq<Attempt>) {
    forall k :: 0 <= k < |attempts| ==> good(attempts[k])
  }

  /** Every attempt satisfies what every pass of the trial guarantees. */
  lemma {:induction false} LoginRecorded(t: Trial, good: Attempt -> bool, h: Html, userAgent: string, w: World, forms: seq<nat>)
    requires Yields(t, good)
    ensures AllGood(good, LoginFrom(t, h, userAgent, w, forms).attempts)
    decreases |forms|
  {
    if forms != [] {
      match t(w, forms[0])
      case None =>
        LoginRecorded(t, good, h, userAgent, w, forms[1..]);
      case Some(a) =>
        if a.reply.Delivered? && !a.verdict {
          var w3 := Exchanged(h, userAgent, w, a).(session := RolledBack(a));
          LoginRecorded(t, good, h, userAgent, w3, forms[1..]);
          var rest := LoginFrom(t, h, userAgent, w3, forms[1..]);
          var all := [a] + rest.attempts;
          forall k | 0 < k < |all| ensures good(all[k]) {
            assert all[k] == rest.attempts[k - 1];
          }
        }
    }
  }

  /** The requests the attempts make, in order. */
  function Requests(h: Html, userAgent: string, attempts: seq<Attempt>): (r: seq<Request>)
    ensures |r| == |attempts|
    ensures forall k :: 0 <= k < |attempts| ==> r[k] == Submission(h, userAgent, attempts[k])
    decreases |attempts|
  {
    if attempts == [] then [] else [Submission(h, userAgent, attempts[0])] + Requests(h, userAgent, attempts[1..])
  }

  /** The transport script after `k` exchanges. */
  function Drop(pending: seq<Reply>, k: nat): seq<Reply>
    decreases k
  {
    if k == 0 then pending else Drop(AfterReply(pending), k - 1)
  }

  /**
   * Exactly one request per attempt goes out, the submission of its filled
   * form with the session's cookies and referrer, and each attempt is
   * answered by the next entry of the transport's script.
   */
  lemma {:induction false} LoginTraffic(t: Trial, h: Html, userAgent: string, w: World, forms: seq<nat>)
    requires Answers(t)
    ensures var r := LoginFrom(t, h, userAgent, w, forms);
      && r.world.sent == w.sent + Requests(h, userAgent, r.attempts)
      && r.world.pending == Drop(w.pending, |r.attempts|)
      && forall k :: 0 <= k < |r.attempts| ==> r.attempts[k].reply == NextReply(Drop(w.pending, k))
    decreases |forms|
  {
    if forms != [] {
      match t(w, forms[0])
      case None =>
        LoginTraffic(t, h, userAgent, w, forms[1..]);
      case Some(a) =>
        assert Requests(h, userAgent, [a]) == [Submission(h, userAgent, a)];
        assert Drop(w.pending, 1) == AfterReply(w.pending);
        if a.reply.Delivered? && !a.verdict {
          var w3 := Exchanged(h, userAgent, w, a).(session := RolledBack(a));
          LoginTraffic(t, h, userAgent, w3, forms[1..]);
          TrafficAfter(h, userAgent, w, a, LoginFrom(t, h, userAgent, w3, forms[1..]));
        }
    }
  }

  /** The traffic of a rejected attempt followed by the traffic of the rest of the run. */
  lemma TrafficAfter(h: Html, userAgent: string, w: World, a: Attempt, rest: LoginRun)
    requires var w3 := Exchanged(h, userAgent, w, a);
      && rest.world.sent == w3.sent + Requests(h, userAgent, rest.attempts)
      && rest.world.pending == Drop(w3.pending, |rest.attempts|)
      && forall k :: 0 <= k < |rest.attempts| ==> rest.attempts[k].reply == NextReply(Drop(w3.pending, k))
    requires a.reply == NextReply(w.pending)
    ensures var all := [a] + rest.attempts;
      && rest.world.sent == w.sent + Requests(h, userAgent, all)
      && rest.world.pending == Drop(w.pending, |all|)
      && forall k :: 0 <= k < |all| ==> all[k].reply == NextReply(Drop(w.pending, k))
  {
    var all := [a] + rest.attempts;
    var w3 := Exchanged(h, userAgent, w, a);
    SentAfter(h, userAgent, w.sent, a, rest.attempts, rest.world.sent);
    assert Drop(w.pending, |all|) == Drop(w3.pending, |rest.attempts|);
    forall k | 0 <= k < |all| ensures all[k].reply == NextReply(Drop(w.pending, k)) {
      if k > 0 {
        assert all[k] == rest.attempts[k - 1];
        assert Drop(w.pending, k) == Drop(w3.pending, k - 1);
      }
    }
  }

  lemma SentAfter(h: Html, userAgent: string, sent: seq<Request>, a: Attempt, rest: seq<Attempt>, all: seq<Request>)
    requires all == sent + [Submission(h, userAgent, a)] + Requests(h, userAgent, rest)
    ensures all == sent + Requests(h, userAgent, [a] + rest)
  {
    RequestsCons(h, userAgent, a, rest);
  }

  lemma RequestsCons(h: Html, userAgent: string, a: Attempt, rest: seq<Attempt>)
    ensures Requests(h, userAgent, [a] + rest) == [Submission(h, userAgent, a)] + Requests(h, userAgent, rest)
  {
    assert ([a] + rest)[1..] == rest;
  }

  /** The forms the attempts submitted, in order. */
  function FormsOf(attempts: seq<Attempt>): (r: seq<nat>)
    ensures |r| == |attempts|
    ensures forall k :: 0 <= k < |attempts| ==> r[k] == attempts[k].form
    decreases |attempts|
  {
    if attempts == [] then [] else [attempts[0].form] + FormsOf(attempts[1..])
  }

  /** The forms of the list accepted on document `d`, in order. */
  function Fitting(fits: Fits, d: Doc, forms: seq<nat>): (r: seq<nat>)
    ensures forall k :: 0 <= k < |r| ==> r[k] in forms && fits(d, r[k])
    ensures forall f :: f in forms && fits(d, f) ==> f in r
    decreases |forms|
  {
    if forms == [] then []
    else (if fits(d, forms[0]) then [forms[0]] else []) + Fitting(fits, d, forms[1..])
  }

  lemma {:induction false} FittingSame(fits: Fits, d: Doc, e: Doc, forms: seq<nat>)
    requires forall g :: fits(d, g) == fits(e, g)
    ensures Fitting(fits, d, forms) == Fitting(fits, e, forms)
    decreases |forms|
  {
    if forms != [] {
      FittingSame(fits, d, e, forms[1..]);
    }
  }

  /** Two documents that agree on everything `login` uses to find fields. */
  predicate TypeView(d: Doc, e: Doc) {
    SameShape(d, e) && forall k :: 0 <= k < |d.nodes| ==> Attr(d.nodes[k], "type") == Attr(e.nodes[k], "type")
  }

  lemma {:induction false} CollectTagStable(h: Html, d: Doc, e: Doc, f: nat, t: string, n: nat)
    requires SameShape(d, e) && n <= |d.nodes|
    ensures Collect(h, d, Some(f), Tag(t), n) == Collect(h, e, Some(f), Tag(t), n)
    decreases n
  {
    if n > 0 {
      CollectTagStable(h, d, e, f, t, n - 1);
      UnderSameShape(d, e, f, n - 1);
      assert Selected(h, d, Some(f), Tag(t), n - 1) == Selected(h, e, Some(f), Tag(t), n - 1);
    }
  }

  lemma {:induction false} MatchingTypeStable(h: Html, d: Doc, e: Doc, cands: seq<nat>, t: string)
    requires TypeView(d, e) && AllIn(d, cands)
    ensures AllIn(e, cands) && Matching(h, d, cands, TypeIs(t)) == Matching(h, e, cands, TypeIs(t))
    decreases |cands|
  {
    if cands != [] {
      MatchingTypeStable(h, d, e, cands[1..], t);
    }
  }

  /** The fields `login` finds are the same on two documents with the same view. */
  lemma LoginFieldsStable(h: Html, email: bool, d: Doc, e: Doc, f: nat)
    requires TypeView(d, e)
    ensures LoginFields(h, email, d, f) == LoginFields(h, email, e, f)
  {
    InputsStable(h, d, e, f);
    var inputs := Inputs(h, d, f);
    SingleTypeStable(h, d, e, inputs, "email");
    SingleTypeStable(h, d, e, inputs, "text");
    SingleTypeStable(h, d, e, inputs, "password");
    assert UsernameField(h, email, d, f) == UsernameField(h, email, e, f);
    assert PasswordField(h, d, f) == PasswordField(h, e, f);
  }

  lemma InputsStable(h: Html, d: Doc, e: Doc, f: nat)
    requires SameShape(d, e)
    ensures Inputs(h, d, f) == Inputs(h, e, f)
  {
    CollectTagStable(h, d, e, f, "input", |d.nodes|);
  }

  lemma SingleTypeStable(h: Html, d: Doc, e: Doc, cands: seq<nat>, t: string)
    requires TypeView(d, e) && AllIn(d, cands)
    ensures AllIn(e, cands) && SingleOrNull(h, d, cands, TypeIs(t)) == SingleOrNull(h, e, cands, TypeIs(t))
  {
    MatchingTypeStable(h, d, e, cands, t);
  }

  /**
   * `login` tries the forms that offer both fields, in document order, and
   * stops only at a success or a failed exchange: the submitted forms are a
   * prefix of the fitting ones, all of them when the login fails.
   */
  lemma {:induction false} LoginOrder(t: Trial, fits: Fits, h: Html, userAgent: string, w: World, forms: seq<nat>)
    requires Answers(t) && TriesFitting(t, fits)
    ensures var r := LoginFrom(t, h, userAgent, w, forms);
      && FormsOf(r.attempts) <= Fitting(fits, w.session.document, forms)
      && (r.outcome == Ok(false) ==> FormsOf(r.attempts) == Fitting(fits, w.session.document, forms))
    decreases |forms|
  {
    if forms != [] {
      match t(w, forms[0])
      case None =>
        LoginOrder(t, fits, h, userAgent, w, forms[1..]);
      case Some(a) =>
        if a.reply.Delivered? && !a.verdict {
          var w3 := Exchanged(h, userAgent, w, a).(session := RolledBack(a));
          LoginOrder(t, fits, h, userAgent, w3, forms[1..]);
          FittingSame(fits, w.session.document, a.filled, forms[1..]);
          var rest := LoginFrom(t, h, userAgent, w3, forms[1..]);
          assert FormsOf([a] + rest.attempts) == [forms[0]] + FormsOf(rest.attempts);
        }
    }
  }

  /** Filling a form keeps the view `login` finds fields by. */
  lemma FilledTypeView(h: Html, email: bool, validator: Session -> bool, user: string, pw: string, a: Attempt)
    requires Recorded(h, email, validator, user, pw, a)
    ensures TypeView(a.before.document, a.filled)
  {
  }

}
