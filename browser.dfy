/**
 * The browser of JsoupBrowser.kt: an object holding the session (cookie jar,
 * current document, referrer and raw body), the throttling clock and the
 * collaborators it talks to, with the operations of the `Browser` interface.
 *
 * Each operation is proved equal to the pure description in Resolution,
 * Forms, Login and State, where the properties of those descriptions are
 * proved. Exceptions the Kotlin code lets escape are `Err` results.
 */
module JsoupBrowser {
  import opened Wrappers
  import opened Common
  import opened Dom
  import opened Jsoup
  import opened Http
  import opened State
  import opened Resolution
  import opened Forms
  import opened Login

  /** The default of the constructor's `minimumTimeout` parameter, in milliseconds. */
  const DefaultMinimumTimeout: int := 1000

  /** The default of the constructor's `userAgent` parameter. */
  const DefaultUserAgent: string := "Themistokles/0.1"

  /** The referrer a new browser sends with its first request. */
  const InitialReferrer: string := "https://www.google.com"

  /** The document of a browser that has not loaded a page yet. */
  const Blank: Doc := RawDoc("", [])

  /**
   * How long `handleTimeout` sleeps when called at `now`: the part of the
   * minimum timeout not yet elapsed since the last execution.
   */
  function Delay(minimumTimeout: int, lastExecution: int, now: int): (r: nat)
    ensures now + r - lastExecution >= minimumTimeout
    ensures r > 0 ==> now + r - lastExecution == minimumTimeout
  {
    var delta := now - lastExecution;
    if delta < minimumTimeout then minimumTimeout - delta else 0
  }

  /** The sleep is the shortest that lets the minimum timeout elapse. */
  lemma DelayIsShortest(minimumTimeout: int, lastExecution: int, now: int, s: nat)
    requires s < Delay(minimumTimeout, lastExecution, now)
    ensures now + s - lastExecution < minimumTimeout
  {
  }

  class JsoupBrowser {
    var cookies: map<string, string>
    var document: Doc
    var referrer: string
    var raw: string
    var minimumTimeout: int
    var lastExecution: int
    const userAgent: string
    /** The HTML library's semantics. */
    const jsoup: Html
    /** `String.isValidEmail()`, which delegates to a validator library. */
    const isValidEmail: string -> bool
    /** The HTTP client. */
    const transport: Transport

    /** What the validator of `login` is shown of the browser. */
    function Snapshot(): Session
      reads this
    {
      Session(cookies, document, referrer, raw)
    }

    /** The session together with the transport's log and script. */
    ghost function WorldState(): World
      reads this, transport
    {
      World(Snapshot(), transport.sent, transport.pending)
    }

    /** The fields before `init` runs: an empty jar, the initial referrer, no page loaded. */
    constructor Unloaded(userAgent: string, minimumTimeout: int, jsoup: Html, isValidEmail: string -> bool, transport: Transport)
      ensures this.userAgent == userAgent && this.minimumTimeout == minimumTimeout
      ensures this.jsoup == jsoup && this.isValidEmail == isValidEmail && this.transport == transport
      ensures Snapshot() == Session(map[], Blank, InitialReferrer, "")
    {
      this.userAgent := userAgent;
      this.minimumTimeout := minimumTimeout;
      this.jsoup := jsoup;
      this.isValidEmail := isValidEmail;
      this.transport := transport;
      cookies := map[];
      document := Blank;
      referrer := InitialReferrer;
      raw := "";
      lastExecution := 0;
    }

    /**
     * `JsoupBrowser(initialPage, minimumTimeout, userAgent)`: load the
     * initial page; then the clock of the last execution starts at `now`.
     * A failed first request makes the construction raise.
     */
    static method Open(initialPage: string, minimumTimeout: int, userAgent: string, jsoup: Html,
                       isValidEmail: string -> bool, transport: Transport, now: int) returns (r: Result<JsoupBrowser>)
      modifies transport
      ensures var p := Perform(World(Session(map[], Blank, InitialReferrer, ""), old(transport.sent), old(transport.pending)),
                               userAgent, Connect(initialPage));
        && transport.sent == p.0.sent && transport.pending == p.0.pending
        && (r.Ok? <==> p.1)
        && (r.Ok? ==> fresh(r.value) && r.value.transport == transport && r.value.Snapshot() == p.0.session)
        && (r.Ok? ==> r.value.userAgent == userAgent && r.value.jsoup == jsoup && r.value.isValidEmail == isValidEmail)
        && (r.Ok? ==> r.value.minimumTimeout == minimumTimeout && r.value.lastExecution == now)
      ensures r.Err? ==> r.fault == IOException
    {
      var b := new JsoupBrowser.Unloaded(userAgent, minimumTimeout, jsoup, isValidEmail, transport);
      var loaded := b.Get(initialPage);
      if loaded.Err? {
        return Err(loaded.fault);
      }
      b.lastExecution := now;
      return Ok(b);
    }

    /**
     * `handleTimeout()` at clock reading `now`: sleep until the minimum
     * timeout has passed since the last execution, then record the time.
     */
    method HandleTimeout(now: int) returns (slept: nat)
      modifies this`lastExecution
      ensures slept == Delay(minimumTimeout, old(lastExecution), now)
      ensures lastExecution == now + slept
    {
      var delta := now - lastExecution;
      slept := 0;
      if delta < minimumTimeout {
        slept := minimumTimeout - delta;
      }
      lastExecution := now + slept;
    }

    /**
     * `execute(request)`: attach the jar, the user agent and the referrer,
     * exchange, and on delivery merge the response's cookies into the jar
     * and take referrer, document and raw body from the response. The flag
     * is false when the transport raised an I/O error, which then leaves the
     * session as it was, or when the page did not parse, after the cookies
     * and the referrer were already taken.
     */
    method Execute(c: Connection) returns (ok: bool)
      modifies this`cookies, this`document, this`referrer, this`raw, transport
      ensures (WorldState(), ok) == Perform(old(WorldState()), userAgent, c)
    {
      var reply := transport.Exchange(Request(c, cookies, userAgent, referrer));
      match reply
      case Delivered(response) =>
        cookies := cookies + response.cookies;
        referrer := response.url;
        document := response.document;
        raw := response.body;
        ok := true;
      case Unparsable(incoming, url) =>
        cookies := cookies + incoming;
        referrer := url;
        ok := false;
      case Failed =>
        ok := false;
    }

    /** `get(url)`: execute a plain request for the page. */
    method Get(url: string) returns (r: Result<()>)
      modifies this`cookies, this`document, this`referrer, this`raw, transport
      ensures var p := Perform(old(WorldState()), userAgent, Connect(url));
        WorldState() == p.0 && r == (if p.1 then Ok(()) else Err(IOException))
    {
      var ok := Execute(Connect(url));
      r := if ok then Ok(()) else Err(IOException);
    }

    /** `click(element)`: act on the element, or climb to its parent while it is plain. */
    method ClickElement(i: nat) returns (r: Result<bool>)
      requires i < |document.nodes|
      modifies this`cookies, this`document, this`referrer, this`raw, transport
      ensures (r, WorldState()) == ClickEffect(jsoup, userAgent, old(WorldState()), i)
      decreases i
    {
      var element := document.nodes[i];
      assert ParentBefore(element, i);
      if element.tag in ["html", "head", "body"] {
        return Ok(false);
      }
      if IsSubmitter(element) {
        var form := NearestAncestor(document, i, "form");
        if form.None? {
          return Err(NoSuchElement);
        }
        var ok := Execute(jsoup.submit(document, form.value));
        return if ok then Ok(true) else Err(IOException);
      } else if element.tag == "form" {
        var ok := Execute(jsoup.submit(document, i));
        return if ok then Ok(true) else Err(IOException);
      } else if IsCheckbox(element) {
        document := Toggle(document, i, "checked");
        return Ok(true);
      } else if element.tag == "option" {
        document := Toggle(document, i, "selected");
        return Ok(true);
      }
      if !HasAttr(element, "href") {
        match element.parent
        case None =>
          return Err(NullPointer);
        case Some(p) =>
          r := ClickElement(p);
          return;
      }
      var ok := Execute(Connect(jsoup.absUrl(document, i, "href")));
      return if ok then Ok(true) else Err(IOException);
    }

    /**
     * `click(string, exact)`: throttle, find the element by id, name, own
     * text or selector, and click it; false when nothing is found. `exact`
     * is not used.
     */
    method Click(target: string, exact: bool, now: int) returns (r: Result<bool>)
      modifies this`cookies, this`document, this`referrer, this`raw, this`lastExecution, transport
      ensures lastExecution == now + Delay(minimumTimeout, old(lastExecution), now)
      ensures var found := ClickTarget(jsoup, old(document), target);
        (r, WorldState()) == if found.None? then (Ok(false), old(WorldState()))
                             else ClickEffect(jsoup, userAgent, old(WorldState()), found.value)
    {
      var slept := HandleTimeout(now);
      var element := First(Select(jsoup, document, None, HasId(target)));
      if element.None? {
        element := First(Select(jsoup, document, None, AttributeValue("name", target)));
      }
      if element.None? {
        element := First(Select(jsoup, document, None, ContainingOwnText(target)));
      }
      if element.None? {
        element := First(Select(jsoup, document, None, Css(target)));
      }
      assert element == ClickTarget(jsoup, document, target);
      if element.None? {
        return Ok(false);
      }
      r := ClickElement(element.value);
    }

    /**
     * `clickLink(string, exact)`: throttle, collect the text matches (or the
     * selector matches when there is none) and load the first one's `href`;
     * false when nothing is found.
     */
    method ClickLink(target: string, exact: bool, now: int) returns (r: Result<bool>)
      modifies this`cookies, this`document, this`referrer, this`raw, this`lastExecution, transport
      ensures lastExecution == now + Delay(minimumTimeout, old(lastExecution), now)
      ensures var candidates := LinkCandidates(jsoup, old(document), target, exact);
        (r, WorldState()) == if candidates == [] then (Ok(false), old(WorldState()))
                             else Issued(Perform(old(WorldState()), userAgent, Connect(jsoup.absUrl(old(document), candidates[0], "href"))))
    {
      var slept := HandleTimeout(now);
      var elements: seq<nat>;
      if exact {
        elements := Select(jsoup, document, None, MatchingOwnText("^" + target + "$"));
      } else {
        elements := Select(jsoup, document, None, ContainingOwnText(target));
      }
      if |elements| == 0 {
        elements := elements + Select(jsoup, document, None, Css(target));
      }
      assert elements == LinkCandidates(jsoup, document, target, exact);
      if |elements| == 0 {
        return Ok(false);
      }
      var ok := Execute(Connect(jsoup.absUrl(document, elements[0], "href")));
      r := if ok then Ok(true) else Err(IOException);
    }

    /** `contains(text)`: some element's text contains it, or it selects something as a CSS selector. */
    function Contains(text: string): (r: bool)
      reads this
      ensures r <==> AnySelected(jsoup, document, None, ContainingText(text)) || AnySelected(jsoup, document, None, Css(text))
    {
      PageContains(jsoup, document, text)
    }

    /** `getPageContentAsString()`: the raw body of the last response. */
    function PageContent(): string
      reads this
    {
      raw
    }

    /**
     * The inner loop of `executeForm` on one form: resolve each input among
     * the form's candidates and give the element its value at once; false
     * at the first input that resolves to nothing (the `continue@forms`),
     * with the values given so far left in place.
     */
    method FillInputs(inputs: array<(string, string)>, form: nat, inputElements: seq<nat>) returns (filled: bool)
      requires AllIn(document, inputElements)
      modifies this`document
      ensures (document, filled) == FillForm(jsoup, old(document), form, inputElements, inputs[..])
    {
      ghost var bindings := inputs[..];
      for j := 0 to inputs.Length
        invariant SameShape(old(document), document) && AllIn(document, inputElements)
        invariant FillForm(jsoup, document, form, inputElements, bindings[j..]) == FillForm(jsoup, old(document), form, inputElements, bindings)
      {
        var (name, value) := inputs[j];
        var element := SingleOrNull(jsoup, document, inputElements, IdIs(name));
        if element.None? {
          element := SingleOrNull(jsoup, document, inputElements, NameIs(name));
        }
        if element.None? {
          element := SingleOrNull(jsoup, document, inputElements, TextHas(name));
        }
        if element.None? {
          element := Single(Select(jsoup, document, Some(form), Css(name)));
        }
        assert element == ResolveBinding(jsoup, document, form, inputElements, name);
        assert bindings[j..][0] == (name, value) && bindings[j..][1..] == bindings[j + 1..];
        if element.None? {
          return false;
        }
        document := Val(document, element.value, value);
      }
      assert bindings[inputs.Length..] == [];
      return true;
    }

    /**
     * One pass of the loop of `executeForm` on `form`: collect the form's
     * candidate fields, skip the form when there are more bindings than
     * fields, otherwise give every binding its value.
     */
    method FormPass(inputs: array<(string, string)>, form: nat, ghost step: Step) returns (filled: bool)
      requires step == StepOf(jsoup, inputs[..])
      modifies this`document
      ensures (document, filled) == step(old(document), form)
    {
      var inputElements := Select(jsoup, document, Some(form), Tag("input"));
      inputElements := inputElements + Select(jsoup, document, Some(form), Tag("textarea"));
      inputElements := inputElements + Select(jsoup, document, Some(form), HasAttribute("role"));
      assert inputElements == Candidates(jsoup, document, form);
      if ArrayCompareTo(inputs, inputElements) > 0 {
        return false;
      }
      filled := FillInputs(inputs, form, inputElements);
    }

    /**
     * The loop of `executeForm`: visit the forms in order, filling each from
     * the bindings, and stop at the first form every binding fits.
     */
    method SearchForms(inputs: array<(string, string)>, forms: seq<nat>, ghost step: Step) returns (chosen: Option<nat>)
      requires step == StepOf(jsoup, inputs[..])
      modifies this`document
      ensures var search := SearchWith(step, old(document), forms);
        document == search.document && chosen == search.chosen
    {
      ghost var start := document;
      for i := 0 to |forms|
        invariant step == StepOf(jsoup, inputs[..])
        invariant document == Progress(step, start, forms, i)
        invariant NoneFitBefore(step, start, forms, i)
      {
        var filled := FormPass(inputs, forms[i], step);
        if filled {
          StopsAt(step, start, forms, i, document);
          return Some(i);
        }
        assert document == Progress(step, start, forms, i + 1) && NoneFitBefore(step, start, forms, i + 1) by {
          ProgressNext(step, start, forms, i);
          NoneFitBeforeNext(step, start, forms, i);
        }
      }
      NoneFits(step, start, forms);
      return None;
    }

    /**
     * `executeForm(inputs)`: throttle, fill the first form of the page that
     * takes every binding, and submit it; `Ok(false)` when no form does.
     */
    method ExecuteForm(inputs: array<(string, string)>, now: int) returns (r: Result<bool>)
      modifies this`cookies, this`document, this`referrer, this`raw, this`lastExecution, transport
      ensures lastExecution == now + Delay(minimumTimeout, old(lastExecution), now)
      ensures var forms := Select(jsoup, old(document), None, Tag("form"));
        var search := FormSearch(jsoup, old(document), forms, inputs[..]);
        var w := old(WorldState()).(session := old(WorldState()).session.(document := search.document));
        (r, WorldState()) == match search.chosen
          case None => (Ok(false), w)
          case Some(k) => Issued(Perform(w, userAgent, jsoup.submit(search.document, forms[k])))
    {
      var slept := HandleTimeout(now);
      var forms := Select(jsoup, document, None, Tag("form"));
      var chosen := SearchForms(inputs, forms, StepOf(jsoup, inputs[..]));
      if chosen.None? {
        return Ok(false);
      }
      var ok := Execute(jsoup.submit(document, forms[chosen.value]));
      return if ok then Ok(true) else Err(IOException);
    }

    /**
     * The field lookup of `login` on `form`: the single email input when the
     * username is an email address, else the single text input, and the
     * single password input.
     */
    method LoginInputs(form: nat, email: bool) returns (fields: Option<(nat, nat)>)
      ensures fields == LoginFields(jsoup, email, document, form)
    {
      var inputs := Select(jsoup, document, Some(form), Tag("input"));
      assert inputs == Inputs(jsoup, document, form);
      var usernameInput: Option<nat> := None;
      if email {
        usernameInput := SingleOrNull(jsoup, document, inputs, TypeIs("email"));
      }
      if usernameInput.None? {
        usernameInput := SingleOrNull(jsoup, document, inputs, TypeIs("text"));
        if usernameInput.None? {
          return None;
        }
      }
      var passwordInput := SingleOrNull(jsoup, document, inputs, TypeIs("password"));
      if passwordInput.None? {
        return None;
      }
      return Some((usernameInput.value, passwordInput.value));
    }

    /** `usernameInput.val(username)` and `passwordInput.val(password)`. */
    method EnterCredentials(usernameInput: nat, passwordInput: nat, username: string, password: string)
      requires usernameInput < |document.nodes| && passwordInput < |document.nodes| && usernameInput != passwordInput
      requires document.nodes[usernameInput].tag == "input" && document.nodes[passwordInput].tag == "input"
      modifies this`document
      ensures document == Filled(old(document), usernameInput, passwordInput, username, password)
    {
      document := Val(document, usernameInput, username);
      document := Val(document, passwordInput, password);
    }

    /**
     * One pass of the loop of `login` on `form`: `None` when the form lacks
     * a field (the `continue`) or the validator rejected the login, in
     * which case the filled document is restored; otherwise what `login`
     * returns.
     */
    method TryLogin(form: nat, email: bool, username: string, password: string, validator: Session -> bool, ghost trial: Trial)
      returns (outcome: Option<Result<bool>>)
      requires trial == TrialOf(jsoup, email, validator, username, password)
      modifies this`cookies, this`document, this`referrer, this`raw, transport
      ensures (outcome, WorldState()) == Pass(jsoup, userAgent, old(WorldState()), trial(old(WorldState()), form))
    {
      ghost var w := WorldState();
      var fields := LoginInputs(form, email);
      if fields.None? {
        return None;
      }
      var (usernameInput, passwordInput) := fields.value;
      ghost var a := TryForm(jsoup, email, validator, username, password, w, form).value;
      EnterCredentials(usernameInput, passwordInput, username, password);
      var backup := document;
      assert Snapshot() == Sending(a);
      ExchangedIsPerform(jsoup, userAgent, w, a);
      var ok := Execute(jsoup.submit(document, form));
      if !ok {
        return Some(Err(IOException));
      }
      if validator(Snapshot()) {
        return Some(Ok(true));
      }
      document := backup;
      return None;
    }

    /**
     * The loop of `login`: try the forms in order until one is accepted or a
     * submission fails; a rejected attempt leaves the filled document.
     */
    method TryForms(forms: seq<nat>, email: bool, username: string, password: string, validator: Session -> bool, ghost trial: Trial)
      returns (r: Result<bool>)
      requires trial == TrialOf(jsoup, email, validator, username, password)
      modifies this`cookies, this`document, this`referrer, this`raw, transport
      ensures var run := LoginFrom(trial, jsoup, userAgent, old(WorldState()), forms);
        r == run.outcome && WorldState() == run.world
    {
      ghost var run := LoginFrom(trial, jsoup, userAgent, WorldState(), forms);
      ghost var log: seq<Attempt> := [];
      for i := 0 to |forms|
        invariant run == Resumed(log, LoginFrom(trial, jsoup, userAgent, WorldState(), forms[i..]))
      {
        var form := forms[i];
        assert forms[i..][0] == form && forms[i..][1..] == forms[i + 1..];
        ghost var w := WorldState();
        ghost var t := trial(w, form);
        LoginFromStep(trial, jsoup, userAgent, w, forms[i..], log);
        var outcome := TryLogin(form, email, username, password, validator, trial);
        if outcome.Some? {
          return outcome.value;
        }
        log := log + Logged(t);
      }
      return Ok(false);
    }

    /**
     * `login(username, password, validator)`: throttle, then try the forms
     * of the page in document order: fill the username and password fields
     * of a form that has both, submit it, and ask the validator; restore the
     * filled document after a rejection.
     */
    method Login(username: string, password: string, validator: Session -> bool, now: int) returns (r: Result<bool>)
      modifies this`cookies, this`document, this`referrer, this`raw, this`lastExecution, transport
      ensures lastExecution == now + Delay(minimumTimeout, old(lastExecution), now)
      ensures var run := LoginFrom(TrialOf(jsoup, isValidEmail(username), validator, username, password), jsoup, userAgent,
                                   old(WorldState()), Select(jsoup, old(document), None, Tag("form")));
        r == run.outcome && WorldState() == run.world
    {
      var slept := HandleTimeout(now);
      var forms := Select(jsoup, document, None, Tag("form"));
      var email := isValidEmail(username);
      r := TryForms(forms, email, username, password, validator, TrialOf(jsoup, email, validator, username, password));
    }
  }

}
