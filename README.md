# JsoupBrowser, modelled in Dafny

A model of the interaction engine of Themistokles' `JsoupBrowser`. This is
a headless browser session over an HTML library and an HTTP client. It
holds a cookie jar, the current document, the referrer and the raw body of
the last response. It offers these operations:

- `click(string, exact)` resolves a loosely given target to an element and
  acts on it. The layers tried are id, then `name`, then own text, then
  CSS selector. The action is submit, toggle, follow a link, or climb to
  the parent.
- `clickLink`: text match first; the selector is used only when no text
  matches.
- `contains`.
- `executeForm` fills the first form in document order that takes every
  binding, then submits it.
- `login` tries the forms that offer a username and a password field,
  rolling the document back after each rejected attempt.
- `get` and the request-commit step `execute`.
- The count-based `compareTo` operators that decide whether a form has
  enough fields.

The model is laid out as follows.

- `Dom`: the document as a value, its elements in document order, each
  naming its parent by position.
  - A parent always precedes its children, which makes every climb towards
    the root terminate.
  - `Toggle` and `Val` are the in-place edits the browser makes.
- `Jsoup`: the query layer.
  - How the library matches text, regular expressions and selectors, and
    how it builds `text()`, `absUrl` and `FormElement.submit()`, are
    functions bundled in `Html`.
  - A selection is every matching element of the scope, in document order,
    without repetitions. A jsoup document is itself an element, `#root`.
    The model has no node for it, so a selection over the whole document
    never contains it (see "## Left out").
- `Http`: the HTTP client, a class holding the log of requests sent and a
  scripted list of replies. A request made after the script has run out
  fails. A reply is one of three things:
  - a response;
  - a response whose body cannot be parsed, of which only its cookies and
    final URL are taken;
  - an I/O failure.
- `State`: the session, the cookie merge and `execute` as the function
  `Perform` on the session and the transport. `execute` merges the cookies
  and sets the referrer before it parses the body. So an unparsable
  response leaves those two updated and then raises `IOException`.
- `Resolution`: the target chain of `click`, the dispatch table of
  `click(Element)`, `clickLink` and `contains`, as functions.
- `Forms`: the candidate fields, the unique-match resolution, the filling
  of one form and the search over all forms, as functions.
- `Login`: the field lookup, the attempts and the trial-and-rollback loop
  of `login`, as functions.
- `JsoupBrowser`: the class `JsoupBrowser` with the session fields
  `cookies`, `document`, `referrer` and `raw`, plus `minimumTimeout` and
  `lastExecution`.
  - Each operation is a method that updates those fields and the
    transport.
  - Each is proved equal to the functional description in the modules
    above. The properties are proved about those descriptions.
  - The loops of `executeForm` and `login` are methods with loop
    invariants. Their bodies are split into one method per nesting level:
    - `FillInputs`: the bindings of one form.
    - `FormPass`: one form of `executeForm`.
    - `SearchForms`: all forms of `executeForm`.
    - `LoginInputs`: the field lookup of `login`.
    - `TryLogin`: one form of `login`.
    - `TryForms`: all forms of `login`.

These Kotlin exceptions are modelled, and each becomes an `Err` result:

- `IOException` from the transport;
- `NoSuchElement` from `first { ... }` when a submit button has no form
  ancestor;
- `NullPointer` when the climb of `click(Element)` leaves an element that
  has no parent.

The code behaves as follows in these places, in some of them against its
own KDoc comments. The model follows the code:

- **Toggle test.** A checkbox or option counts as set only when its
  attribute's value equals the attribute's name (`attr("checked") ==
  "checked"`). "Present" is not enough.
  - A bare `checked` attribute (value "") is therefore toggled to
    `checked="checked"`, and the box stays checked.
  - So a double click restores the original state only when the attribute
    was absent or held its own name. `Dom.ToggleOfBareAttribute` shows the
    other case.
  - The comments at JsoupBrowser.kt:96 and :105 promise to "invert its
    state". The tests at :97 and :106 compare the value instead.
- **Climb past a parentless element.** The code raises. It does not
  return false.
- **Listed twice.** The candidate list of `executeForm` is a list. An
  input or textarea that carries a `role` attribute appears twice, so
  `singleOrNull` never picks it.
- **Abandoned values stay.** Values are given as each binding resolves. A
  form abandoned at a later binding keeps the values already given, and
  the next form sees them.
- **Text test.** The text test of a binding looks at the element's full
  `text()`, not its own text.
- **Rollback target.** In `login`, the document restored after a
  rejection is the filled one. The backup is taken after the username and
  password were entered. Cookies and referrer keep the values of the
  rejected exchange.
- **`exact` in `click`.** `click(string, exact)` does not use `exact`. The
  KDoc at JsoupBrowser.kt:52 says it is used for the text match. The text
  query at :63 is always a containment test.

## Model

| member | source | states |
|---|---|---|
| Common.Count | src/main/java/de/codebot/silverhazard/themistokles/Common.kt:12 | counting a collection one element at a time gives its length |
| Common.IterableCompareTo | src/main/java/de/codebot/silverhazard/themistokles/Common.kt:12 | the comparison of two iterables is the difference of their element counts |
| Common.ArrayCompareTo | src/main/java/de/codebot/silverhazard/themistokles/Common.kt:17 | the comparison of an array with an iterable is the difference of their counts, so `inputs > inputElements` holds exactly when there are more bindings than candidates; the method `FormPass` uses this overload, while the pure `Forms.FormStep` compares the binding sequence through `Common.IterableCompareTo`, whose value is the same difference |
| Common.IterableCompareToArray | src/main/java/de/codebot/silverhazard/themistokles/Common.kt:22 | the comparison of an iterable with an array is the difference of their counts |
| Common.IterableCompareToAntisymmetric | src/main/java/de/codebot/silverhazard/themistokles/Common.kt:12 | swapping the operands negates the result, so it is 0 exactly when the counts agree |
| Common.MixedCompareToAntisymmetric | src/main/java/de/codebot/silverhazard/themistokles/Common.kt:17-22 | the array/iterable overload is the negation of the iterable/array overload with the operands swapped |
| Dom.NearestAncestor | src/main/java/de/codebot/silverhazard/themistokles/jsoup/JsoupBrowser.kt:87 | the result is a proper ancestor with the tag and no closer ancestor has it; when there is none, no ancestor has the tag |
| Dom.Toggle | src/main/java/de/codebot/silverhazard/themistokles/jsoup/JsoupBrowser.kt:95-111 | only the one attribute of the one element changes: removed when it held its own name, set to its own name otherwise |
| Dom.ToggleTwice | src/main/java/de/codebot/silverhazard/themistokles/jsoup/JsoupBrowser.kt:95-111 | toggling twice restores the document when the attribute was absent or held its own name |
| Dom.ToggleOfBareAttribute | src/main/java/de/codebot/silverhazard/themistokles/jsoup/JsoupBrowser.kt:97-100 | a bare attribute (value "") stays set after one toggle and is removed by a second, so the double toggle changes the document |
| Dom.Val | src/main/java/de/codebot/silverhazard/themistokles/jsoup/JsoupBrowser.kt:249 | `val(v)` writes the text of a textarea and the `value` attribute of any other element, and changes nothing else |
| Jsoup.Select | src/main/java/de/codebot/silverhazard/themistokles/jsoup/JsoupBrowser.kt:217 | a selection holds exactly the matching elements of the scope, in increasing document order, and its head is the first match |
| Jsoup.SelectOnce | src/main/java/de/codebot/silverhazard/themistokles/jsoup/JsoupBrowser.kt:225-227 | a selection lists every selected element exactly once and nothing else |
| Jsoup.SelectLength | src/main/java/de/codebot/silverhazard/themistokles/jsoup/JsoupBrowser.kt:225-227 | the size of a selection is the number of elements that match |
| Http.Transport.Exchange | src/main/java/de/codebot/silverhazard/themistokles/jsoup/JsoupBrowser.kt:192 | the request is logged and answered by the next scripted reply, or fails when the script is exhausted |
| State.Merge | src/main/java/de/codebot/silverhazard/themistokles/jsoup/JsoupBrowser.kt:196 | `putAll` keeps every key of the jar, adds every incoming key, and the incoming value wins |
| State.Commit | src/main/java/de/codebot/silverhazard/themistokles/jsoup/JsoupBrowser.kt:196-201 | after a response the old cookie names persist, the response's cookies hold its values, and referrer, document and raw body all come from that response |
| State.RequestFor | src/main/java/de/codebot/silverhazard/themistokles/jsoup/JsoupBrowser.kt:184 | the request carries the connection, the session's jar and referrer and the browser's user agent |
| State.Perform | src/main/java/de/codebot/silverhazard/themistokles/jsoup/JsoupBrowser.kt:180-202 | one request carrying jar, user agent and referrer goes out and one reply is consumed; the call succeeds exactly when the reply was parsed, and then the session is committed; an unparsable reply merges its cookies and sets the referrer to its URL but keeps document and raw body; a failure leaves the session untouched |
| State.CookiesPersist | src/main/java/de/codebot/silverhazard/themistokles/jsoup/JsoupBrowser.kt:194-201 | over any run of replies, parsed, unparsable or failed, a cookie name never leaves the jar, and keeps its value while no reply sets it |
| Resolution.SelectEmpty | src/main/java/de/codebot/silverhazard/themistokles/jsoup/JsoupBrowser.kt:166 | a selection is empty exactly when no element of the scope matches |
| Resolution.ClickTarget | src/main/java/de/codebot/silverhazard/themistokles/jsoup/JsoupBrowser.kt:59-65 | the first id match whenever one exists; the first name match only when there is no id match; then own text; then the selector; nothing exactly when all four are empty |
| Resolution.LinkCandidates | src/main/java/de/codebot/silverhazard/themistokles/jsoup/JsoupBrowser.kt:141-152 | all elements matching the anchored pattern (exact) or the containment test, in document order; the selector matches only when there is no text match; empty exactly when both are |
| Resolution.LinkTextMatches | src/main/java/de/codebot/silverhazard/themistokles/jsoup/JsoupBrowser.kt:143-148 | with `exact` an element matches when its own text matches the anchored pattern `^target$`; without it, when its own text contains the target |
| Resolution.PageContains | src/main/java/de/codebot/silverhazard/themistokles/jsoup/JsoupBrowser.kt:165-167 | true exactly when some element's text contains the string or it selects some element |
| Resolution.Dispatch | src/main/java/de/codebot/silverhazard/themistokles/jsoup/JsoupBrowser.kt:79-125 | the climb stops at the nearest ancestor-or-self that is not plain, every element passed over is plain, and it ends without a decision only at a parentless element |
| Resolution.Classify | src/main/java/de/codebot/silverhazard/themistokles/jsoup/JsoupBrowser.kt:81-113 | the click stops exactly at html, head and body; it raises exactly for a button or submit input without a form ancestor; a submission goes to a `form` that is the element or its ancestor, the element itself exactly when it is not a button or submit input; a flip is of `checked` on a checkbox or of `selected` on an option; a link followed has an `href` and is neither a submitter nor a checkbox |
| Resolution.ClickEffect | src/main/java/de/codebot/silverhazard/themistokles/jsoup/JsoupBrowser.kt:79-125 | at most one request goes out, after those already sent; without a request the jar, referrer and transport are unchanged; an answer of false and the two raised errors change nothing; a true answer that sent a request had its reply parsed |
| Resolution.ClickSends | src/main/java/de/codebot/silverhazard/themistokles/jsoup/JsoupBrowser.kt:85-125 | for the element the climb reaches: a link sends a request for its absolute `href`; a form submits itself; a button or submit input submits its nearest form; a checkbox or option is toggled with no request and the answer true |
| Resolution.ClickFalseOnlyAtRoot | src/main/java/de/codebot/silverhazard/themistokles/jsoup/JsoupBrowser.kt:80-82 | the click answers false exactly when the climb ends at html, head or body, and then changes nothing |
| Resolution.ClickSubmitter | src/main/java/de/codebot/silverhazard/themistokles/jsoup/JsoupBrowser.kt:85-89 | a button or submit input submits its nearest form ancestor; without one the click raises NoSuchElement and changes nothing |
| Resolution.DispatchSameView | src/main/java/de/codebot/silverhazard/themistokles/jsoup/JsoupBrowser.kt:79-120 | the dispatch depends only on tags, parents, `type` attributes and the presence of `href` |
| Resolution.ClickToggleTwice | src/main/java/de/codebot/silverhazard/themistokles/jsoup/JsoupBrowser.kt:95-111 | a checkbox or option click toggles the attribute, issues no request and answers true; a second click on the same element restores the whole session and transport state |
| Forms.SingleOrNull | src/main/java/de/codebot/silverhazard/themistokles/jsoup/JsoupBrowser.kt:239-241 | an element is given exactly when one position of the list passes the test, and it passes the test |
| Forms.ListedTwiceIsAmbiguous | src/main/java/de/codebot/silverhazard/themistokles/jsoup/JsoupBrowser.kt:239-241 | an element listed twice that passes the test makes `singleOrNull` give nothing |
| Forms.Candidates | src/main/java/de/codebot/silverhazard/themistokles/jsoup/JsoupBrowser.kt:225-230 | every candidate lies in the form's subtree |
| Forms.CandidatesMultiplicity | src/main/java/de/codebot/silverhazard/themistokles/jsoup/JsoupBrowser.kt:225-230 | the list holds an element of the form once for each of the three kinds it has (input, textarea, `role` carrier), and holds nothing else |
| Forms.CandidatesLength | src/main/java/de/codebot/silverhazard/themistokles/jsoup/JsoupBrowser.kt:225-232 | the length the skip test compares is the sum of those listings over the form's elements |
| Forms.CandidatesCover | src/main/java/de/codebot/silverhazard/themistokles/jsoup/JsoupBrowser.kt:225-230 | every input, textarea and `role`-carrying element of the form is a candidate |
| Forms.RoleFieldIsAmbiguous | src/main/java/de/codebot/silverhazard/themistokles/jsoup/JsoupBrowser.kt:225-241 | an input or textarea with a `role` attribute is never resolved through the candidate list |
| Forms.ResolveBinding | src/main/java/de/codebot/silverhazard/themistokles/jsoup/JsoupBrowser.kt:239-244 | a resolved element is a candidate, or an element of the form matched by the name as a selector |
| Forms.ResolveBindingOrder | src/main/java/de/codebot/silverhazard/themistokles/jsoup/JsoupBrowser.kt:239-244 | a unique id match wins, else a unique name match, else a unique text match; otherwise an element results exactly when the selector matches exactly one element of the form |
| Forms.FillForm | src/main/java/de/codebot/silverhazard/themistokles/jsoup/JsoupBrowser.kt:234-250 | filling keeps the tree and changes only elements inside the form |
| Forms.FillPrefix | src/main/java/de/codebot/silverhazard/themistokles/jsoup/JsoupBrowser.kt:246-249 | applying the first j bindings keeps the tree and the candidates |
| Forms.FillFormFlag | src/main/java/de/codebot/silverhazard/themistokles/jsoup/JsoupBrowser.kt:234-250 | the form is filled exactly when every binding resolves on the document the earlier ones left, and the result is then all bindings applied in order |
| Forms.FillFormStops | src/main/java/de/codebot/silverhazard/themistokles/jsoup/JsoupBrowser.kt:246-247 | at the first binding that does not resolve, filling stops with the earlier bindings' values left in the document |
| Forms.FillFormWrites | src/main/java/de/codebot/silverhazard/themistokles/jsoup/JsoupBrowser.kt:246-249 | after a complete filling, every binding's element holds the binding's value unless a later binding resolved to the same element |
| Forms.FillFormUntouched | src/main/java/de/codebot/silverhazard/themistokles/jsoup/JsoupBrowser.kt:246-249 | an element no binding resolves to is left as it was |
| Forms.AbandonedValuesStay | src/main/java/de/codebot/silverhazard/themistokles/jsoup/JsoupBrowser.kt:246-249 | when the first binding resolves and the second does not, the form is abandoned with the first value left in the document |
| Forms.FormStep | src/main/java/de/codebot/silverhazard/themistokles/jsoup/JsoupBrowser.kt:225-250 | a form with fewer candidates than bindings is skipped untouched; otherwise it is filled from its candidates; any pass keeps the tree and changes only the form's elements |
| Forms.FormStepFits | src/main/java/de/codebot/silverhazard/themistokles/jsoup/JsoupBrowser.kt:225-250 | a form fits exactly when it has at least as many candidates as bindings and every binding resolves in turn; a fitting form holds all bindings applied in order |
| Forms.FormStepKeepsShape | src/main/java/de/codebot/silverhazard/themistokles/jsoup/JsoupBrowser.kt:234-250 | the step of `executeForm` keeps every document's tree and is confined to the form it fills |
| Forms.SearchWith | src/main/java/de/codebot/silverhazard/themistokles/jsoup/JsoupBrowser.kt:219-255 | a submitted form is one of the listed forms |
| Forms.FormSearch | src/main/java/de/codebot/silverhazard/themistokles/jsoup/JsoupBrowser.kt:219-255 | the search of `executeForm` keeps the tree and submits, if anything, one of the listed forms |
| Forms.SearchFirstFit | src/main/java/de/codebot/silverhazard/themistokles/jsoup/JsoupBrowser.kt:219-255 | the submitted form is the first in document order whose bindings all resolve, on the document the earlier forms left; nothing is submitted exactly when no form fits, after every form was visited |
| Forms.FirstFitUnique | src/main/java/de/codebot/silverhazard/themistokles/jsoup/JsoupBrowser.kt:219-253 | any first fitting form is the one the search submits, with the document its filling left |
| Forms.SearchFrame | src/main/java/de/codebot/silverhazard/themistokles/jsoup/JsoupBrowser.kt:219-253 | every changed element lies in a form visited up to the submitted one; no later form is touched |
| Login.Inputs | src/main/java/de/codebot/silverhazard/themistokles/jsoup/JsoupBrowser.kt:298 | exactly the input elements of the form's subtree |
| Login.UsernameField | src/main/java/de/codebot/silverhazard/themistokles/jsoup/JsoupBrowser.kt:300-311 | the unique `email` input when the username is an email address and there is one; otherwise the unique `text` input, and nothing when there is none |
| Login.PasswordField | src/main/java/de/codebot/silverhazard/themistokles/jsoup/JsoupBrowser.kt:314-316 | the unique `password` input, or nothing exactly when there is not exactly one |
| Login.LoginFields | src/main/java/de/codebot/silverhazard/themistokles/jsoup/JsoupBrowser.kt:295-316 | a form offers fields exactly when both lookups succeed, and then they are the username field and the password field; the two are distinct inputs of the form, the second of type `password` |
| Login.Filled | src/main/java/de/codebot/silverhazard/themistokles/jsoup/JsoupBrowser.kt:318-320 | the username and password land in the two fields' `value`; their own text, their other attributes and every other element stay as they were, and no `type` changes |
| Login.TryForm | src/main/java/de/codebot/silverhazard/themistokles/jsoup/JsoupBrowser.kt:295-328 | an attempt is answered by the next reply, its session afterwards is the committed response, and its verdict is the validator's opinion of that session |
| Login.TryFormRecorded | src/main/java/de/codebot/silverhazard/themistokles/jsoup/JsoupBrowser.kt:295-328 | a form is tried exactly when it offers both fields, and the attempt holds the form filled with username and password |
| Login.ExchangedIsPerform | src/main/java/de/codebot/silverhazard/themistokles/jsoup/JsoupBrowser.kt:326 | the exchange of an attempt is `execute` of the filled form's submission on the filled session, whatever the reply |
| Login.PassEffect | src/main/java/de/codebot/silverhazard/themistokles/jsoup/JsoupBrowser.kt:322-332 | a skipped form changes nothing; an attempted one sends its submission and consumes a reply; the pass returns true exactly when the validator accepted a parsed reply, raises exactly when the reply was not parsed, and otherwise continues from the received session with the filled document |
| Login.TrialOfFacts | src/main/java/de/codebot/silverhazard/themistokles/jsoup/JsoupBrowser.kt:290-333 | the trial of `login` answers for the world it is given, records its attempts faithfully and tries exactly the forms with both fields |
| Login.LoginVerdicts | src/main/java/de/codebot/silverhazard/themistokles/jsoup/JsoupBrowser.kt:326-334 | true exactly when the last attempt was delivered and accepted, an I/O error when its exchange failed, false otherwise; every earlier attempt was delivered and rejected |
| Login.LoginChain | src/main/java/de/codebot/silverhazard/themistokles/jsoup/JsoupBrowser.kt:322-333 | each attempt starts from the previous one rolled back to its filled document with the rejected exchange's cookies and referrer; the final session is the start, the last rollback, or the last exchange's session |
| Login.LoginRecorded | src/main/java/de/codebot/silverhazard/themistokles/jsoup/JsoupBrowser.kt:290-333 | every attempt of the loop has what each single pass guarantees |
| Login.LoginTraffic | src/main/java/de/codebot/silverhazard/themistokles/jsoup/JsoupBrowser.kt:326 | one request per attempt goes out, the submission of its filled form, and the k-th attempt is answered by the k-th scripted reply |
| Login.LoginFieldsStable | src/main/java/de/codebot/silverhazard/themistokles/jsoup/JsoupBrowser.kt:295-316 | the fields found do not depend on anything but tags, parents and `type` attributes |
| Login.LoginOrder | src/main/java/de/codebot/silverhazard/themistokles/jsoup/JsoupBrowser.kt:290-334 | the validator is consulted once per submitted form, and those forms are a prefix, in document order, of the forms with both fields; all of them when the login answers false |
| Login.FilledTypeView | src/main/java/de/codebot/silverhazard/themistokles/jsoup/JsoupBrowser.kt:318-320 | filling a form changes no tag, parent or `type`, so later forms offer the same fields |
| JsoupBrowser.Delay | src/main/java/de/codebot/silverhazard/themistokles/jsoup/JsoupBrowser.kt:33-41 | after the sleep the minimum timeout has passed since the last execution, and a non-zero sleep ends exactly at that moment |
| JsoupBrowser.DelayIsShortest | src/main/java/de/codebot/silverhazard/themistokles/jsoup/JsoupBrowser.kt:37-38 | any shorter sleep would end before the minimum timeout has passed |
| JsoupBrowser.JsoupBrowser.Unloaded | src/main/java/de/codebot/silverhazard/themistokles/jsoup/JsoupBrowser.kt:14-20 | a new browser has an empty jar, the initial referrer, no page and the configured user agent and minimum timeout |
| JsoupBrowser.JsoupBrowser.Open | src/main/java/de/codebot/silverhazard/themistokles/jsoup/JsoupBrowser.kt:14-25 | construction loads the initial page from the empty session; it raises an I/O error exactly when that exchange fails; the clock of the last execution starts afterwards |
| JsoupBrowser.JsoupBrowser.HandleTimeout | src/main/java/de/codebot/silverhazard/themistokles/jsoup/JsoupBrowser.kt:33-41 | it sleeps the remaining part of the minimum timeout and records the time after the sleep |
| JsoupBrowser.JsoupBrowser.Execute | src/main/java/de/codebot/silverhazard/themistokles/jsoup/JsoupBrowser.kt:180-202 | the fields and the transport change exactly as `State.Perform` says, including the cookies and referrer kept from an unparsable reply |
| JsoupBrowser.JsoupBrowser.Get | src/main/java/de/codebot/silverhazard/themistokles/jsoup/JsoupBrowser.kt:263 | a plain request for the URL is executed; an I/O failure is raised |
| JsoupBrowser.JsoupBrowser.ClickElement | src/main/java/de/codebot/silverhazard/themistokles/jsoup/JsoupBrowser.kt:79-125 | the result and the new state are those of `Resolution.ClickEffect`, the dispatch after climbing |
| JsoupBrowser.JsoupBrowser.Click | src/main/java/de/codebot/silverhazard/themistokles/jsoup/JsoupBrowser.kt:56-68 | false without any change when no target resolves, else the effect of clicking `Resolution.ClickTarget`'s element; the clock is throttled |
| JsoupBrowser.JsoupBrowser.ClickLink | src/main/java/de/codebot/silverhazard/themistokles/jsoup/JsoupBrowser.kt:138-157 | false without any change when there is no candidate, else the first candidate's absolute `href` is loaded |
| JsoupBrowser.JsoupBrowser.Contains | src/main/java/de/codebot/silverhazard/themistokles/jsoup/JsoupBrowser.kt:165-167 | true exactly when some element's text contains the string or it selects something |
| JsoupBrowser.JsoupBrowser.FillInputs | src/main/java/de/codebot/silverhazard/themistokles/jsoup/JsoupBrowser.kt:234-250 | the document and the flag are those of `Forms.FillForm` on the bindings |
| JsoupBrowser.JsoupBrowser.FormPass | src/main/java/de/codebot/silverhazard/themistokles/jsoup/JsoupBrowser.kt:225-250 | the document and the flag are those of the step of `executeForm` on the form |
| JsoupBrowser.JsoupBrowser.SearchForms | src/main/java/de/codebot/silverhazard/themistokles/jsoup/JsoupBrowser.kt:219-253 | the document and the chosen form are those of `Forms.SearchWith` |
| JsoupBrowser.JsoupBrowser.ExecuteForm | src/main/java/de/codebot/silverhazard/themistokles/jsoup/JsoupBrowser.kt:214-256 | false with no request sent when no form fits, the filled values staying; otherwise the first fitting form (`Forms.SearchFirstFit`) is submitted |
| JsoupBrowser.JsoupBrowser.LoginInputs | src/main/java/de/codebot/silverhazard/themistokles/jsoup/JsoupBrowser.kt:295-316 | the fields found are `Login.LoginFields` of the form |
| JsoupBrowser.JsoupBrowser.EnterCredentials | src/main/java/de/codebot/silverhazard/themistokles/jsoup/JsoupBrowser.kt:318-320 | the document becomes `Login.Filled` of the two fields |
| JsoupBrowser.JsoupBrowser.TryLogin | src/main/java/de/codebot/silverhazard/themistokles/jsoup/JsoupBrowser.kt:295-332 | the outcome and the new state are `Login.Pass` of the attempt on the form |
| JsoupBrowser.JsoupBrowser.TryForms | src/main/java/de/codebot/silverhazard/themistokles/jsoup/JsoupBrowser.kt:290-334 | the result and the final state are those of `Login.LoginFrom` over the forms |
| JsoupBrowser.JsoupBrowser.Login | src/main/java/de/codebot/silverhazard/themistokles/jsoup/JsoupBrowser.kt:285-335 | the result and the final state are those of `Login.LoginFrom` over the page's forms, in document order; the clock is throttled |

## Left out

- HTTP transport. `Jsoup.connect` and `request.execute` are the scripted oracle `Http.Transport`. Request flags are not modelled, because they only configure the client: `ignoreHttpErrors`, `ignoreContentType`, `timeout(0)` and `followRedirects(true)`. The `overrideRedirectPolicy` parameter is always true at its call sites.
- Invalid URLs. `Jsoup.connect` rejects a malformed or empty URL with `IllegalArgumentException`, and so can an element whose `absUrl("href")` is empty. This is not modelled, because URL validation belongs to the library. Every request reaches the transport.
- HTML parsing, selector semantics, regular expressions, `text()` normalisation, `absUrl` and `FormElement.submit()` belong to the library. They are the abstract functions of `Jsoup.Html`. The regular expression of `clickLink` is built from the unescaped target, as in the code.
- `isValidEmail` delegates to an external validator library. It is the abstract function `isValidEmail` of the browser.
- Clocks. `System.currentTimeMillis()` and `Thread.sleep` are not modelled, because they are the wall clock. The clock is a parameter `now` of every throttled operation. The second clock reading is taken as `now` plus the time slept.
- JsoupBrowser.JsoupBrowser.Open: `lastExecution` is initialised after the initial `get`, as the field initialiser runs after `init`; the clock value of that moment is the parameter `now`.
- Integer width. `minimumTimeout` is an `Int`, the clock a `Long` and `count()` an `Int`. All are unbounded here, because overflow needs times and collections far beyond any session.
- The validator of `login` gets the session (jar, document, referrer, raw body) as a `Session -> bool`. It therefore cannot call back into the browser or change it, and it raises nothing.
- Kotlin type tests are read by tag. Every `form` element is taken to be a `FormElement`, so the unused `continue` branches for non-`FormElement` forms are not modelled. `element is FormElement` in `click(Element)` is the tag test `form`.
- Aliasing. The jsoup tree is mutable and `backup` aliases it. Here the document is a value that each edit replaces. After `execute` the browser holds a fresh parsed document, so the value and the aliased object agree on everything the browser reads.
- `shutdown` is a no-op, and the `Browser` interface declares methods only. `getPageContentAsString` is the function `PageContent`, which returns `raw` and has no contract of its own.
- Concurrency. A browser is used by one thread.
- The document node `#root`. jsoup's `Document` is itself an element. Whole-document queries test it too: `select`, `getElementsContainingOwnText` and `getElementsMatchingOwnText` (JsoupBrowser.kt:63-64, :145-151), and `getElementsContainingText` (:166). It comes first in document order. The tree of the model starts at the `html` element, so these members take the first matching element of that tree instead: Resolution.ClickTarget, Resolution.LinkCandidates, Resolution.PageContains, JsoupBrowser.JsoupBrowser.Click and JsoupBrowser.JsoupBrowser.ClickLink.
  - For example, `click("*")`, with no element whose id, name or own text matches `*`, takes `#root` in the code. That node is not html, head or body and has no `href`, so the climb passes on its null parent and the click raises a null-pointer exception. The model takes `html` instead and answers false.
  - Likewise, a selector fallback of `clickLink` that matches `#root` requests its empty `href`, which the library rejects. The model requests the `href` of the first matching element of the tree.
  - The `NullPointer` case of `click(Element)` is reached in the model only by a parentless element other than html, head or body, which a parser does not produce.
  - `PageContains` differs only for a selector that matches `#root` and no element of the tree. The text test is not affected, because `#root` holds the same text as the `html` element that the parser places under it.
- Query-layer exceptions. Only the exceptions listed above are modelled. The following are left out, because their conditions belong to the library: a `Selector.SelectorParseException` from `select` with a string that is not a valid CSS selector (JsoupBrowser.kt:64, :151, :166, :244); the exception `getElementsMatchingOwnText` raises when the target makes `^target$` an invalid regular expression (:145); and the validation exception that `getElementById` and `getElementsByAttributeValue` raise for an empty key (:61-62). In the model these queries are total functions: `click("")` gives an element or false instead of raising, and `contains` of a string that is not a selector is decided by the library's `selects` function instead of raising.
- Login.LoginFrom and Login.Pass carry no contract of their own, because it would make the loop proofs of `TryForms` too costly. What they do is stated about them in `Login.LoginVerdicts`, `Login.LoginChain`, `Login.LoginTraffic`, `Login.LoginRecorded`, `Login.LoginOrder` and `Login.PassEffect`.
- Forms.ResolveBinding: its own contract only says that the result is a candidate or a selector match. The order of preference and the uniqueness requirement are stated in `Forms.ResolveBindingOrder`.
- Forms.SearchWith: its own contract only bounds the chosen position. First fit, shape and frame are stated in `Forms.SearchFirstFit`, `Forms.SearchKeepsShape` and `Forms.SearchFrame`.
- Dom.ToggleTwice: restoration is proved only when the attribute was absent or held its own name. The code does not restore a bare attribute, as `Dom.ToggleOfBareAttribute` shows.
- Resolution.ClickToggleTwice: the same restriction applies, for the same reason.
- Common.IterableCompareTo, Common.ArrayCompareTo and Common.IterableCompareToArray do not model Kotlin's `Int` subtraction wrap-around, because that needs collections of more than 2^31 elements.
