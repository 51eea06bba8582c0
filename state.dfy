/**
 * The session state of one browser and the request-commit step `execute`
 * (JsoupBrowser.kt:180-202) as a function of that state.
 */
module State {
  import opened Dom
  import opened Jsoup
  import opened Http

  /** The exceptions the browser's operations let escape. */
  datatype Fault =
    | IOException    // the transport failed
    | NoSuchElement  // `first { ... }` found no form ancestor of a submit button
    | NullPointer    // the climb of `click(Element)` left the last element

  /** The result of a public operation: a value, or the exception it raises. */
  datatype Result<T> = Ok(value: T) | Err(fault: Fault)

  /** What a validator sees of the browser: cookie jar, current document, referrer, raw body. */
  datatype Session = Session(cookies: map<string, string>, document: Doc, referrer: string, raw: string)

  /** The session together with the transport's log and script. */
  datatype World = World(session: Session, sent: seq<Request>, pending: seq<Reply>)

  /** `cookies.putAll(incoming)`: additive, and the incoming value wins. */
  function Merge(jar: map<string, string>, incoming: map<string, string>): (r: map<string, string>)
    ensures r.Keys == jar.Keys + incoming.Keys
    ensures forall k :: k in incoming ==> r[k] == incoming[k]
    ensures forall k :: k in jar && k !in incoming ==> r[k] == jar[k]
  {
    jar + incoming
  }

  /** The session after a successful exchange: cookies merged, the rest taken from the one response. */
  function Commit(s: Session, response: Response): (t: Session)
    ensures s.cookies.Keys <= t.cookies.Keys
    ensures forall k :: k in response.cookies ==> k in t.cookies && t.cookies[k] == response.cookies[k]
    ensures forall k :: k in s.cookies && k !in response.cookies ==> t.cookies[k] == s.cookies[k]
    ensures t.referrer == response.url && t.document == response.document && t.raw == response.body
  {
    Session(Merge(s.cookies, response.cookies), response.document, response.url, response.body)
  }

  /**
   * The session after an exchange: committed after a response; after an
   * unparsable one only the cookie merge and the referrer, which `execute`
   * performs before parsing, have happened; unchanged after a failure.
   */
  function Received(s: Session, reply: Reply): Session {
    match reply
    case Delivered(response) => Commit(s, response)
    case Unparsable(cookies, url) => s.(cookies := Merge(s.cookies, cookies), referrer := url)
    case Failed => s
  }

  /** The request `execute` builds from a connection and the session. */
  function RequestFor(s: Session, userAgent: string, c: Connection): (r: Request)
    ensures r.connection == c && r.cookies == s.cookies && r.userAgent == userAgent && r.referrer == s.referrer
  {
    Request(c, s.cookies, userAgent, s.referrer)
  }

  /**
   * `execute(request)`: one exchange; the session is committed only when the
   * transport delivered a response that parses. The flag says whether it
   * did; when it did not, the document and the raw body are unchanged.
   */
  function Perform(w: World, userAgent: string, c: Connection): (r: (World, bool))
    ensures r.0.sent == w.sent + [RequestFor(w.session, userAgent, c)]
    ensures r.0.pending == AfterReply(w.pending)
    ensures r.1 <==> NextReply(w.pending).Delivered?
    ensures r.1 ==> r.0.session == Commit(w.session, NextReply(w.pending).response)
    ensures !r.1 ==> r.0.session.document == w.session.document && r.0.session.raw == w.session.raw
    ensures NextReply(w.pending).Failed? ==> r.0.session == w.session
    ensures NextReply(w.pending).Unparsable? ==>
      && r.0.session.cookies == Merge(w.session.cookies, NextReply(w.pending).cookies)
      && r.0.session.referrer == NextReply(w.pending).url
  {
    var reply := NextReply(w.pending);
    var sent := w.sent + [RequestFor(w.session, userAgent, c)];
    (World(Received(w.session, reply), sent, AfterReply(w.pending)), reply.Delivered?)
  }

  /** The cookies a reply brings into the jar: those of a response, parsed or not, and none after a failure. */
  function Incoming(reply: Reply): map<string, string> {
    match reply
    case Delivered(response) => response.cookies
    case Unparsable(cookies, _) => cookies
    case Failed => map[]
  }

  /** The session after a run of exchanges, whatever each reply was. */
  function ReceivedAll(s: Session, replies: seq<Reply>): Session
    decreases |replies|
  {
    if replies == [] then s else ReceivedAll(Received(s, replies[0]), replies[1..])
  }

  /**
   * The jar only grows: a cookie name, once set, stays, and keeps its value
   * as long as no later reply sets it again.
   */
  lemma {:induction false} CookiesPersist(s: Session, replies: seq<Reply>, name: string)
    requires name in s.cookies
    ensures name in ReceivedAll(s, replies).cookies
    ensures (forall k :: 0 <= k < |replies| ==> name !in Incoming(replies[k])) ==>
      ReceivedAll(s, replies).cookies[name] == s.cookies[name]
    decreases |replies|
  {
    if replies != [] {
      var s1 := Received(s, replies[0]);
      assert s1.cookies == Merge(s.cookies, Incoming(replies[0]));
      CookiesPersist(s1, replies[1..], name);
      if forall k :: 0 <= k < |replies| ==> name !in Incoming(replies[k]) {
        assert name !in Incoming(replies[0]);
        assert forall k :: 0 <= k < |replies[1..]| ==> name !in Incoming(replies[1..][k]) by {
          forall k | 0 <= k < |replies[1..]| ensures name !in Incoming(replies[1..][k]) {
            assert replies[1..][k] == replies[k + 1];
          }
        }
      }
    }
  }

}
