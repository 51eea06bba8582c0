/**
 * The HTTP collaborator: it receives a fully configured request and answers
 * with a response or fails with an I/O error.
 *
 * The network is a scripted oracle: `pending` holds the outcomes it will give,
 * in order, and `sent` records every request it was handed. A request made
 * after the script has run out fails.
 */
module Http {
  import opened Dom
  import opened Jsoup

  /** What `execute` hands to the transport: the connection with the session's cookies, user agent and referrer attached. */
  datatype Request = Request(connection: Connection, cookies: map<string, string>, userAgent: string, referrer: string)

  /** A response: its cookies, its final (post-redirect) URL, the parsed page and the raw body. */
  datatype Response = Response(cookies: map<string, string>, url: string, document: Doc, body: string)

  /**
   * What one exchange yields: a response; a response whose body the HTML
   * library could not parse (`response.parse()` raised), of which only the
   * cookies and the final URL were taken; or an I/O failure of the request.
   */
  datatype Reply =
    | Delivered(response: Response)
    | Unparsable(cookies: map<string, string>, url: string)
    | Failed

  /** The outcome the transport gives next. */
  function NextReply(pending: seq<Reply>): Reply {
    if pending == [] then Failed else pending[0]
  }

  /** The script left after one exchange. */
  function AfterReply(pending: seq<Reply>): seq<Reply> {
    if pending == [] then [] else pending[1..]
  }

  class Transport {
    var sent: seq<Request>
    var pending: seq<Reply>

    constructor (script: seq<Reply>)
      ensures sent == [] && pending == script
    {
      sent := [];
      pending := script;
    }

    /** `request.execute()`. */
    method Exchange(request: Request) returns (reply: Reply)
      modifies this
      ensures sent == old(sent) + [request]
      ensures reply == NextReply(old(pending)) && pending == AfterReply(old(pending))
    {
      sent := sent + [request];
      reply := NextReply(pending);
      pending := AfterReply(pending);
    }
  }

}
