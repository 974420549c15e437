/** The request handler of `main` and `serveFallback`: which handler a request
    reaches, and which status an exception escaping a handler is answered
    with. */
module Server {
  import opened Common
  import opened Http
  import opened Aggregator
  import opened Upload

  /** The only route that is not the upload page. */
  const UploadPath: string := "/api/uploadFile"

  /** The two handlers a request can reach. */
  datatype Handler = UploadHandler | IndexHandler

  /** The routing test: the URL must be exactly the upload path (no query
      string, same case) and the method exactly `POST`. */
  function Route(req: Request): (h: Handler)
    ensures h == UploadHandler <==> req.url == UploadPath && req.verb == "POST"
  {
    if req.url == UploadPath && req.verb == "POST" then UploadHandler else IndexHandler
  }

  /** The kinds of exception `serveFallback` tells apart. */
  datatype ThrownError =
    | UriError(message: string)        // a `URIError`
    | NotFound(message: string)        // a `Deno.errors.NotFound`
    | OtherError(message: string)      // anything else

  /** `serveFallback`: 400 for a malformed URI, 404 for a missing resource,
      500 for everything else; the exception's own message is never shown. */
  function ServeFallback(e: ThrownError): (r: Response)
    ensures r.status == 400 <==> e.UriError?
    ensures r.status == 404 <==> e.NotFound?
    ensures r.status == 500 <==> e.OtherError?
    ensures r.body == Text(match r.status
                           case 400 => "Bad Request"
                           case 404 => "Not Found"
                           case _ => "Internal server error")
  {
    match e
    case UriError(_) => Response(400, Text("Bad Request"))
    case NotFound(_) => Response(404, Text("Not Found"))
    case OtherError(_) => Response(500, Text("Internal server error"))
  }

  /** The fallback answers depend only on the kind of the exception and are
      never a success. */
  lemma FallbackIgnoresMessage(e: ThrownError, e': ThrownError)
    ensures ServeFallback(e).status != 200
    ensures (e.UriError? <==> e'.UriError?) && (e.NotFound? <==> e'.NotFound?)
            ==> ServeFallback(e) == ServeFallback(e')
  {
  }

  /** The request handler of `main`. Neither `serveUploadFile` (which catches
      everything it calls) nor `serveIndexHtml` throws, so the `catch` that
      calls `serveFallback` is never reached and every answer is a 200. */
  method Handle(req: Request, form: Outcome<seq<Byte>>, write: Outcome<()>, unzip: Unzipper,
                parse: Parser) returns (response: Response)
    ensures response.status == 200
    ensures Route(req) == UploadHandler ==>
      response.body == Text(UploadBody(form, write, unzip, parse))
    ensures Route(req) == IndexHandler ==> response.body == IndexPage
  {
    if req.url == UploadPath && req.verb == "POST" {
      response := ServeUploadFile(form, write, unzip, parse);
    } else {
      response := Response(200, IndexPage);
    }
  }

  /** Near misses of the upload route get the upload page. */
  lemma NearMissesGetIndex()
    ensures Route(Request("GET", UploadPath)) == IndexHandler
    ensures Route(Request("POST", "/api/uploadFile?x=1")) == IndexHandler
    ensures Route(Request("POST", "/api/uploadfile")) == IndexHandler
    ensures Route(Request("post", UploadPath)) == IndexHandler
    ensures Route(Request("POST", "/")) == IndexHandler
  {
  }
}
