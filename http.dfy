/** What the handlers exchange with the HTTP server: the two request fields
    the routing looks at and the responses the handlers build. */
module Http {

  /** `req.method` (as `verb`) and `req.url` of a `ServerRequest`. */
  datatype Request = Request(verb: string, url: string)

  /** A response body: a text encoded as UTF-8, or the embedded upload page. */
  datatype Body = Text(text: string) | IndexPage

  datatype Response = Response(status: int, body: Body)
}
