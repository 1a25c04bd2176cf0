/**
 * The viewer-request function of function.js: it points a directory URI at
 * its index document and redirects to a pre-compressed copy of the object
 * when the client's accept-encoding header mentions br or gzip.
 */
module EdgeFunction {
  import opened Text

  /**
   * The request of a viewer-request event. Headers map a lower-case header
   * name to the header's value field.
   */
  class Request {
    var uri: string
    var httpMethod: string
    var headers: map<string, string>

    constructor (uri: string, httpMethod: string, headers: map<string, string>)
      ensures this.uri == uri && this.httpMethod == httpMethod && this.headers == headers
    {
      this.uri := uri;
      this.httpMethod := httpMethod;
      this.headers := headers;
    }
  }

  const AcceptEncoding := "accept-encoding"

  /** The header's value names Brotli, by a plain substring test. */
  predicate AcceptsBrotli(headers: map<string, string>)
    ensures AcceptsBrotli(headers) <==>
      AcceptEncoding in headers && exists i :: OccursAt(headers[AcceptEncoding], "br", i)
  {
    AcceptEncoding in headers && Contains(headers[AcceptEncoding], "br")
  }

  /** The header's value names gzip, by a plain substring test. */
  predicate AcceptsGzip(headers: map<string, string>)
    ensures AcceptsGzip(headers) <==>
      AcceptEncoding in headers && exists i :: OccursAt(headers[AcceptEncoding], "gzip", i)
  {
    AcceptEncoding in headers && Contains(headers[AcceptEncoding], "gzip")
  }

  /** A URI naming a directory is pointed at that directory's index.html. */
  function IndexAdjusted(uri: string): (u: string)
    ensures HasSuffix(uri, "/") ==> u == uri + "index.html"
    ensures !HasSuffix(uri, "/") ==> u == uri
    ensures !HasSuffix(u, "/")
  {
    if HasSuffix(uri, "/") then
      var u := uri + "index.html";
      assert u[|u| - 1] == 'l';
      u
    else uri
  }

  /** The suffix of the pre-compressed copy chosen from the headers: Brotli first, then gzip. */
  function EncodingSuffix(headers: map<string, string>): (suffix: string)
    ensures suffix in {"", ".br", ".gz"}
    ensures suffix == ".br" <==> AcceptsBrotli(headers)
    ensures suffix == ".gz" <==> !AcceptsBrotli(headers) && AcceptsGzip(headers)
  {
    if AcceptsBrotli(headers) then ".br"
    else if AcceptsGzip(headers) then ".gz"
    else ""
  }

  /**
   * The URI the handler leaves in the request: it starts with the
   * index-adjusted URI and ends with the chosen suffix, and holds nothing else.
   */
  function Rewrite(uri: string, headers: map<string, string>): (r: string)
    ensures |r| == |IndexAdjusted(uri)| + |EncodingSuffix(headers)|
    ensures r[..|IndexAdjusted(uri)|] == IndexAdjusted(uri)
    ensures HasSuffix(r, EncodingSuffix(headers))
  {
    var u, suffix := IndexAdjusted(uri), EncodingSuffix(headers);
    assert (u + suffix)[..|u|] == u;
    assert (u + suffix)[|u|..] == suffix;
    u + suffix
  }

  /**
   * The handler: rewrites request.uri in place and returns the same request;
   * its method and headers are left as they were.
   */
  method Handler(request: Request) returns (result: Request)
    modifies request`uri
    ensures result == request
    ensures request.uri == Rewrite(old(request.uri), request.headers)
    ensures request.httpMethod == old(request.httpMethod) && request.headers == old(request.headers)
    ensures !HasSuffix(request.uri, "/")
  {
    ghost var original := request.uri;
    var headers := request.headers;
    if HasSuffix(request.uri, "/") {
      request.uri := request.uri + "index.html";
    }
    var uri := request.uri;
    if AcceptEncoding in headers && Contains(headers[AcceptEncoding], "br") {
      request.uri := uri + ".br";
    } else if AcceptEncoding in headers && Contains(headers[AcceptEncoding], "gzip") {
      request.uri := uri + ".gz";
    }
    result := request;
    RewriteFromSteps(original, headers, uri, request.uri);
    RewriteNeverEndsWithSlash(original, headers);
  }

  /** The two in-place steps of the handler compose to Rewrite. */
  lemma RewriteFromSteps(original: string, headers: map<string, string>, uri: string, final: string)
    requires uri == if HasSuffix(original, "/") then original + "index.html" else original
    requires AcceptsBrotli(headers) ==> final == uri + ".br"
    requires !AcceptsBrotli(headers) && AcceptsGzip(headers) ==> final == uri + ".gz"
    requires !AcceptsBrotli(headers) && !AcceptsGzip(headers) ==> final == uri
    ensures final == Rewrite(original, headers)
  {
    if !AcceptsBrotli(headers) && !AcceptsGzip(headers) {
      assert uri + EncodingSuffix(headers) == uri;
    }
  }

  /** The rewritten URI never names a directory. */
  lemma RewriteNeverEndsWithSlash(uri: string, headers: map<string, string>)
    ensures !HasSuffix(Rewrite(uri, headers), "/")
  {
    var u := IndexAdjusted(uri);
    var r := Rewrite(uri, headers);
    if EncodingSuffix(headers) == "" {
      assert r == u;
    } else {
      assert r[|r| - 1] == EncodingSuffix(headers)[2];
    }
  }

  /**
   * The rewritten URI is the index-adjusted URI followed by ".br" when the
   * header mentions br, by ".gz" when it mentions gzip but not br, and by
   * nothing otherwise, including when the header is absent.
   */
  lemma RewriteCases(uri: string, headers: map<string, string>)
    ensures AcceptsBrotli(headers) ==> Rewrite(uri, headers) == IndexAdjusted(uri) + ".br"
    ensures !AcceptsBrotli(headers) && AcceptsGzip(headers) ==> Rewrite(uri, headers) == IndexAdjusted(uri) + ".gz"
    ensures !AcceptsBrotli(headers) && !AcceptsGzip(headers) ==> Rewrite(uri, headers) == IndexAdjusted(uri)
    ensures AcceptEncoding !in headers ==> Rewrite(uri, headers) == IndexAdjusted(uri)
  {
    if !AcceptsBrotli(headers) && !AcceptsGzip(headers) {
      assert EncodingSuffix(headers) == "";
    }
  }

  /** Trimming the chosen suffix from the rewritten URI gives back the index-adjusted URI. */
  lemma RewriteUndone(uri: string, headers: map<string, string>)
    ensures TrimSuffix(Rewrite(uri, headers), EncodingSuffix(headers)) == IndexAdjusted(uri)
  {
    TrimAppended(IndexAdjusted(uri), EncodingSuffix(headers));
  }

  /** A header listing several codings selects Brotli; a directory URI gets its index document first. */
  lemma BrotliAmongSeveral()
    ensures Rewrite("/", map[AcceptEncoding := "gzip, deflate, br"]) == "/index.html.br"
  {
    var h := map[AcceptEncoding := "gzip, deflate, br"];
    assert h[AcceptEncoding][15..17] == "br";
    assert OccursAt(h[AcceptEncoding], "br", 15);
    assert AcceptsBrotli(h);
    assert HasSuffix("/", "/");
    assert IndexAdjusted("/") == "/index.html";
    assert EncodingSuffix(h) == ".br";
  }

  /**
   * The test is a substring test, not content negotiation: a header that
   * refuses br with q=0 still selects Brotli.
   */
  lemma BrotliRefusedStillChosen()
    ensures Rewrite("/a.js", map[AcceptEncoding := "br;q=0, gzip"]) == "/a.js.br"
  {
    var h := map[AcceptEncoding := "br;q=0, gzip"];
    assert h[AcceptEncoding][0..2] == "br";
    assert OccursAt(h[AcceptEncoding], "br", 0);
    assert AcceptsBrotli(h);
    assert !HasSuffix("/a.js", "/");
  }

  /** A header naming only gzip selects the gzip copy. */
  lemma GzipOnly()
    ensures Rewrite("/a.js", map[AcceptEncoding := "gzip"]) == "/a.js.gz"
  {
    var h := map[AcceptEncoding := "gzip"];
    assert OccursAt(h[AcceptEncoding], "gzip", 0);
    assert h[AcceptEncoding] == "gzip";
    NotContains("gzip", "br");
    assert !AcceptsBrotli(h) && AcceptsGzip(h);
    assert !HasSuffix("/a.js", "/");
  }

  /** Without an accept-encoding header only the index adjustment applies. */
  lemma NoAcceptEncoding()
    ensures Rewrite("/docs/", map["host" := "example.com"]) == "/docs/index.html"
  {
    assert HasSuffix("/docs/", "/");
  }
}
