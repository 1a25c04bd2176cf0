/**
 * How the edge function and the publisher fit together: the URIs the
 * edge function rewrites to are the object keys whose content type and
 * encoding the publisher derived from the same file names.
 */
module RoundTrip {
  import opened Text
  import opened Publisher
  import opened EdgeFunction

  /**
   * The rewritten URI is classified with the encoding the handler chose and
   * with the content type of the URI before the suffix was added; when that
   * URI carries no compression suffix of its own, this is exactly the type
   * the uncompressed object gets.
   */
  lemma RewriteThenClassify(mime: string -> string, uri: string, headers: map<string, string>)
    ensures var u := IndexAdjusted(uri);
      var c := Classify(mime, Rewrite(uri, headers));
      (AcceptsBrotli(headers) ==> c == Classification(mime(Ext(u)), "br")) &&
      (!AcceptsBrotli(headers) && AcceptsGzip(headers) ==> c == Classification(mime(Ext(u)), "gzip")) &&
      (EncodingSuffix(headers) != "" && !HasSuffix(u, ".br") && !HasSuffix(u, ".gz") ==>
        c.contentType == Classify(mime, u).contentType)
  {
    var u := IndexAdjusted(uri);
    RewriteCases(uri, headers);
    if AcceptsBrotli(headers) {
      ClassifyBrotli(mime, u);
    } else if AcceptsGzip(headers) {
      ClassifyGzip(mime, u);
    }
  }

  /**
   * The same holds for the local file the publisher walked: its path is the
   * site directory followed by the request URI, which starts with '/'.
   */
  lemma PublishedFileMatchesRewrite(mime: string -> string, siteDir: string, uri: string, headers: map<string, string>)
    requires |uri| > 0 && uri[0] == '/'
    ensures EncodingSuffix(headers) == ".br" ==>
      Classify(mime, siteDir + Rewrite(uri, headers)) == Classification(mime(Ext(IndexAdjusted(uri))), "br")
    ensures EncodingSuffix(headers) == ".gz" ==>
      Classify(mime, siteDir + Rewrite(uri, headers)) == Classification(mime(Ext(IndexAdjusted(uri))), "gzip")
  {
    var u := IndexAdjusted(uri);
    var s := EncodingSuffix(headers);
    assert u[0] == '/';
    assert siteDir + Rewrite(uri, headers) == (siteDir + u) + s;
    ExtUnderDirectory(siteDir, u);
    if s == ".br" {
      ClassifyBrotli(mime, siteDir + u);
    } else if s == ".gz" {
      ClassifyGzip(mime, siteDir + u);
    }
  }
}
