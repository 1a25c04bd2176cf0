# Pre-compressed static site: asset publisher and edge request rewriter

This project models, in Dafny, the two pieces of logic in a static-site
deployment program. The rest of the program declares cloud resources.

- **Asset publisher** (`main.go`). The program walks the site directory
  (`www`). For every regular file it creates one storage object, keyed by the
  file's path relative to the site directory. The object's `contentEncoding`
  and `contentType` come from the file name. A trailing `.br` is checked
  first and gives `"br"`; a trailing `.gz` is checked next and gives
  `"gzip"`. When one of them matches, that suffix is dropped once. The type is
  then the MIME type of the extension (`path.Ext`) of what remains. Without
  either suffix the encoding is `""` and the type is that of the name's own
  extension. The walk stops at the first error, whether the walk itself
  reports it, `filepath.Rel` fails, or object creation fails. That error is
  returned.
- **Edge request rewriter** (`function.js`). A viewer-request function. A
  URI ending in `/` gets `index.html` appended. Then `.br` is appended when
  the `accept-encoding` header's value contains `br`. Otherwise `.gz` is
  appended when the value contains `gzip`. Both tests are plain substring
  tests. Only `request.uri` changes.

The two fit together. The rewriter asks for names like `page.html.br`. The
publisher stored those names with encoding `br` and the type of `page.html`.
`RoundTrip` proves that this holds for every URI and every header map.

Layout:

- `wrappers.dfy`: `Option` and `Result`.
- `text.dfy`: exact models of Go's `strings.HasSuffix`, `strings.TrimSuffix`
  and `path.Ext`, and of JavaScript's `includes`. JavaScript's `endsWith`
  is the same function as `HasSuffix`.
- `publisher.dfy`: the classification function and the walk callback. It
  also holds `Walk`, a functional model of `filepath.Walk`'s abort-on-error
  iteration over any callback, and `Publish`, the loop proved against it.
- `edge_function.dfy`: the `Request` object and `Handler`, which rewrites
  `request.uri` in place.
- `round_trip.dfy`: the composition of rewriter and publisher.

Collaborators outside the repository are parameters of `Publisher.Env`:
- `mime`: the MIME registry behind `mime.TypeByExtension`, left
  uninterpreted.
- `rel`: `filepath.Rel` from the site directory.
- `create`: the failure outcome of `s3.NewBucketObject`.

The directory walk is a given sequence of entries. Each entry has a path, a
directory flag and the error the walk passes in.

When the walk aborts, the objects created before the error have already been
registered with the deployment engine (main.go:66-72), so `Walk` keeps them in
its outcome beside the error.

## Model

| member | source | states |
|---|---|---|
| `Text.HasSuffixSplits` | main.go:54 | `strings.HasSuffix` (and `endsWith`, function.js:4) holds exactly when the string is one of its prefixes followed by the suffix |
| `Text.TrimSuffix` | main.go:55 | when the suffix is present, the result followed by the suffix is the input; otherwise the input is unchanged |
| `Text.TrimAppended` | main.go:54-58 | a name built as base + suffix has the suffix, and trimming it gives back base |
| `Text.DotScan` | main.go:55 | the scan returns the last '.' before any '/'; if there is none, no '.' lies after the last '/' |
| `Text.Ext` | main.go:62 | `path.Ext` is "" or a suffix of the path that starts with '.' and holds no other '.' and no '/'; it is "" exactly when the final path element has no '.' |
| `Text.ExtOfAppended` | main.go:55 | a name ending in an extension has exactly that extension, whatever precedes it |
| `Text.ExtUnderDirectory` | main.go:41-62 | prefixing the site directory to a '/'-led path does not change its extension |
| `Text.Contains` | function.js:16-19 | `includes` holds exactly when the pattern occurs at some index |
| `Publisher.Classify` | main.go:51-64 | encoding is one of "", "br", "gzip"; "br" exactly for a `.br` name; "gzip" exactly for a `.gz` name; a compressed name is typed by the extension of the name without its last three characters, any other name by its own extension |
| `Publisher.ClassifyBrotli` | main.go:54-56 | a name base + ".br" is encoded "br" and typed by Ext(base) |
| `Publisher.ClassifyGzip` | main.go:57-59 | a name base + ".gz" is encoded "gzip" and typed by Ext(base) |
| `Publisher.ClassifyPlain` | main.go:61-63 | a name with neither suffix has encoding "" and is typed by its own extension |
| `Publisher.ClassifyStripsOnce` | main.go:54-58 | ".br" wins and only one suffix is stripped: base.gz.br is "br" typed by ".gz"; base.br.gz is "gzip" typed by ".br" |
| `Publisher.ClassifySamplePage` | main.go:61-63 | www/index.html is typed by ".html" with no encoding |
| `Publisher.ClassifySampleGzipPage` | main.go:57-59 | www/index.html.gz is typed by ".html" and encoded "gzip" |
| `Publisher.ClassifySampleStylesheet` | main.go:54-56 | www/style.css.br is typed by ".css" and encoded "br" |
| `Publisher.Visit` | main.go:42-75 | the callback returns the walk's error for an entry that has one; it skips exactly the error-free directories; for an error-free file it aborts with `filepath.Rel`'s error when that fails; otherwise it builds the record from the relative path as key, the name as source and the name's classification, aborts with the creation error when creating that record fails, and emits the record when it succeeds |
| `Publisher.Walk` | main.go:41-79 | the walk creates at most one object per entry; its abort at the first failing callback is stated by the lemmas below |
| `Publisher.Publish` | main.go:41-79 | the loop's objects and error are those of `Walk` over the entries with the publisher's callback |
| `Publisher.WalkAppend` | main.go:41-79 | walking a + b is walking a, continued over b only if a ended without error |
| `Publisher.WalkSucceeds` | main.go:42-49 | the walk ends without error exactly when the callback fails on no entry |
| `Publisher.WalkStopsAtFirstError` | main.go:71-79 | the first failing entry's error is returned, with the objects of the entries before it; entries after it do not matter |
| `Publisher.WalkAllEmitted` | main.go:66-73 | when every entry emits a record, the walk creates exactly those records in order |
| `Publisher.WalkSkipsDirectory` | main.go:45-75 | an error-free directory entry changes nothing in the walk |
| `Publisher.WalkOneObjectPerFile` | main.go:45-73 | a successful walk creates one object per non-directory entry, in order, each keyed by the entry's relative path and carrying its classification |
| `EdgeFunction.Request.constructor` | function.js:2-3 | a request holds the given uri, method and headers |
| `EdgeFunction.AcceptsBrotli` | function.js:16 | the test holds exactly when the accept-encoding header is present and its value contains "br" at some index |
| `EdgeFunction.AcceptsGzip` | function.js:19 | the test holds exactly when the accept-encoding header is present and its value contains "gzip" at some index |
| `EdgeFunction.IndexAdjusted` | function.js:4-7 | a URI ending in '/' gets "index.html" appended; any other URI is unchanged; the result never ends in '/' |
| `EdgeFunction.EncodingSuffix` | function.js:16-21 | the suffix is ".br" exactly when the header contains "br"; it is ".gz" exactly when the header contains "gzip" but not "br"; otherwise "" |
| `EdgeFunction.Rewrite` | function.js:4-21 | the final URI is the index-adjusted URI followed by exactly the chosen suffix and nothing else |
| `EdgeFunction.RewriteFromSteps` | function.js:4-21 | the two in-place appends of the handler (index.html, then the encoding suffix) compose to the rewritten URI |
| `EdgeFunction.Handler` | function.js:1-23 | only `request.uri` changes, to the rewritten URI; method and headers are unchanged; the same request is returned; the new URI never ends in '/' |
| `EdgeFunction.RewriteNeverEndsWithSlash` | function.js:4-21 | the final URI never ends in '/' |
| `EdgeFunction.RewriteCases` | function.js:4-22 | the final URI is the index-adjusted URI plus ".br" if the header contains "br", else plus ".gz" if it contains "gzip", else nothing; with the header absent it is only index-adjusted |
| `EdgeFunction.RewriteUndone` | function.js:16-21 | trimming the chosen suffix from the final URI gives the index-adjusted URI back |
| `EdgeFunction.BrotliAmongSeveral` | function.js:4-18 | "/" with "gzip, deflate, br" becomes "/index.html.br" |
| `EdgeFunction.BrotliRefusedStillChosen` | function.js:16-18 | "br;q=0, gzip" still selects ".br": the test ignores q-values |
| `EdgeFunction.GzipOnly` | function.js:19-21 | a header of "gzip" selects ".gz" |
| `EdgeFunction.NoAcceptEncoding` | function.js:4-7 | without the header, "/docs/" becomes "/docs/index.html" and nothing more |
| `RoundTrip.RewriteThenClassify` | function.js:16-21 | classifying the rewritten URI as in main.go:54-59 gives the chosen encoding and the type of the index-adjusted URI; when that URI has no compression suffix of its own, this is the type its uncompressed object gets |
| `RoundTrip.PublishedFileMatchesRewrite` | main.go:41-59 | the walked file (site directory + rewritten URI) gets the chosen encoding and the type of the index-adjusted URI |

## Left out

- The cloud resource declarations (main.go:28-35, 81-223): the bucket, its policy, the edge function resource, the cache policy, the distribution and the exports. They are fixed arguments to an external SDK.
- `readFileOrPanic` (main.go:17-23): file I/O.
- The directory traversal of `filepath.Walk` and the computation of `filepath.Rel`: filesystem behaviour. The entries are a given sequence and `Rel` is the parameter `Env.rel`.
- `s3.NewBucketObject` and `pulumi.NewFileAsset` (main.go:66-70) are modelled only as the record they are given and the error they may return (`Env.create`). The bucket ID argument is a constant of the deployment and is not recorded.
- The contents of the MIME registry: `Env.mime` is uninterpreted, so the fact that an unknown extension maps to "" is not modelled.
- The log object and `console.log` (function.js:9-13): output only.
- Path separators: `path.Ext` splits on '/' only, which is what the model does. On an operating system whose walk uses another separator, the code's behaviour differs; that case is not modelled.
- `EdgeFunction.Request` models headers as a map from lower-case header name to the header's `value` field. Multi-valued headers, and a header object without `value`, are not modelled. The JavaScript truthiness test on the header object is modelled as map membership, since a present header object is always truthy.
- A `Walk` that the program aborts still hands the records created before the error to the deployment engine. The model records this; what the engine then does with them is not modelled.
