/**
 * The asset publisher of main.go: the filepath.Walk callback that turns
 * every regular file under the site directory into a storage object whose
 * content type and content encoding are derived from the file name.
 */
module Publisher {
  import opened Wrappers
  import opened Text

  type Error = string

  /**
   * One call of the walk callback: the path it is given, whether that path
   * is a directory, and the error the walk passes in for it, if any.
   */
  datatype Entry = Entry(name: string, isDir: bool, walkErr: Option<Error>)

  /** The two metadata fields the publisher sets on an object. */
  datatype Classification = Classification(contentType: string, contentEncoding: string)

  /** The arguments of one s3.NewBucketObject call: object key, file asset, and metadata. */
  datatype UploadRecord = UploadRecord(key: string, source: string, contentType: string, contentEncoding: string)

  /**
   * What the publisher takes from outside the repository: filepath.Rel from
   * the site directory, the MIME registry behind mime.TypeByExtension, and the
   * error (if any) with which s3.NewBucketObject refuses a record.
   */
  datatype Env = Env(
    rel: string -> Result<string, Error>,
    mime: string -> string,
    create: UploadRecord -> Option<Error>)

  /**
   * The content type and encoding of a file: a trailing ".br" is checked
   * first, then ".gz"; a matched suffix (always three characters) is dropped
   * once and the type comes from the extension of what remains.
   */
  function Classify(mime: string -> string, name: string): (c: Classification)
    ensures c.contentEncoding in {"", "br", "gzip"}
    ensures c.contentEncoding == "br" <==> HasSuffix(name, ".br")
    ensures c.contentEncoding == "gzip" <==> HasSuffix(name, ".gz")
    ensures c.contentEncoding != "" ==> |name| >= 3 && c.contentType == mime(Ext(name[..|name| - 3]))
    ensures c.contentEncoding == "" ==> c.contentType == mime(Ext(name))
  {
    if HasSuffix(name, ".br") then
      Classification(mime(Ext(TrimSuffix(name, ".br"))), "br")
    else if HasSuffix(name, ".gz") then
      Classification(mime(Ext(TrimSuffix(name, ".gz"))), "gzip")
    else
      Classification(mime(Ext(name)), "")
  }

  /** A Brotli-compressed name is typed by the extension of its uncompressed name. */
  lemma ClassifyBrotli(mime: string -> string, base: string)
    ensures Classify(mime, base + ".br") == Classification(mime(Ext(base)), "br")
  {
    TrimAppended(base, ".br");
  }

  /** A gzip-compressed name is typed by the extension of its uncompressed name. */
  lemma ClassifyGzip(mime: string -> string, base: string)
    ensures Classify(mime, base + ".gz") == Classification(mime(Ext(base)), "gzip")
  {
    TrimAppended(base, ".gz");
    assert (base + ".gz")[|base + ".gz"| - 3..] == ".gz";
  }

  /** A name with neither compression suffix is typed by its own extension and has no encoding. */
  lemma ClassifyPlain(mime: string -> string, name: string)
    requires !HasSuffix(name, ".br") && !HasSuffix(name, ".gz")
    ensures Classify(mime, name) == Classification(mime(Ext(name)), "")
  {
  }

  /**
   * Only the outermost suffix is stripped, and ".br" is checked first:
   * "x.css.gz.br" is Brotli-encoded and typed by ".gz", not by ".css", and
   * "x.css.br.gz" is gzip-encoded and typed by ".br".
   */
  lemma ClassifyStripsOnce(mime: string -> string, base: string)
    ensures Classify(mime, base + ".gz.br") == Classification(mime(".gz"), "br")
    ensures Classify(mime, base + ".br.gz") == Classification(mime(".br"), "gzip")
  {
    assert base + ".gz.br" == (base + ".gz") + ".br";
    assert base + ".br.gz" == (base + ".br") + ".gz";
    ExtOfAppended(base, ".gz");
    ExtOfAppended(base, ".br");
    ClassifyBrotli(mime, base + ".gz");
    ClassifyGzip(mime, base + ".br");
  }

  /** What the callback does with one entry. */
  datatype Step = Skip | Emit(record: UploadRecord) | Abort(error: Error)

  /** The callback of the walk, applied to one entry. */
  function Visit(env: Env, e: Entry): (s: Step)
    ensures e.walkErr.Some? ==> s == Abort(e.walkErr.value)
    ensures s.Skip? <==> e.walkErr.None? && e.isDir
    ensures s.Emit? ==>
      !e.isDir && s.record.source == e.name && env.rel(e.name) == Success(s.record.key) &&
      Classification(s.record.contentType, s.record.contentEncoding) == Classify(env.mime, e.name) &&
      env.create(s.record).None?
    ensures e.walkErr.None? && !e.isDir && env.rel(e.name).Failure? ==> s == Abort(env.rel(e.name).error)
    ensures e.walkErr.None? && !e.isDir && env.rel(e.name).Success? ==>
      var c := Classify(env.mime, e.name);
      var record := UploadRecord(env.rel(e.name).value, e.name, c.contentType, c.contentEncoding);
      s == if env.create(record).Some? then Abort(env.create(record).value) else Emit(record)
  {
    if e.walkErr.Some? then Abort(e.walkErr.value)
    else if e.isDir then Skip
    else match env.rel(e.name)
      case Failure(err) => Abort(err)
      case Success(key) =>
        var c := Classify(env.mime, e.name);
        var record := UploadRecord(key, e.name, c.contentType, c.contentEncoding);
        match env.create(record)
        case Some(err) => Abort(err)
        case None => Emit(record)
  }

  /** The objects created, and the error that ended the walk, if any. */
  datatype Outcome = Outcome(objects: seq<UploadRecord>, err: Option<Error>)

  /** Records created earlier, followed by an outcome. */
  function Then(earlier: seq<UploadRecord>, o: Outcome): Outcome {
    Outcome(earlier + o.objects, o.err)
  }

  /**
   * filepath.Walk over a sequence of entries with a callback: the callback's
   * first error ends the walk and is returned.
   */
  function Walk(visit: Entry -> Step, entries: seq<Entry>): (o: Outcome)
    ensures |o.objects| <= |entries|
    decreases |entries|
  {
    if entries == [] then Outcome([], None)
    else match visit(entries[0])
      case Abort(err) => Outcome([], Some(err))
      case Skip => Walk(visit, entries[1..])
      case Emit(record) => Then([record], Walk(visit, entries[1..]))
  }

  /** The publisher's callback, with its collaborators fixed. */
  function Callback(env: Env): Entry -> Step {
    e => Visit(env, e)
  }

  /** The names of the non-directory entries, in walk order. */
  function FileNames(entries: seq<Entry>): seq<string>
    decreases |entries|
  {
    if entries == [] then []
    else (if entries[0].isDir then [] else [entries[0].name]) + FileNames(entries[1..])
  }

  /**
   * The walk loop: calls the callback on each entry in order, keeps every
   * object it creates, and returns the first error, handling no entry after it.
   */
  method Publish(env: Env, entries: seq<Entry>) returns (objects: seq<UploadRecord>, err: Option<Error>)
    ensures Outcome(objects, err) == Walk(Callback(env), entries)
  {
    objects := [];
    err := None;
    var i := 0;
    while i < |entries|
      invariant 0 <= i <= |entries|
      invariant Walk(Callback(env), entries) == Then(objects, Walk(Callback(env), entries[i..]))
    {
      var entry := entries[i];
      assert entries[i..][0] == entry && entries[i..][1..] == entries[i + 1..];
      if entry.walkErr.Some? {
        err := entry.walkErr;
        return;
      }
      if !entry.isDir {
        var rel := env.rel(entry.name);
        if rel.Failure? {
          err := Some(rel.error);
          return;
        }
        var c := Classify(env.mime, entry.name);
        var record := UploadRecord(rel.value, entry.name, c.contentType, c.contentEncoding);
        var created := env.create(record);
        if created.Some? {
          err := created;
          return;
        }
        objects := objects + [record];
      }
      i := i + 1;
    }
    assert entries[i..] == [];
  }

  /** The walk over a + b is the walk over a, continued over b only when a ended without error. */
  lemma {:induction false} WalkAppend(visit: Entry -> Step, a: seq<Entry>, b: seq<Entry>)
    ensures Walk(visit, a + b) ==
      if Walk(visit, a).err.Some? then Walk(visit, a) else Then(Walk(visit, a).objects, Walk(visit, b))
    decreases |a|
  {
    if a == [] {
      assert a + b == b;
    } else {
      assert (a + b)[0] == a[0] && (a + b)[1..] == a[1..] + b;
      WalkAppend(visit, a[1..], b);
    }
  }

  /** The walk succeeds exactly when the callback fails on no entry. */
  lemma {:induction false} WalkSucceeds(visit: Entry -> Step, entries: seq<Entry>)
    ensures Walk(visit, entries).err.None? <==> forall k :: 0 <= k < |entries| ==> !visit(entries[k]).Abort?
    decreases |entries|
  {
    if entries != [] {
      WalkSucceeds(visit, entries[1..]);
      assert forall k :: 1 <= k < |entries| ==> entries[k] == entries[1..][k - 1];
    }
  }

  /**
   * The first failing entry ends the walk with its error: the objects are
   * those of the entries before it, and no later entry is visited.
   */
  lemma WalkStopsAtFirstError(visit: Entry -> Step, before: seq<Entry>, failing: Entry, after: seq<Entry>)
    requires forall k :: 0 <= k < |before| ==> !visit(before[k]).Abort?
    requires visit(failing).Abort?
    ensures Walk(visit, before + [failing] + after) ==
      Outcome(Walk(visit, before).objects, Some(visit(failing).error))
  {
    WalkSucceeds(visit, before);
    WalkAppend(visit, before, [failing] + after);
    assert before + [failing] + after == before + ([failing] + after);
    assert ([failing] + after)[0] == failing;
  }

  /** When the callback emits a record for every entry, the walk creates exactly those records, in order. */
  lemma {:induction false} WalkAllEmitted(visit: Entry -> Step, entries: seq<Entry>, records: seq<UploadRecord>)
    requires |entries| == |records|
    requires forall k :: 0 <= k < |entries| ==> visit(entries[k]) == Emit(records[k])
    ensures Walk(visit, entries) == Outcome(records, None)
    decreases |entries|
  {
    if entries != [] {
      assert visit(entries[0]) == Emit(records[0]);
      WalkAllEmitted(visit, entries[1..], records[1..]);
      assert [records[0]] + records[1..] == records;
    }
  }

  /** A directory entry without an error contributes nothing to the publisher's walk. */
  lemma WalkSkipsDirectory(env: Env, before: seq<Entry>, dir: Entry, after: seq<Entry>)
    requires dir.isDir && dir.walkErr.None?
    ensures Walk(Callback(env), before + [dir] + after) == Walk(Callback(env), before + after)
  {
    var visit := Callback(env);
    assert visit(dir) == Skip;
    WalkAppend(visit, before, [dir] + after);
    WalkAppend(visit, before, after);
    assert before + [dir] + after == before + ([dir] + after);
    assert ([dir] + after)[1..] == after;
  }

  /** The record the publisher creates for a file is keyed by its relative path and carries its classification. */
  predicate Describes(env: Env, name: string, record: UploadRecord) {
    record.source == name &&
    env.rel(name) == Success(record.key) &&
    Classification(record.contentType, record.contentEncoding) == Classify(env.mime, name)
  }

  /**
   * A publisher walk that ends without error creates exactly one object per
   * non-directory entry, in walk order, each keyed by the entry's relative
   * path and carrying the entry's classification.
   */
  lemma {:induction false} WalkOneObjectPerFile(env: Env, entries: seq<Entry>)
    requires Walk(Callback(env), entries).err.None?
    ensures var objects := Walk(Callback(env), entries).objects;
      |objects| == |FileNames(entries)| &&
      forall k :: 0 <= k < |objects| ==> Describes(env, FileNames(entries)[k], objects[k])
    decreases |entries|
  {
    if entries != [] {
      var visit := Callback(env);
      var step := Visit(env, entries[0]);
      assert visit(entries[0]) == step;
      var rest := Walk(visit, entries[1..]);
      WalkOneObjectPerFile(env, entries[1..]);
      if step.Emit? {
        var objects := Walk(visit, entries).objects;
        var names := FileNames(entries);
        assert objects == [step.record] + rest.objects;
        assert names == [entries[0].name] + FileNames(entries[1..]);
        forall k | 0 <= k < |objects| ensures Describes(env, names[k], objects[k]) {
          if k > 0 {
            assert objects[k] == rest.objects[k - 1] && names[k] == FileNames(entries[1..])[k - 1];
          }
        }
      } else {
        assert step.Skip?;
        assert FileNames(entries) == FileNames(entries[1..]);
      }
    }
  }

  /** A page and a stylesheet of a site, as the walk names them. */
  const SamplePage := "www/index.html"
  const SampleStyle := "www/style.css"

  /** The sample page has no compression suffix and is typed by ".html". */
  lemma ClassifySamplePage(mime: string -> string)
    ensures Classify(mime, SamplePage) == Classification(mime(".html"), "")
  {
    assert DotScan(SamplePage, 9) == 9;
    assert SamplePage[11..] == "tml";
    ClassifyPlain(mime, SamplePage);
  }

  /** The gzip copy of the sample page is typed by ".html" and encoded gzip. */
  lemma ClassifySampleGzipPage(mime: string -> string)
    ensures Classify(mime, SamplePage + ".gz") == Classification(mime(".html"), "gzip")
  {
    assert DotScan(SamplePage, 9) == 9;
    ClassifyGzip(mime, SamplePage);
  }

  /** The Brotli copy of the sample stylesheet is typed by ".css" and encoded br. */
  lemma ClassifySampleStylesheet(mime: string -> string)
    ensures Classify(mime, SampleStyle + ".br") == Classification(mime(".css"), "br")
  {
    assert DotScan(SampleStyle, 9) == 9;
    ClassifyBrotli(mime, SampleStyle);
  }
}
