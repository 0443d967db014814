/** `load_documents` of the ingestion script: the candidate paths are
    de-duplicated and sorted, each file is dispatched on its lower-cased
    extension, every loaded page gets the file's base metadata and a
    `page`, and a file that fails is skipped while the others go on.
    The file system is an input: `candidates` is what the glob patterns
    found, `load(p, kind, enc)` is what the format's loader returns for
    `p` read with encoding `enc`, and `info(p)` is what `_base_metadata`
    and `_file_sha1` read about `p` (`None` when that raises). */
module Loader {
  import opened Text
  import opened Wrappers
  import opened Metadata

  // ------------------------------------------------------- path ordering

  predicate StrictlySorted(ps: seq<string>) {
    forall i, j | 0 <= i < j < |ps| :: Below(ps[i], ps[j])
  }

  /** Put `x` into a strictly sorted list unless it is already there. */
  function InsertUnique(x: string, ps: seq<string>): (r: seq<string>)
    requires StrictlySorted(ps)
    ensures StrictlySorted(r)
    ensures forall i | 0 <= i < |r| :: r[i] == x || r[i] in ps
    ensures x in r && forall y | y in ps :: y in r
  {
    if ps == [] then [x]
    else if x == ps[0] then ps
    else if Below(x, ps[0]) then
      assert forall j | 0 < j < |ps| :: Below(x, ps[j]) by {
        forall j | 0 < j < |ps| ensures Below(x, ps[j]) { BelowTransitive(x, ps[0], ps[j]); }
      }
      [x] + ps
    else
      BelowTotal(x, ps[0]);
      var tail := InsertUnique(x, ps[1..]);
      assert forall y | y in ps :: y == ps[0] || y in ps[1..];
      var r := [ps[0]] + tail;
      assert forall j | 0 < j < |r| :: Below(ps[0], r[j]) by {
        forall j | 0 < j < |r| ensures Below(ps[0], r[j]) {
          assert r[j] == tail[j - 1];
          if r[j] != x {
            var k :| 0 <= k < |ps[1..]| && ps[1..][k] == r[j];
            assert ps[k + 1] == r[j];
          }
        }
      }
      r
  }

  /** `sorted(set(paths))`: every candidate once, in ascending order. */
  function SortedUnique(ps: seq<string>): (r: seq<string>)
    ensures StrictlySorted(r)
    ensures forall x :: x in r <==> x in ps
  {
    if ps == [] then []
    else
      var init := ps[..|ps| - 1];
      var r := InsertUnique(ps[|ps| - 1], SortedUnique(init));
      assert forall x | x in ps :: x == ps[|ps| - 1] || x in init by {
        forall x | x in ps ensures x == ps[|ps| - 1] || x in init {
          var k :| 0 <= k < |ps| && ps[k] == x;
          if k < |ps| - 1 { assert init[k] == x; }
        }
      }
      r
  }

  /** A strictly sorted list holds no path twice. */
  lemma SortedUniqueHasNoDuplicates(ps: seq<string>)
    ensures var r := SortedUnique(ps);
      forall i, j | 0 <= i < j < |r| :: r[i] != r[j]
  {
    var r := SortedUnique(ps);
    forall i, j | 0 <= i < j < |r| ensures r[i] != r[j] {
      if r[i] == r[j] { BelowIrreflexive(r[i]); }
    }
  }

  // ---------------------------------------------------------- extensions

  /** Index of the last `c` in `s`, or -1. */
  function LastIndex(s: string, c: char): (k: int)
    ensures -1 <= k < |s|
    ensures k >= 0 ==> s[k] == c
    ensures forall i | k < i < |s| :: s[i] != c
  {
    if s == [] then -1
    else if s[|s| - 1] == c then |s| - 1
    else LastIndex(s[..|s| - 1], c)
  }

  /** `os.path.splitext(p)[1]`: from the last dot of the last path
      component, unless every character before that dot in the component
      is a dot (so `.bashrc` has no extension). */
  function Ext(p: string): (r: string)
    ensures r == [] || (r[0] == '.' && |r| <= |p| && p[|p| - |r|..] == r)
  {
    var sep := LastIndex(p, '/');
    var dot := LastIndex(p, '.');
    if dot > sep && exists k | sep < k < dot :: p[k] != '.' then p[dot..] else []
  }

  /** A file named `stem.ext`, with a stem that is not all dots and an
      extension without dots or slashes, has extension `.ext`. */
  lemma ExtOfNamedFile(dir: string, stem: string, ext: string)
    requires forall i | 0 <= i < |stem| :: stem[i] != '/'
    requires exists i | 0 <= i < |stem| :: stem[i] != '.'
    requires forall i | 0 <= i < |ext| :: ext[i] != '/' && ext[i] != '.'
    ensures Ext(dir + "/" + stem + "." + ext) == "." + ext
  {
    var p := dir + "/" + stem + "." + ext;
    var dot := |dir| + 1 + |stem|;
    assert p[dot] == '.';
    assert forall i | dot < i < |p| :: p[i] == ext[i - dot - 1];
    assert LastIndex(p, '.') == dot;
    assert p[|dir|] == '/';
    assert forall i | |dir| < i < |p| :: p[i] != '/' by {
      forall i | |dir| < i < |p| ensures p[i] != '/' {
        if i < dot { assert p[i] == stem[i - |dir| - 1]; }
      }
    }
    assert LastIndex(p, '/') == |dir|;
    var i :| 0 <= i < |stem| && stem[i] != '.';
    assert p[|dir| + 1 + i] == stem[i];
    assert p[dot..] == "." + ext;
  }

  /** Which loader a path goes to, decided by its lower-cased extension. */
  datatype Kind = Pdf | Plain(docType: string) | Html | Unsupported

  function KindOf(ext: string): Kind {
    if ext == ".pdf" then Pdf
    else if ext == ".txt" then Plain("text")
    else if ext == ".md" then Plain("markdown")
    else if ext == ".html" || ext == ".htm" then Html
    else Unsupported
  }

  function DocType(k: Kind): string {
    match k
    case Pdf => "pdf"
    case Plain(t) => t
    case Html => "html"
    case Unsupported => ""
  }

  // ------------------------------------------------------------ metadata

  datatype Encoding = Utf8 | Latin1

  /** What a loader call does: pages, a `UnicodeDecodeError`, or any other
      exception. */
  datatype LoadOutcome = Loaded(docs: seq<Document>) | DecodeFailed | LoadFailed

  /** What the file system says about a file: its path relative to the
      corpus root, `Path.stem`, `Path.suffix`, the integer mtime, the
      timestamp of the call, the resolved path and the SHA-1 digest. */
  datatype FileInfo = FileInfo(rel: string, stem: string, suffix: string, mtime: int,
                               ingestedAt: string, absPath: string, sha1: string)

  function LStripDots(s: string): (r: string)
    ensures r == [] || r[0] != '.'
  {
    if s != [] && s[0] == '.' then LStripDots(s[1..]) else s
  }

  /** `_base_metadata` plus `source_sha1`. */
  function BaseMetadata(fi: FileInfo, docType: string, runId: string): (m: Meta)
    ensures "page" !in m && "page_number" !in m
    ensures "source" in m && m["source"] == Str(fi.rel)
    ensures "doc_type" in m && m["doc_type"] == Str(docType)
    ensures "source_sha1" in m && m["source_sha1"] == Str(fi.sha1)
    ensures "ingest_run_id" in m && m["ingest_run_id"] == Str(runId)
  {
    map["source" := Str(fi.rel), "title" := Str(fi.stem),
        "file_ext" := Str(LStripDots(Lower(fi.suffix))), "doc_type" := Str(docType),
        "file_mtime" := Int(fi.mtime), "ingested_at" := Str(fi.ingestedAt),
        "ingest_run_id" := Str(runId), "source_abs" := Str(fi.absPath),
        "source_sha1" := Str(fi.sha1)]
  }

  /** The page a normalised document ends up with: its own, else (PDF only)
      its `page_number`, else `1`. */
  function PageAfter(m: Meta, pdf: bool): Value {
    if "page" in m then m["page"]
    else if pdf && "page_number" in m then m["page_number"]
    else Int(1)
  }

  /** The metadata update and page normalisation of one loaded page. */
  function Normalise(d: Document, base: Meta, pdf: bool): (r: Document)
    requires "page" !in base && "page_number" !in base
    ensures r.pageContent == d.pageContent
    ensures r.metadata.Keys == d.metadata.Keys + base.Keys + {"page"}
    ensures forall k | k in base :: r.metadata[k] == base[k]
    ensures r.metadata["page"] == PageAfter(d.metadata, pdf)
    ensures forall k | k in d.metadata && k !in base && k != "page" :: r.metadata[k] == d.metadata[k]
  {
    var m := Update(d.metadata, base);
    var m' := if pdf && "page" !in m && "page_number" in m then m["page" := m["page_number"]] else m;
    Document(SetDefault(m', "page", Int(1)), d.pageContent)
  }

  /** The documents one successful load contributes. */
  function FromFile(ds: seq<Document>, fi: Option<FileInfo>, kind: Kind, runId: string): (r: seq<Document>)
    ensures fi.None? ==> r == []
    ensures fi.Some? ==> |r| == |ds| && forall i | 0 <= i < |ds| ::
      r[i] == Normalise(ds[i], BaseMetadata(fi.value, DocType(kind), runId), kind.Pdf?)
  {
    if fi.None? then []
    else
      var base := BaseMetadata(fi.value, DocType(kind), runId);
      seq(|ds|, i requires 0 <= i < |ds| => Normalise(ds[i], base, kind.Pdf?))
  }

  /** What one path contributes. A decode error gets one latin-1 retry for
      text, Markdown and HTML; for a PDF the re-raised error is caught by the
      retry's own handler, so the PDF is skipped like any failing file. */
  function LoadFile(p: string, load: (string, Kind, Encoding) -> LoadOutcome,
                    info: string -> Option<FileInfo>, runId: string): seq<Document>
  {
    var kind := KindOf(Lower(Ext(p)));
    if kind.Unsupported? then []
    else match load(p, kind, Utf8)
      case Loaded(ds) => FromFile(ds, info(p), kind, runId)
      case LoadFailed => []
      case DecodeFailed =>
        if kind.Pdf? then []
        else match load(p, kind, Latin1)
          case Loaded(ds) => FromFile(ds, info(p), kind, runId)
          case _ => []
  }

  /** `LoadFile` with the file system fixed. */
  function FileLoader(load: (string, Kind, Encoding) -> LoadOutcome,
                      info: string -> Option<FileInfo>, runId: string): string -> seq<Document>
  {
    p => LoadFile(p, load, info, runId)
  }

  /** The paths' contributions, concatenated in order. */
  function LoadAll(ps: seq<string>, f: string -> seq<Document>): seq<Document> {
    if ps == [] then [] else LoadAll(ps[..|ps| - 1], f) + f(ps[|ps| - 1])
  }

  /** `load_documents`: the sorted, de-duplicated paths, loaded in turn. */
  method LoadDocuments(candidates: seq<string>, load: (string, Kind, Encoding) -> LoadOutcome,
                       info: string -> Option<FileInfo>, runId: string)
    returns (docs: seq<Document>)
    ensures docs == LoadAll(SortedUnique(candidates), FileLoader(load, info, runId))
  {
    var paths := SortedUnique(candidates);
    docs := LoadEach(paths, load, info, runId);
  }

  /** `for p in paths: ...`, extending `docs` with what each path gives. */
  method LoadEach(paths: seq<string>, load: (string, Kind, Encoding) -> LoadOutcome,
                  info: string -> Option<FileInfo>, runId: string)
    returns (docs: seq<Document>)
    ensures docs == LoadAll(paths, FileLoader(load, info, runId))
  {
    ghost var f := FileLoader(load, info, runId);
    docs := [];
    for i := 0 to |paths|
      invariant docs == LoadAll(paths[..i], f)
    {
      var loaded := LoadOne(paths[i], load, info, runId);
      assert loaded == f(paths[i]);
      assert paths[..i + 1][..i] == paths[..i];
      assert LoadAll(paths[..i + 1], f) == LoadAll(paths[..i], f) + f(paths[i]);
      docs := docs + loaded;
    }
    assert paths[..|paths|] == paths;
  }

  /** The body of the loop for one path, with its two exception handlers:
      every failure ends in `continue`, that is, in no documents. */
  method LoadOne(p: string, load: (string, Kind, Encoding) -> LoadOutcome,
                 info: string -> Option<FileInfo>, runId: string)
    returns (docs: seq<Document>)
    ensures docs == LoadFile(p, load, info, runId)
  {
    var kind := KindOf(Lower(Ext(p)));
    if kind.Unsupported? {
      return [];
    }
    var outcome := load(p, kind, Utf8);
    if outcome.DecodeFailed? {
      if kind.Pdf? {
        return [];
      }
      outcome := load(p, kind, Latin1);
    }
    if !outcome.Loaded? {
      return [];
    }
    var fi := info(p);
    if fi.None? {
      return [];
    }
    var base := BaseMetadata(fi.value, DocType(kind), runId);
    docs := AttachBase(outcome.docs, base, kind.Pdf?);
  }

  /** The loop over the loaded pages: `update(base)`, the PDF `page_number`
      fallback, then `setdefault("page", 1)`. */
  method AttachBase(loaded: seq<Document>, base: Meta, pdf: bool) returns (docs: seq<Document>)
    requires "page" !in base && "page_number" !in base
    ensures |docs| == |loaded|
    ensures forall k | 0 <= k < |loaded| :: docs[k] == Normalise(loaded[k], base, pdf)
  {
    docs := [];
    for j := 0 to |loaded|
      invariant |docs| == j
      invariant forall k | 0 <= k < j :: docs[k] == Normalise(loaded[k], base, pdf)
    {
      var d := loaded[j];
      var m := d.metadata + base;
      if pdf && "page" !in m && "page_number" in m {
        m := m["page" := m["page_number"]];
      }
      if "page" !in m {
        m := m["page" := Int(1)];
      }
      docs := docs + [Document(m, d.pageContent)];
    }
  }

  // ----------------------------------------------------------------- laws

  lemma {:induction false} LoadAllAppend(ps: seq<string>, qs: seq<string>, f: string -> seq<Document>)
    ensures LoadAll(ps + qs, f) == LoadAll(ps, f) + LoadAll(qs, f)
    decreases |qs|
  {
    if qs == [] {
      assert ps + qs == ps;
    } else {
      assert (ps + qs)[..|ps + qs| - 1] == ps + qs[..|qs| - 1];
      LoadAllAppend(ps, qs[..|qs| - 1], f);
    }
  }

  /** A file that contributes nothing leaves the others' contributions
      as they would be without it. */
  lemma SkippedFileIsIsolated(ps: seq<string>, p: string, qs: seq<string>, f: string -> seq<Document>)
    requires f(p) == []
    ensures LoadAll(ps + [p] + qs, f) == LoadAll(ps + qs, f)
  {
    LoadAllAppend(ps + [p], qs, f);
    LoadAllAppend(ps, qs, f);
    assert (ps + [p])[..|ps|] == ps;
  }

  /** A file is skipped when its loader raises anything but a decode error,
      when reading its metadata raises, or when it is a PDF whose loader
      raises a decode error (there is no retry for PDFs). */
  lemma FailingFileIsSkipped(p: string, load: (string, Kind, Encoding) -> LoadOutcome,
                             info: string -> Option<FileInfo>, runId: string)
    requires var k := KindOf(Lower(Ext(p)));
      || info(p).None?
      || load(p, k, Utf8).LoadFailed?
      || (k == Pdf && load(p, k, Utf8).DecodeFailed?)
    ensures FileLoader(load, info, runId)(p) == []
  {
  }

  /** Text, Markdown and HTML files get exactly one latin-1 retry after a
      decode error: what they contribute is what that retry loads. */
  lemma DecodeErrorRetriesLatin1(p: string, load: (string, Kind, Encoding) -> LoadOutcome,
                                 info: string -> Option<FileInfo>, runId: string)
    requires var k := KindOf(Lower(Ext(p))); (k.Plain? || k.Html?) && load(p, k, Utf8).DecodeFailed?
    ensures var k := KindOf(Lower(Ext(p)));
      LoadFile(p, load, info, runId)
        == if load(p, k, Latin1).Loaded? then FromFile(load(p, k, Latin1).docs, info(p), k, runId) else []
  {
  }

  /** Every document of a file carries the file's base metadata, so all of
      them agree on `source`, `doc_type`, `source_sha1` and `ingest_run_id`,
      and every one has a `page`: its own, else a PDF's `page_number`, else 1. */
  lemma FileDocumentsShareBase(p: string, load: (string, Kind, Encoding) -> LoadOutcome,
                               info: string -> Option<FileInfo>, runId: string)
    ensures var ds := LoadFile(p, load, info, runId);
      ds != [] ==> (info(p).Some? &&
        var fi := info(p).value;
        var kind := KindOf(Lower(Ext(p)));
        forall i | 0 <= i < |ds| ::
          && ds[i].metadata["source"] == Str(fi.rel)
          && ds[i].metadata["doc_type"] == Str(DocType(kind))
          && ds[i].metadata["source_sha1"] == Str(fi.sha1)
          && ds[i].metadata["ingest_run_id"] == Str(runId)
          && "page" in ds[i].metadata)
  {
    var kind := KindOf(Lower(Ext(p)));
    if !kind.Unsupported? {
      match load(p, kind, Utf8)
      case Loaded(x) => FromFileShareBase(x, info(p), kind, runId);
      case LoadFailed =>
      case DecodeFailed =>
        if !kind.Pdf? {
          match load(p, kind, Latin1)
          case Loaded(x) => FromFileShareBase(x, info(p), kind, runId);
          case _ =>
        }
    }
  }

  lemma FromFileShareBase(ds: seq<Document>, fi: Option<FileInfo>, kind: Kind, runId: string)
    ensures var r := FromFile(ds, fi, kind, runId);
      r != [] ==> (fi.Some? &&
        forall i | 0 <= i < |r| ::
          && r[i].metadata["source"] == Str(fi.value.rel)
          && r[i].metadata["doc_type"] == Str(DocType(kind))
          && r[i].metadata["source_sha1"] == Str(fi.value.sha1)
          && r[i].metadata["ingest_run_id"] == Str(runId)
          && "page" in r[i].metadata)
  {
  }

  predicate AllPaged(ds: seq<Document>) {
    forall i | 0 <= i < |ds| :: "page" in ds[i].metadata
  }

  lemma {:induction false} LoadAllPaged(ps: seq<string>, f: string -> seq<Document>)
    requires forall i | 0 <= i < |ps| :: AllPaged(f(ps[i]))
    ensures AllPaged(LoadAll(ps, f))
  {
    if ps != [] {
      var init := ps[..|ps| - 1];
      LoadAllPaged(init, f);
      assert AllPaged(f(ps[|ps| - 1]));
      var ds := LoadAll(ps, f);
      var head := LoadAll(init, f);
      forall i | 0 <= i < |ds| ensures "page" in ds[i].metadata {
        if i >= |head| { assert ds[i] == f(ps[|ps| - 1])[i - |head|]; }
        else { assert ds[i] == head[i]; }
      }
    }
  }

  /** Every emitted document has a `page`. */
  lemma EveryDocumentHasPage(ps: seq<string>, load: (string, Kind, Encoding) -> LoadOutcome,
                             info: string -> Option<FileInfo>, runId: string)
    ensures AllPaged(LoadAll(ps, FileLoader(load, info, runId)))
  {
    var f := FileLoader(load, info, runId);
    forall i | 0 <= i < |ps| ensures AllPaged(f(ps[i])) {
      FileDocumentsShareBase(ps[i], load, info, runId);
    }
    LoadAllPaged(ps, f);
  }

  /** A non-paginated file's pages without a `page` are stored with page 1. */
  lemma PlainPagesDefaultToOne(d: Document, fi: FileInfo, kind: Kind, runId: string)
    requires !kind.Pdf? && "page" !in d.metadata
    ensures Normalise(d, BaseMetadata(fi, DocType(kind), runId), kind.Pdf?).metadata["page"] == Int(1)
  {
  }
}
