/** `main` of the ingestion script: the missing-corpus error, the optional
    reset of the persisted store behind the `_safe_rmtree` guard, the
    empty-corpus branch, and the id assignment of the chunks that go into
    the store. What the file system answers is an input (`Settings`), the
    text splitter is the input function `split`, and the store is
    represented by what is written into it. */
module Ingest {
  import opened Text
  import opened Wrappers
  import opened Metadata
  import opened Loader
  import opened ChunkIds

  /** The guard of `_safe_rmtree` on the absolute path. */
  predicate UnsafeToDelete(ap: string) {
    ap == "/" || ap == "" || |ap| < 10
  }

  /** The first two cases are subsumed by the length test. */
  lemma UnsafeIffShort(ap: string)
    ensures UnsafeToDelete(ap) <==> |ap| < 10
  {
  }

  /** `INGEST_RESET`, whether `CONTEXT_DIR` and `PERSIST_DIR` are
      directories, and `os.path.abspath(PERSIST_DIR)`. */
  datatype Settings = Settings(reset: bool, contextExists: bool, persistExists: bool, persistAbs: string)

  /** How a run ends: the two exceptions, or a store that is empty or holds
      the chunks under their ids; `wiped` says whether the old store was
      deleted first. */
  datatype Outcome =
    | ContextDirMissing
    | UnsafeReset(path: string)
    | EmptyStore(wiped: bool)
    | Ingested(wiped: bool, ids: seq<string>, chunks: seq<Document>)
  {
    predicate Wiped() { (EmptyStore? || Ingested?) && wiped }
  }

  function Run(st: Settings, candidates: seq<string>, load: (string, Kind, Encoding) -> LoadOutcome,
               info: string -> Option<FileInfo>, runId: string,
               split: seq<Document> -> seq<Document>): Outcome
  {
    if !st.contextExists then ContextDirMissing
    else
      var wipe := st.reset && st.persistExists;
      if wipe && UnsafeToDelete(st.persistAbs) then UnsafeReset(st.persistAbs)
      else
        var docs := LoadAll(SortedUnique(candidates), FileLoader(load, info, runId));
        if docs == [] then EmptyStore(wipe)
        else
          var chunks := split(docs);
          Ingested(wipe, Ids(chunks), Assigned(chunks))
  }

  method RunIngest(st: Settings, candidates: seq<string>, load: (string, Kind, Encoding) -> LoadOutcome,
                   info: string -> Option<FileInfo>, runId: string,
                   split: seq<Document> -> seq<Document>)
    returns (outcome: Outcome)
    ensures outcome == Run(st, candidates, load, info, runId, split)
  {
    if !st.contextExists {
      return ContextDirMissing;
    }
    var wiped := false;
    if st.reset && st.persistExists {
      if UnsafeToDelete(st.persistAbs) {
        return UnsafeReset(st.persistAbs);
      }
      wiped := true;
    }
    var docs := LoadDocuments(candidates, load, info, runId);
    if docs == [] {
      return EmptyStore(wiped);
    }
    var chunks := split(docs);
    var store := new Document[|chunks|](i requires 0 <= i < |chunks| => chunks[i]);
    assert store[..] == chunks;
    var ids := AssignChunkIds(store);
    outcome := Ingested(wiped, ids, store[..]);
  }

  // ----------------------------------------------------------------- laws

  /** The store is deleted only when a reset is asked for, the directory
      exists and its absolute path has at least 10 characters. */
  lemma DeletesOnlyWhenAsked(st: Settings, candidates: seq<string>, load: (string, Kind, Encoding) -> LoadOutcome,
                             info: string -> Option<FileInfo>, runId: string,
                             split: seq<Document> -> seq<Document>)
    ensures Run(st, candidates, load, info, runId, split).Wiped() <==>
      st.contextExists && st.reset && st.persistExists && |st.persistAbs| >= 10
  {
  }

  /** A reset of a store at a short path is refused before anything is
      loaded or written. */
  lemma ShortPathResetRefused(st: Settings, candidates: seq<string>, load: (string, Kind, Encoding) -> LoadOutcome,
                              info: string -> Option<FileInfo>, runId: string,
                              split: seq<Document> -> seq<Document>)
    requires st.contextExists && st.reset && st.persistExists && |st.persistAbs| < 10
    ensures Run(st, candidates, load, info, runId, split) == UnsafeReset(st.persistAbs)
  {
  }

  /** A corpus that loads no documents gives an empty store, not an error. */
  lemma EmptyCorpusGivesEmptyStore(st: Settings, candidates: seq<string>, load: (string, Kind, Encoding) -> LoadOutcome,
                                   info: string -> Option<FileInfo>, runId: string,
                                   split: seq<Document> -> seq<Document>)
    requires st.contextExists && !(st.reset && st.persistExists && |st.persistAbs| < 10)
    requires LoadAll(SortedUnique(candidates), FileLoader(load, info, runId)) == []
    ensures Run(st, candidates, load, info, runId, split).EmptyStore?
  {
  }

  /** What goes into the store: one id per chunk, in order, each the one
      written into its chunk, and no two chunks of one `(source, page)`
      under the same id. */
  lemma StoredIdsLineUp(st: Settings, candidates: seq<string>, load: (string, Kind, Encoding) -> LoadOutcome,
                        info: string -> Option<FileInfo>, runId: string,
                        split: seq<Document> -> seq<Document>)
    requires Run(st, candidates, load, info, runId, split).Ingested?
    ensures var o := Run(st, candidates, load, info, runId, split);
      && |o.ids| == |o.chunks|
      && (forall i | 0 <= i < |o.chunks| ::
            "chunk_id" in o.chunks[i].metadata && o.chunks[i].metadata["chunk_id"] == Str(o.ids[i]))
      && (forall i, j | 0 <= i < j < |o.chunks| && KeyOf(o.chunks[i]) == KeyOf(o.chunks[j]) ::
            o.ids[i] != o.ids[j])
  {
    var o := Run(st, candidates, load, info, runId, split);
    var chunks := split(LoadAll(SortedUnique(candidates), FileLoader(load, info, runId)));
    assert o.ids == Ids(chunks) && o.chunks == Assigned(chunks);
    forall i | 0 <= i < |o.chunks|
      ensures "chunk_id" in o.chunks[i].metadata && o.chunks[i].metadata["chunk_id"] == Str(o.ids[i])
    {
      IdsMatchMetadata(chunks, i);
    }
    forall i, j | 0 <= i < j < |o.chunks| && KeyOf(o.chunks[i]) == KeyOf(o.chunks[j])
      ensures o.ids[i] != o.ids[j]
    {
      NothingElseChanges(chunks, i);
      NothingElseChanges(chunks, j);
      SameKeyDistinctIds(chunks, i, j);
    }
  }
}
