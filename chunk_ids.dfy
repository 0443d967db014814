/** `assign_chunk_ids` of the ingestion script: one pass over the chunks
    with a counter per `(source, page)` key, numbering the chunks of each
    key 0, 1, 2, ... and writing `chunk_index` and `chunk_id` into each
    chunk's metadata. */
module ChunkIds {
  import opened Text
  import opened Metadata

  /** The counter key of a chunk. A missing page counts as page 1 here. */
  datatype ChunkKey = ChunkKey(source: Value, page: Value)

  function KeyOf(d: Document): ChunkKey {
    ChunkKey(Get(d.metadata, "source", Str("unknown")), Get(d.metadata, "page", Int(1)))
  }

  /** `f"{source}::p{page}::c{idx:03d}"`. */
  function ChunkId(k: ChunkKey, idx: nat): string {
    IdPrefix(k) + ZeroPad3(idx)
  }

  function IdPrefix(k: ChunkKey): string {
    Render(k.source) + "::p" + Render(k.page) + "::c"
  }

  /** How many of the chunks have key `k`. */
  function Occurrences(s: seq<Document>, k: ChunkKey): (n: nat)
    ensures n <= |s|
  {
    if s == [] then 0
    else Occurrences(s[..|s| - 1], k) + (if KeyOf(s[|s| - 1]) == k then 1 else 0)
  }

  /** The index of chunk `i`: how many earlier chunks share its key. */
  function Index(s: seq<Document>, i: nat): nat
    requires i < |s|
  {
    Occurrences(s[..i], KeyOf(s[i]))
  }

  /** A chunk with its index and id written into its metadata. */
  function Tag(d: Document, idx: nat): Document {
    Document(d.metadata["chunk_index" := Int(idx)]["chunk_id" := Str(ChunkId(KeyOf(d), idx))], d.pageContent)
  }

  /** The chunks after the pass. */
  function Assigned(s: seq<Document>): (r: seq<Document>)
    ensures |r| == |s|
  {
    seq(|s|, i requires 0 <= i < |s| => Tag(s[i], Index(s, i)))
  }

  /** The returned ids. */
  function Ids(s: seq<Document>): (r: seq<string>)
    ensures |r| == |s|
  {
    seq(|s|, i requires 0 <= i < |s| => ChunkId(KeyOf(s[i]), Index(s, i)))
  }

  /** `counters.get(key, 0)`. */
  function Counter(counters: map<ChunkKey, nat>, k: ChunkKey): nat {
    if k in counters then counters[k] else 0
  }

  method AssignChunkIds(chunks: array<Document>) returns (ids: seq<string>)
    modifies chunks
    ensures chunks[..] == Assigned(old(chunks[..]))
    ensures ids == Ids(old(chunks[..]))
  {
    ghost var input := chunks[..];
    var counters: map<ChunkKey, nat> := map[];
    ids := [];
    for i := 0 to chunks.Length
      invariant chunks[..] == Assigned(input)[..i] + input[i..]
      invariant ids == Ids(input)[..i]
      invariant forall k :: Counter(counters, k) == Occurrences(input[..i], k)
    {
      var d := chunks[i];
      assert d == input[i];
      var source := Get(d.metadata, "source", Str("unknown"));
      var page := Get(d.metadata, "page", Int(1));
      var key := ChunkKey(source, page);
      var idx := if key in counters then counters[key] else 0;
      assert key == KeyOf(input[i]);
      CounterStep(input, i, counters, key, idx, counters[key := idx + 1]);
      counters := counters[key := idx + 1];
      var chunkId := Render(source) + "::p" + Render(page) + "::c" + ZeroPad3(idx);
      ghost var before := chunks[..];
      chunks[i] := Document(d.metadata["chunk_index" := Int(idx)]["chunk_id" := Str(chunkId)], d.pageContent);
      assert chunks[..] == before[i := chunks[i]];
      ids := ids + [chunkId];
      IdsSnoc(input, i);
      SpliceStep(Assigned(input), input, i);
    }
    assert Ids(input)[..chunks.Length] == Ids(input);
    assert Assigned(input)[..chunks.Length] == Assigned(input);
  }

  /** Writing the `i`-th new element over the old one moves the boundary
      between the part already done and the part still to do. */
  lemma SpliceStep(done: seq<Document>, todo: seq<Document>, i: nat)
    requires |done| == |todo| && i < |todo|
    ensures (done[..i] + todo[i..])[i := done[i]] == done[..i + 1] + todo[i + 1..]
  {
  }

  /** One step of the counters: the current count of a chunk's key is its
      index, and one more occurrence is counted after it. */
  lemma CounterStep(s: seq<Document>, i: nat, counters: map<ChunkKey, nat>,
                    key: ChunkKey, idx: nat, next: map<ChunkKey, nat>)
    requires i < |s|
    requires forall k :: Counter(counters, k) == Occurrences(s[..i], k)
    requires key == KeyOf(s[i]) && idx == Counter(counters, key) && next == counters[key := idx + 1]
    ensures idx == Index(s, i)
    ensures forall k :: Counter(next, k) == Occurrences(s[..i + 1], k)
  {
    assert s[..i + 1][..i] == s[..i];
  }

  lemma IdsSnoc(s: seq<Document>, i: nat)
    requires i < |s|
    ensures Ids(s)[..i + 1] == Ids(s)[..i] + [ChunkId(KeyOf(s[i]), Index(s, i))]
    ensures Assigned(s)[i] == Tag(s[i], Index(s, i))
  {
    assert Ids(s)[..i + 1] == Ids(s)[..i] + [Ids(s)[i]];
  }

  // ----------------------------------------------------------------- laws

  /** The list of ids lines up with the chunks: `ids[i]` is the `chunk_id`
      written into chunk `i`, next to its `chunk_index`. */
  lemma IdsMatchMetadata(s: seq<Document>, i: nat)
    requires i < |s|
    ensures "chunk_id" in Assigned(s)[i].metadata && Assigned(s)[i].metadata["chunk_id"] == Str(Ids(s)[i])
    ensures "chunk_index" in Assigned(s)[i].metadata && Assigned(s)[i].metadata["chunk_index"] == Int(Index(s, i))
  {
  }

  /** The pass changes nothing but those two keys. */
  lemma NothingElseChanges(s: seq<Document>, i: nat)
    requires i < |s|
    ensures Assigned(s)[i].pageContent == s[i].pageContent
    ensures Assigned(s)[i].metadata.Keys == s[i].metadata.Keys + {"chunk_index", "chunk_id"}
    ensures forall k | k in s[i].metadata && k != "chunk_index" && k != "chunk_id" ::
      Assigned(s)[i].metadata[k] == s[i].metadata[k]
    ensures KeyOf(Assigned(s)[i]) == KeyOf(s[i])
  {
  }

  lemma {:induction false} OccurrencesMonotone(s: seq<Document>, a: nat, b: nat, k: ChunkKey)
    requires a <= b <= |s|
    ensures Occurrences(s[..a], k) <= Occurrences(s[..b], k)
    decreases b - a
  {
    if a < b {
      OccurrencesMonotone(s, a, b - 1, k);
      assert s[..b][..b - 1] == s[..b - 1];
    }
  }

  /** The first chunk of a key gets index 0, and indices of one key grow
      along the list. */
  lemma IndicesIncrease(s: seq<Document>, i: nat, j: nat)
    requires i < j < |s| && KeyOf(s[i]) == KeyOf(s[j])
    ensures Index(s, i) < Index(s, j)
  {
    var k := KeyOf(s[i]);
    assert s[..i + 1][..i] == s[..i];
    assert Occurrences(s[..i + 1], k) == Index(s, i) + 1;
    OccurrencesMonotone(s, i + 1, j, k);
  }

  lemma {:induction false} NoEarlierMeansZero(s: seq<Document>, i: nat, k: ChunkKey)
    requires i <= |s| && forall j | 0 <= j < i :: KeyOf(s[j]) != k
    ensures Occurrences(s[..i], k) == 0
  {
    if i > 0 {
      assert s[..i][..i - 1] == s[..i - 1];
      NoEarlierMeansZero(s, i - 1, k);
    }
  }

  /** The first chunk of each key is numbered `c000`. */
  lemma FirstOfKeyIsZero(s: seq<Document>, i: nat)
    requires i < |s| && forall j | 0 <= j < i :: KeyOf(s[j]) != KeyOf(s[i])
    ensures Index(s, i) == 0 && Ids(s)[i] == IdPrefix(KeyOf(s[i])) + "000"
  {
    NoEarlierMeansZero(s, i, KeyOf(s[i]));
    assert NatToString(0) == "0";
    assert Zeros(2) == "00";
  }

  /** Chunks with the same key never share an id. */
  lemma SameKeyDistinctIds(s: seq<Document>, i: nat, j: nat)
    requires i < j < |s| && KeyOf(s[i]) == KeyOf(s[j])
    ensures Ids(s)[i] != Ids(s)[j]
  {
    IndicesIncrease(s, i, j);
    var p := IdPrefix(KeyOf(s[i]));
    ZeroPad3Injective(Index(s, i), Index(s, j));
    var a := p + ZeroPad3(Index(s, i));
    var b := p + ZeroPad3(Index(s, j));
    assert a[|p|..] == ZeroPad3(Index(s, i)) && b[|p|..] == ZeroPad3(Index(s, j));
  }
}
