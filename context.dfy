/** `make_numbered_context` of the backend: the retrieved chunks, in rank
    order, become the blocks `[i] <source> p.<page>` of the generator's
    context, and the map `i -> "<source> p.<page>"` that is the only source
    of legal citations for the query. */
module NumberedContext {
  import opened Text
  import opened Metadata

  /** The string the blocks are joined with. */
  const Separator: string := "\n\n---\n\n"

  /** How a stored page is displayed: an integer page is stored zero-based
      and shown one-based, so the digits shown read back as the stored
      page plus one (a minus sign first when that is negative); a missing or
      `None` page is shown as `?`, and any other value as its `str()`. */
  function PageLabel(page: Value): (r: string)
    ensures page.Int? && page.n + 1 >= 0 ==> r != [] && AllDigits(r) && DigitsValue(r) == page.n + 1
    ensures page.Int? && page.n + 1 < 0 ==>
      |r| >= 2 && r[0] == '-' && AllDigits(r[1..]) && DigitsValue(r[1..]) == -(page.n + 1)
    ensures page.NoneValue? ==> r == "?"
    ensures page.Str? ==> r == page.s
  {
    match page
    case Int(n) =>
      if n + 1 >= 0 then NatToStringRoundTrip(n + 1); IntToString(n + 1)
      else NatToStringRoundTrip(-(n + 1)); IntToString(n + 1)
    case NoneValue => "?"
    case _ => Render(page)
  }

  /** `doc.metadata.get("source", "unknown")`, as an f-string shows it. */
  function SourceLabel(d: Document): string {
    Render(Get(d.metadata, "source", Str("unknown")))
  }

  /** The canonical reference of a chunk: `f"{src} p.{page_str}"`. */
  function Reference(d: Document): string {
    SourceLabel(d) + " p." + PageLabel(Get(d.metadata, "page", NoneValue))
  }

  /** The block of the `i`-th chunk (counting from 1). */
  function Block(i: nat, d: Document): string {
    "[" + NatToString(i) + "] " + Reference(d) + "\n" + d.pageContent
  }

  /** The blocks of all chunks, numbered from 1 in the given order. */
  function Blocks(docs: seq<Document>): (r: seq<string>)
    ensures |r| == |docs|
    ensures forall i | 0 <= i < |docs| :: r[i] == Block(i + 1, docs[i])
  {
    if docs == [] then [] else Blocks(docs[..|docs| - 1]) + [Block(|docs|, docs[|docs| - 1])]
  }

  /** The ranks `1..n`. */
  function Ranks(n: nat): (r: set<nat>)
    ensures forall i :: i in r <==> 1 <= i <= n
  {
    if n == 0 then {} else Ranks(n - 1) + {n}
  }

  /** The ordinal reference map: keys exactly `1..|docs|`, the `i`-th
      chunk's reference under key `i`. */
  function Refs(docs: seq<Document>): map<nat, string> {
    map i | i in Ranks(|docs|) :: Reference(docs[i - 1])
  }

  /** Numbering one more chunk adds its reference under the next rank. */
  lemma RefsSnoc(docs: seq<Document>, d: Document)
    ensures Refs(docs + [d]) == Refs(docs)[|docs| + 1 := Reference(d)]
  {
    var longer := docs + [d];
    assert forall i | 0 <= i < |docs| :: longer[i] == docs[i];
  }

  /** Numbering one more chunk adds its block at the end. */
  lemma BlocksSnoc(docs: seq<Document>, d: Document)
    ensures Blocks(docs + [d]) == Blocks(docs) + [Block(|docs| + 1, d)]
  {
    assert (docs + [d])[..|docs|] == docs;
  }

  /** The context string handed to the generator. */
  function Context(docs: seq<Document>): string {
    Join(Blocks(docs), Separator)
  }

  /** `make_numbered_context`: one pass over the chunks, appending a block
      and recording a reference for each. */
  method MakeNumberedContext(docs: seq<Document>) returns (context: string, refs: map<nat, string>)
    ensures refs == Refs(docs) && context == Context(docs)
  {
    var blocks: seq<string> := [];
    refs := map[];
    for i := 1 to |docs| + 1
      invariant blocks == Blocks(docs[..i - 1])
      invariant refs == Refs(docs[..i - 1])
    {
      var doc := docs[i - 1];
      var src := Render(Get(doc.metadata, "source", Str("unknown")));
      var page := Get(doc.metadata, "page", NoneValue);
      var pageStr: string;
      if page.Int? {
        pageStr := IntToString(page.n + 1);
      } else if page.NoneValue? {
        pageStr := "?";
      } else {
        pageStr := Render(page);
      }
      assert src == SourceLabel(doc) && pageStr == PageLabel(page);
      var ref := src + " p." + pageStr;
      refs := refs[i := ref];
      blocks := blocks + ["[" + NatToString(i) + "] " + ref + "\n" + doc.pageContent];
      assert docs[..i] == docs[..i - 1] + [doc];
      BlocksSnoc(docs[..i - 1], doc);
      RefsSnoc(docs[..i - 1], doc);
    }
    assert docs[..|docs|] == docs;
    context := Join(blocks, Separator);
  }

  /** Each block starts with its tag, which is `[i] ` and the reference
      recorded for `i`. */
  lemma BlockStartsWithLabel(docs: seq<Document>, i: nat)
    requires 1 <= i <= |docs|
    ensures var b := Blocks(docs)[i - 1];
      var tag := "[" + NatToString(i) + "] " + Refs(docs)[i];
      |tag| <= |b| && b[..|tag|] == tag && b[|tag|] == '\n'
  {
    assert i in Ranks(|docs|);
    assert Refs(docs)[i] == Reference(docs[i - 1]);
    assert Blocks(docs)[i - 1] == Block(i, docs[i - 1]);
    PrefixThenNewline("[" + NatToString(i) + "] " + Reference(docs[i - 1]), docs[i - 1].pageContent);
  }

  lemma PrefixThenNewline(tag: string, rest: string)
    ensures var b := tag + "\n" + rest; |tag| < |b| && b[..|tag|] == tag && b[|tag|] == '\n'
  {
    var b := tag + "\n" + rest;
    assert b[..|tag|] == tag;
  }

  /** A chunk of a non-paginated file, whose page the loader defaults to
      `1`, is displayed as page 2. */
  lemma DefaultPageShownAsTwo(d: Document)
    requires "page" in d.metadata && d.metadata["page"] == Int(1)
    ensures Reference(d) == SourceLabel(d) + " p.2"
  {
    assert NatToString(2) == "2";
  }

  /** A stored zero-based PDF page `n` is displayed as `n + 1`. */
  lemma PdfPageShownOneBased(d: Document, n: nat)
    requires "page" in d.metadata && d.metadata["page"] == Int(n)
    ensures Reference(d) == SourceLabel(d) + " p." + NatToString(n + 1)
  {
  }
}
