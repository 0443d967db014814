/** `answer_and_sources` of the backend: an ordered chain of checks, each of
    which can end the query with a fixed reply, around a retrieval and a
    generation whose outcomes are inputs here. `retrieve(q, k)` stands for
    the vector store's scored similarity search and `generate(q, context)`
    for the chat model invoked on the prompt built from the question and
    the numbered context; "failed" is any exception either call raises. */
module Backend {
  import opened Text
  import opened Metadata
  import opened Citations
  import opened NumberedContext

  /** The configuration values the query path reads. Relevance scores are
      compared only with each other and with `minRelevance`, so integers
      stand in for Python floats. */
  datatype Config = Config(topK: int, minRelevance: int, maxAnswerChars: int, refusalText: string)

  /** A retrieved chunk with its relevance score. */
  datatype Scored = Scored(doc: Document, score: int)

  datatype Retrieval = RetrievalFailed | Retrieved(results: seq<Scored>)

  /** The chat model's answer content (`None` content is the empty string). */
  datatype Generation = GenerationFailed | Generated(content: string)

  /** One entry of the reply's `docs` list: the evidence actually retrieved. */
  datatype Evidence = Evidence(source: Value, page: Value, text: string)

  /** The reply dict: `Bare` is `{"answer": a, "sources": []}`; `Grounded`
      is an accepted answer with what the model claimed in `sources`, the
      retrieved evidence in `docs`, and `top_k`. */
  datatype Reply =
    | Bare(answer: string)
    | Grounded(answer: string, sources: map<nat, string>, docs: seq<Evidence>, topK: int)
  {
    /** `result.get("sources", {})` with the empty list read as no sources. */
    function Sources(): map<nat, string> { if Bare? then map[] else sources }

    /** `result.get("docs", [])`. */
    function Docs(): seq<Evidence> { if Bare? then [] else docs }
  }

  const AskForQuestion: string := "Please provide a question."
  const RetrievalFailedText: string := "Request failed (retrieval)."
  const LlmFailedText: string := "Request failed (LLM)."
  /** The three characters appended to a cut answer. */
  const Ellipsis: string := "\U{00E2}\U{20AC}\U{00A6}"
  /** What lets a model refusal through unchanged (searched case-folded). */
  const RefusalPhrase: string := "i cannot answer"

  // ------------------------------------------------------ ranking results

  predicate SortedByScore(rs: seq<Scored>) {
    forall i, j | 0 <= i < j < |rs| :: rs[i].score >= rs[j].score
  }

  /** Put `x` into a ranking after every result scoring at least as high. */
  function InsertByScore(x: Scored, rs: seq<Scored>): (r: seq<Scored>)
    requires SortedByScore(rs)
    ensures SortedByScore(r) && multiset(r) == multiset(rs) + multiset{x}
    ensures r[0] == x || (rs != [] && r[0] == rs[0])
  {
    if rs == [] then [x]
    else if rs[0].score >= x.score then
      var tail := InsertByScore(x, rs[1..]);
      assert rs == [rs[0]] + rs[1..];
      SortedCons(rs[0], tail);
      [rs[0]] + tail
    else
      SortedCons(x, rs);
      [x] + rs
  }

  /** A result scoring at least the head of a ranking can go in front. */
  lemma SortedCons(a: Scored, t: seq<Scored>)
    requires SortedByScore(t) && (t == [] || t[0].score <= a.score)
    ensures SortedByScore([a] + t)
  {
    var r := [a] + t;
    forall i, j | 0 <= i < j < |r| ensures r[i].score >= r[j].score {
      if i > 0 {
        assert r[i] == t[i - 1] && r[j] == t[j - 1];
      } else {
        assert r[j] == t[j - 1] && t[0].score >= t[j - 1].score;
      }
    }
  }

  /** `sorted(results, key=score, reverse=True)`: highest score first. */
  function SortByScore(rs: seq<Scored>): (r: seq<Scored>)
    ensures SortedByScore(r) && multiset(r) == multiset(rs) && |r| == |rs|
  {
    if rs == [] then []
    else
      var init := rs[..|rs| - 1];
      assert rs == init + [rs[|rs| - 1]];
      var r := InsertByScore(rs[|rs| - 1], SortByScore(init));
      assert |r| == |multiset(r)|;
      r
  }

  /** The results with score `v`, in order. */
  function WithScore(rs: seq<Scored>, v: int): seq<Scored> {
    if rs == [] then []
    else WithScore(rs[..|rs| - 1], v) + (if rs[|rs| - 1].score == v then [rs[|rs| - 1]] else [])
  }

  lemma {:induction false} WithScoreAppend(a: seq<Scored>, b: seq<Scored>, v: int)
    ensures WithScore(a + b, v) == WithScore(a, v) + WithScore(b, v)
    decreases |b|
  {
    if b == [] {
      assert a + b == a;
    } else {
      assert (a + b)[..|a + b| - 1] == a + b[..|b| - 1];
      WithScoreAppend(a, b[..|b| - 1], v);
    }
  }

  lemma {:induction false} WithScoreBelow(rs: seq<Scored>, v: int)
    requires forall i | 0 <= i < |rs| :: rs[i].score < v
    ensures WithScore(rs, v) == []
  {
    if rs != [] { WithScoreBelow(rs[..|rs| - 1], v); }
  }

  lemma {:induction false} InsertStable(x: Scored, rs: seq<Scored>, v: int)
    requires SortedByScore(rs)
    ensures WithScore(InsertByScore(x, rs), v)
         == WithScore(rs, v) + (if x.score == v then [x] else [])
  {
    var own := if x.score == v then [x] else [];
    WithScoreOne(x, v);
    if rs == [] {
      assert WithScore(rs, v) + own == own;
    } else if rs[0].score >= x.score {
      var tail := InsertByScore(x, rs[1..]);
      InsertStable(x, rs[1..], v);
      ConsStable(tail, rs, own, v);
    } else {
      FrontStable(x, rs, v);
    }
  }

  /** Keeping the head in front keeps its place among its equals. */
  lemma ConsStable(tail: seq<Scored>, rs: seq<Scored>, own: seq<Scored>, v: int)
    requires rs != [] && WithScore(tail, v) == WithScore(rs[1..], v) + own
    ensures WithScore([rs[0]] + tail, v) == WithScore(rs, v) + own
  {
    WithScoreAppend([rs[0]], tail, v);
    WithScoreCons(rs, v);
    var head, rest := WithScore([rs[0]], v), WithScore(rs[1..], v);
    assert head + (rest + own) == (head + rest) + own;
  }

  /** A result put in front of a ranking that scores strictly below it
      comes after nothing of its own score. */
  lemma FrontStable(x: Scored, rs: seq<Scored>, v: int)
    requires SortedByScore(rs) && (rs == [] || rs[0].score < x.score)
    ensures WithScore([x] + rs, v) == WithScore(rs, v) + (if x.score == v then [x] else [])
  {
    WithScoreOne(x, v);
    WithScoreAppend([x], rs, v);
    if x.score == v {
      WithScoreBelow(rs, v);
      assert [x] + [] == [] + [x];
    } else {
      assert [] + WithScore(rs, v) == WithScore(rs, v) + [];
    }
  }

  lemma WithScoreCons(rs: seq<Scored>, v: int)
    requires rs != []
    ensures WithScore(rs, v) == WithScore([rs[0]], v) + WithScore(rs[1..], v)
  {
    WithScoreAppend([rs[0]], rs[1..], v);
    assert [rs[0]] + rs[1..] == rs;
  }

  lemma WithScoreOne(x: Scored, v: int)
    ensures WithScore([x], v) == if x.score == v then [x] else []
  {
    assert [x][..0] == [];
  }

  /** The sort is stable: results with equal scores keep their retrieval
      order, as Python's `sorted` promises even with `reverse=True`. */
  lemma {:induction false} SortIsStable(rs: seq<Scored>, v: int)
    ensures WithScore(SortByScore(rs), v) == WithScore(rs, v)
  {
    if rs != [] {
      var init := rs[..|rs| - 1];
      SortIsStable(init, v);
      InsertStable(rs[|rs| - 1], SortByScore(init), v);
    }
  }

  /** The first ranked result has the highest score of all. */
  lemma TopIsBest(rs: seq<Scored>)
    requires rs != []
    ensures SortByScore(rs)[0] in rs
    ensures forall x | x in rs :: x.score <= SortByScore(rs)[0].score
  {
    var r := SortByScore(rs);
    assert r[0] in multiset(r);
    forall x | x in rs ensures x.score <= r[0].score {
      assert x in multiset(rs);
      var j :| 0 <= j < |r| && r[j] == x;
    }
  }

  // ----------------------------------------------------- Python slicing

  /** Where `s[:k]` stops, negative `k` counting from the end. */
  function SliceEnd(len: nat, k: int): (e: nat)
    ensures e <= len
    ensures 0 <= k ==> e == if k <= len then k else len
  {
    if k >= 0 then (if k <= len then k else len)
    else if len + k >= 0 then len + k else 0
  }

  /** `results[:TOP_K]`, keeping the documents. */
  function ContextDocs(ranked: seq<Scored>, topK: int): (docs: seq<Document>)
    ensures |docs| == SliceEnd(|ranked|, topK)
    ensures forall i | 0 <= i < |docs| :: docs[i] == ranked[i].doc
  {
    var top := ranked[..SliceEnd(|ranked|, topK)];
    seq(|top|, i requires 0 <= i < |top| => top[i].doc)
  }

  /** The length cap: an over-long answer keeps an rstripped prefix of at
      most `maxChars` characters and gets the three-character suffix. */
  function CapLength(text: string, maxChars: int): string {
    if |text| > maxChars then RStrip(text[..SliceEnd(|text|, maxChars)]) + Ellipsis else text
  }

  lemma RStripIsPrefix(s: string)
    ensures |RStrip(s)| <= |s| && s[..|RStrip(s)|] == RStrip(s)
    ensures RStrip(s) == [] || !IsSpace(RStrip(s)[|RStrip(s)| - 1])
  {
  }

  /** Length never leads to a refusal by itself: a short answer is kept
      whole; a long one keeps a prefix of `s[:maxChars]` (with Python's
      reading of a negative `maxChars`, counting from the end) from which
      only trailing whitespace was cut, and gets the three-character suffix. */
  lemma CapLengthShape(text: string, maxChars: int)
    ensures |text| <= maxChars ==> CapLength(text, maxChars) == text
    ensures |text| > maxChars ==>
      var r := CapLength(text, maxChars);
      var e := if maxChars >= 0 then maxChars else if |text| + maxChars >= 0 then |text| + maxChars else 0;
      var keep := |r| - |Ellipsis|;
      && |Ellipsis| == 3 && 0 <= keep <= e <= |text|
      && r[keep..] == Ellipsis && r[..keep] == text[..keep]
      && (forall i | keep <= i < e :: IsSpace(text[i]))
      && (keep > 0 ==> !IsSpace(text[keep - 1]))
  {
    if |text| > maxChars {
      var e := SliceEnd(|text|, maxChars);
      var p := text[..e];
      RStripIsPrefix(p);
      var r := CapLength(text, maxChars);
      assert r == RStrip(p) + Ellipsis;
      assert r[..|RStrip(p)|] == RStrip(p);
      assert forall i | |RStrip(p)| <= i < e :: IsSpace(p[i]);
    }
  }

  // ------------------------------------------------------------ validation

  datatype Verdict = Accept(sources: map<nat, string>) | Refuse

  /** Lines 189-209: the cited numbers, the Sources lines, the subset check
      and the exact comparison of every Sources reference. */
  function Validate(text: string, allowed: map<nat, string>): Verdict {
    var cited := ExtractSourceNumbers(text);
    if cited == {} then Refuse
    else
      var lines := SourcesLines(text);
      if lines == [] then Refuse
      else
        var claimed := ToMap(lines);
        if !(cited <= claimed.Keys) then Refuse
        else if exists n | n in claimed :: n !in allowed || claimed[n] != allowed[n] then Refuse
        else Accept(claimed)
  }

  /** The evidence entry of a chunk: an integer page is shifted by one. */
  function EvidenceOf(d: Document): Evidence {
    var page := Get(d.metadata, "page", NoneValue);
    Evidence(Get(d.metadata, "source", Str("unknown")),
             if page.Int? then Int(page.n + 1) else page,
             d.pageContent)
  }

  function EvidenceList(docs: seq<Document>): (r: seq<Evidence>)
    ensures |r| == |docs| && forall i | 0 <= i < |docs| :: r[i] == EvidenceOf(docs[i])
  {
    seq(|docs|, i requires 0 <= i < |docs| => EvidenceOf(docs[i]))
  }

  /** The evidence list and the context agree: rendering an evidence
      entry's source and shifted page as the context does gives back the
      reference the model had to quote for that chunk; only a missing or
      `None` page, quoted as `?`, is returned as `None`. */
  lemma EvidenceShowsReference(docs: seq<Document>, i: nat)
    requires i < |docs|
    ensures var ev := EvidenceList(docs)[i];
      && ev.text == docs[i].pageContent
      && (!ev.page.NoneValue? ==> Reference(docs[i]) == Render(ev.source) + " p." + Render(ev.page))
      && (ev.page.NoneValue? ==> Reference(docs[i]) == Render(ev.source) + " p.?")
  {
  }

  /** From the generation on, for the context chunks `docs`. */
  function Respond(q: string, docs: seq<Document>, generate: (string, string) -> Generation, cfg: Config): Reply {
    match generate(q, Context(docs))
    case GenerationFailed => Bare(LlmFailedText)
    case Generated(content) =>
      var text := CapLength(Strip(content), cfg.maxAnswerChars);
      if Contains(Lower(text), RefusalPhrase) then Bare(text)
      else match Validate(text, Refs(docs))
        case Refuse => Bare(cfg.refusalText)
        case Accept(claimed) => Grounded(text, claimed, EvidenceList(docs), cfg.topK)
  }

  /** The whole query, as a function of the question and of what the
      retrieval and the generation return. */
  function Answer(question: string, retrieve: (string, int) -> Retrieval,
                  generate: (string, string) -> Generation, cfg: Config): Reply
  {
    var q := Strip(question);
    if q == "" then Bare(AskForQuestion)
    else match retrieve(q, cfg.topK)
      case RetrievalFailed => Bare(RetrievalFailedText)
      case Retrieved(results) =>
        if results == [] then Bare(cfg.refusalText)
        else
          var ranked := SortByScore(results);
          if ranked[0].score < cfg.minRelevance then Bare(cfg.refusalText)
          else Respond(q, ContextDocs(ranked, cfg.topK), generate, cfg)
  }

  /** The dict's keys in insertion order: each number where it first occurs. */
  function KeyOrder(es: seq<Entry>): (r: seq<nat>)
    ensures forall i | 0 <= i < |r| :: r[i] in ToMap(es)
    ensures forall n | n in ToMap(es) :: n in r
  {
    if es == [] then []
    else
      var r := KeyOrder(es[..|es| - 1]);
      var n := es[|es| - 1].num;
      if n in r then r else r + [n]
  }

  /** The loop over `model_sources.items()` (in insertion order `order`):
      stop at the first number that is not in the context or whose
      reference differs from the context's. */
  method ClaimsMatch(claimed: map<nat, string>, order: seq<nat>, allowed: map<nat, string>)
    returns (ok: bool)
    requires forall i | 0 <= i < |order| :: order[i] in claimed
    requires forall n | n in claimed :: n in order
    ensures ok <==> forall n | n in claimed :: n in allowed && claimed[n] == allowed[n]
  {
    for k := 0 to |order|
      invariant forall j | 0 <= j < k :: order[j] in allowed && claimed[order[j]] == allowed[order[j]]
    {
      var n := order[k];
      if n !in allowed || claimed[n] != allowed[n] {
        return false;
      }
    }
    forall n | n in claimed ensures n in allowed && claimed[n] == allowed[n] {
      var j :| 0 <= j < |order| && order[j] == n;
    }
    return true;
  }

  /** `answer_and_sources`, step by step. */
  method AnswerAndSources(question: string, retrieve: (string, int) -> Retrieval,
                          generate: (string, string) -> Generation, cfg: Config)
    returns (reply: Reply)
    ensures reply == Answer(question, retrieve, generate, cfg)
  {
    var q := Strip(question);
    if q == "" {
      return Bare(AskForQuestion);
    }
    var outcome := retrieve(q, cfg.topK);
    if outcome.RetrievalFailed? {
      return Bare(RetrievalFailedText);
    }
    var results := outcome.results;
    if results == [] {
      return Bare(cfg.refusalText);
    }
    results := SortByScore(results);
    if results[0].score < cfg.minRelevance {
      return Bare(cfg.refusalText);
    }
    var contextDocs := ContextDocs(results, cfg.topK);
    reply := GenerateAndCheck(q, contextDocs, generate, cfg);
  }

  /** The second half of `answer_and_sources`: generation, the length cap,
      the refusal bypass and the citation checks. */
  method GenerateAndCheck(q: string, contextDocs: seq<Document>,
                          generate: (string, string) -> Generation, cfg: Config)
    returns (reply: Reply)
    ensures reply == Respond(q, contextDocs, generate, cfg)
  {
    var contextStr, allowedRefs := MakeNumberedContext(contextDocs);
    var generation := generate(q, contextStr);
    if generation.GenerationFailed? {
      return Bare(LlmFailedText);
    }
    var responseText := Strip(generation.content);
    if |responseText| > cfg.maxAnswerChars {
      responseText := RStrip(responseText[..SliceEnd(|responseText|, cfg.maxAnswerChars)]) + Ellipsis;
    }
    assert responseText == CapLength(Strip(generation.content), cfg.maxAnswerChars);
    var lower := Lower(responseText);
    if Contains(lower, RefusalPhrase) {
      return Bare(responseText);
    }
    var verdict := CheckCitations(responseText, allowedRefs);
    if verdict.Refuse? {
      return Bare(cfg.refusalText);
    }
    reply := Grounded(responseText, verdict.sources, EvidenceList(contextDocs), cfg.topK);
  }

  /** The citation checks of `answer_and_sources`, in their order, each
      failure being a refusal. */
  method CheckCitations(responseText: string, allowedRefs: map<nat, string>) returns (verdict: Verdict)
    ensures verdict == Validate(responseText, allowedRefs)
  {
    var citedNums := ExtractSourceNumbers(responseText);
    if citedNums == {} {
      return Refuse;
    }
    var sourcesLines := SourcesLines(responseText);
    if sourcesLines == [] {
      return Refuse;
    }
    var modelSources := ToMap(sourcesLines);
    if !(citedNums <= modelSources.Keys) {
      return Refuse;
    }
    var allMatch := ClaimsMatch(modelSources, KeyOrder(sourcesLines), allowedRefs);
    if !allMatch {
      return Refuse;
    }
    verdict := Accept(modelSources);
  }

  // ---------------------------------------------------------------- laws

  /** A question that is empty or all whitespace is answered with the
      prompt, whatever the services would have returned. */
  lemma BlankQuestionIsPrompted(question: string, retrieve: (string, int) -> Retrieval,
                                generate: (string, string) -> Generation, cfg: Config)
    requires forall i | 0 <= i < |question| :: IsSpace(question[i])
    ensures Answer(question, retrieve, generate, cfg) == Bare(AskForQuestion)
  {
    StripEmptyIffBlank(question);
  }

  /** The threshold gate: when no retrieved result reaches the minimum
      relevance the query is refused, and the generator is never asked. */
  lemma WeakEvidenceIsRefused(question: string, retrieve: (string, int) -> Retrieval,
                              generate: (string, string) -> Generation, cfg: Config, rs: seq<Scored>)
    requires Strip(question) != [] && retrieve(Strip(question), cfg.topK) == Retrieved(rs)
    requires forall x | x in rs :: x.score < cfg.minRelevance
    ensures Answer(question, retrieve, generate, cfg) == Bare(cfg.refusalText)
  {
    if rs != [] { TopIsBest(rs); }
  }

  /** Only the best score is gated: once one result reaches the minimum,
      the generator sees the first `topK` results in rank order, weaker
      ones included. */
  lemma StrongEvidenceReachesGenerator(question: string, retrieve: (string, int) -> Retrieval,
                                       generate: (string, string) -> Generation, cfg: Config,
                                       rs: seq<Scored>, best: Scored)
    requires Strip(question) != [] && retrieve(Strip(question), cfg.topK) == Retrieved(rs)
    requires best in rs && best.score >= cfg.minRelevance
    ensures Answer(question, retrieve, generate, cfg)
         == Respond(Strip(question), ContextDocs(SortByScore(rs), cfg.topK), generate, cfg)
  {
    TopIsBest(rs);
  }

  /** The context is the `topK` best results: it is a prefix of the
      ranking, so every chunk kept scores at least as high as every result
      left out, and the ranking holds exactly the retrieved results. */
  lemma ContextIsTopK(rs: seq<Scored>, topK: int)
    ensures var ranked := SortByScore(rs);
      var docs := ContextDocs(ranked, topK);
      && |docs| == (if 0 <= topK then (if topK <= |rs| then topK else |rs|)
                    else if 0 <= |rs| + topK then |rs| + topK else 0)
      && multiset(ranked) == multiset(rs)
      && (forall i | 0 <= i < |docs| :: docs[i] == ranked[i].doc)
      && (forall i, j | 0 <= i < |docs| <= j < |ranked| :: ranked[i].score >= ranked[j].score)
  {
  }

  /** When the (capped) answer contains the refusal phrase in any case, it
      is returned unchanged and none of the citation checks run. */
  lemma RefusalPhrasePassesThrough(q: string, docs: seq<Document>,
                                   generate: (string, string) -> Generation, cfg: Config, content: string)
    requires generate(q, Context(docs)) == Generated(content)
    requires Contains(Lower(CapLength(Strip(content), cfg.maxAnswerChars)), RefusalPhrase)
    ensures Respond(q, docs, generate, cfg) == Bare(CapLength(Strip(content), cfg.maxAnswerChars))
  {
  }

  /** The validator, stated against the context: an answer is accepted
      exactly when it cites at least one `[n]`, every cited number has a
      Sources line, and every Sources line names a context number with that
      number's reference, character for character; what is accepted is the
      Sources dict. */
  lemma ValidateIff(text: string, docs: seq<Document>)
    ensures var claimed := ToMap(SourcesLines(text));
      var cited := ExtractSourceNumbers(text);
      && (Validate(text, Refs(docs)).Accept? <==>
            && cited != {} && cited <= claimed.Keys
            && forall n | n in claimed :: 1 <= n <= |docs| && claimed[n] == Reference(docs[n - 1]))
      && (Validate(text, Refs(docs)).Accept? ==> Validate(text, Refs(docs)).sources == claimed)
  {
    ClaimsAgainstRefs(ToMap(SourcesLines(text)), docs);
  }

  /** The mismatch test of the validator, read against the context. */
  lemma ClaimsAgainstRefs(claimed: map<nat, string>, docs: seq<Document>)
    ensures var allowed := Refs(docs);
      (forall n | n in claimed :: 1 <= n <= |docs| && claimed[n] == Reference(docs[n - 1]))
      <==> !(exists n | n in claimed :: n !in allowed || claimed[n] != allowed[n])
  {
  }

  /** Every Sources line is itself a `[n]` occurrence, so an accepted
      answer's cited numbers are exactly the numbers it lists as sources. */
  lemma AcceptedCitesItsSources(text: string, allowed: map<nat, string>)
    requires Validate(text, allowed).Accept?
    ensures ExtractSourceNumbers(text) == Validate(text, allowed).sources.Keys
  {
    var es := SourcesLines(text);
    var claimed := Validate(text, allowed).sources;
    assert claimed == ToMap(es);
    ToMapLastWins(es);
    EntryNumbersAreCited(text, 0, true);
    forall n | n in claimed ensures n in ExtractSourceNumbers(text) {
      var j :| 0 <= j < |es| && es[j].num == n;
    }
  }

  /** From the generation on: an answer without the refusal phrase is
      accepted exactly when the validator accepts it against the context,
      and is otherwise the configured refusal. */
  lemma GroundedIff(q: string, docs: seq<Document>,
                    generate: (string, string) -> Generation, cfg: Config, content: string)
    requires generate(q, Context(docs)) == Generated(content)
    ensures var text := CapLength(Strip(content), cfg.maxAnswerChars);
      var claimed := ToMap(SourcesLines(text));
      var cited := ExtractSourceNumbers(text);
      var reply := Respond(q, docs, generate, cfg);
      && (reply.Grounded? <==>
            && !Contains(Lower(text), RefusalPhrase)
            && cited != {} && cited <= claimed.Keys
            && forall n | n in claimed :: 1 <= n <= |docs| && claimed[n] == Reference(docs[n - 1]))
      && (reply.Grounded? ==> reply == Grounded(text, claimed, EvidenceList(docs), cfg.topK))
      && (!reply.Grounded? && !Contains(Lower(text), RefusalPhrase) ==> reply == Bare(cfg.refusalText))
  {
    var text := CapLength(Strip(content), cfg.maxAnswerChars);
    ValidateIff(text, docs);
  }

  /** What an accepted reply carries, for the whole query: cited numbers
      that are exactly its listed sources, each listed source the
      context's reference for that number, the evidence of the context
      chunks in rank order, and `top_k`. */
  lemma AcceptedAnswerIsGrounded(question: string, retrieve: (string, int) -> Retrieval,
                                 generate: (string, string) -> Generation, cfg: Config, rs: seq<Scored>)
    requires Strip(question) != [] && retrieve(Strip(question), cfg.topK) == Retrieved(rs)
    requires Answer(question, retrieve, generate, cfg).Grounded?
    ensures var reply := Answer(question, retrieve, generate, cfg);
      var docs := ContextDocs(SortByScore(rs), cfg.topK);
      && ExtractSourceNumbers(reply.answer) == reply.sources.Keys != {}
      && (forall n | n in reply.sources :: 1 <= n <= |docs| && reply.sources[n] == Reference(docs[n - 1]))
      && reply.docs == EvidenceList(docs) && reply.topK == cfg.topK
      && !Contains(Lower(reply.answer), RefusalPhrase)
  {
    var q := Strip(question);
    var docs := ContextDocs(SortByScore(rs), cfg.topK);
    assert Answer(question, retrieve, generate, cfg) == Respond(q, docs, generate, cfg);
    var content := generate(q, Context(docs)).content;
    var text := CapLength(Strip(content), cfg.maxAnswerChars);
    GroundedIff(q, docs, generate, cfg, content);
    AcceptedCitesItsSources(text, Refs(docs));
  }

  /** The stored page of `handbook.pdf` is zero-based: page index 1 is
      quoted as `p.2`. */
  function HandbookPage(): Document {
    Document(map["source" := Str("handbook.pdf"), "page" := Int(1)], "Refunds are issued within 14 days.")
  }

  /** A model that lists the right file with the page one too low is
      refused, one character being enough. */
  lemma OffByOnePageIsRefused(q: string, generate: (string, string) -> Generation, cfg: Config, content: string)
    requires generate(q, Context([HandbookPage()])) == Generated(content)
    requires var text := CapLength(Strip(content), cfg.maxAnswerChars);
      && !Contains(Lower(text), RefusalPhrase)
      && ToMap(SourcesLines(text)) == map[1 := "handbook.pdf p.1"]
    ensures Respond(q, [HandbookPage()], generate, cfg) == Bare(cfg.refusalText)
  {
    HandbookAnswerRefused(CapLength(Strip(content), cfg.maxAnswerChars));
  }

  lemma HandbookAnswerRefused(text: string)
    requires ToMap(SourcesLines(text)) == map[1 := "handbook.pdf p.1"]
    ensures Validate(text, Refs([HandbookPage()])) == Refuse
  {
    var allowed := Refs([HandbookPage()]);
    assert 1 in Ranks(1);
    assert allowed[1] == "handbook.pdf p.2" by { assert NatToString(2) == "2"; }
    assert "handbook.pdf p.1"[15] != "handbook.pdf p.2"[15];
  }

  /** The same answer quoting `p.2` is accepted with that single source. */
  lemma CorrectPageIsAccepted(q: string, generate: (string, string) -> Generation, cfg: Config, content: string)
    requires generate(q, Context([HandbookPage()])) == Generated(content)
    requires var text := CapLength(Strip(content), cfg.maxAnswerChars);
      && !Contains(Lower(text), RefusalPhrase)
      && ExtractSourceNumbers(text) == {1}
      && ToMap(SourcesLines(text)) == map[1 := "handbook.pdf p.2"]
    ensures Respond(q, [HandbookPage()], generate, cfg).Grounded?
    ensures Respond(q, [HandbookPage()], generate, cfg).sources == map[1 := "handbook.pdf p.2"]
  {
    HandbookAnswerValidates(CapLength(Strip(content), cfg.maxAnswerChars));
  }

  lemma HandbookAnswerValidates(text: string)
    requires ExtractSourceNumbers(text) == {1}
    requires ToMap(SourcesLines(text)) == map[1 := "handbook.pdf p.2"]
    ensures Validate(text, Refs([HandbookPage()])) == Accept(map[1 := "handbook.pdf p.2"])
  {
    var docs := [HandbookPage()];
    assert Reference(docs[0]) == "handbook.pdf p.2" by { assert NatToString(2) == "2"; }
    ValidateIff(text, docs);
  }

  // ------------------------------------------------------------ examples

  /** A chat model that answers every prompt with `content`. */
  function AlwaysSays(content: string): (string, string) -> Generation {
    (q: string, context: string) => Generated(content)
  }

  /** The reference the examples' model answers list for the handbook:
      `page` is a one-digit page number. */
  function HandbookRef(page: char): string { "handbook.pdf p." + [page] }

  /** A model answer in the requested format citing the handbook once. */
  function HandbookReply(sentence: string, page: char): string {
    OneSourceText(sentence, HandbookRef(page))
  }

  /** What the examples need of such an answer when its sentence has no
      `[` and no letter `i`: the strip and the length cap keep it whole, it
      does not contain the refusal phrase, it cites exactly 1, and its one
      Sources line maps 1 to the reference as written. */
  lemma HandbookReplyFacts(sentence: string, page: char, cfg: Config)
    requires sentence != [] && !IsSpace(sentence[0]) && |sentence| <= 30
    requires Free(sentence, '[') && Free(sentence, 'i') && Free(sentence, 'I')
    requires IsDigit(page) && cfg.maxAnswerChars >= 80
    ensures var text := HandbookReply(sentence, page);
      && CapLength(Strip(text), cfg.maxAnswerChars) == text
      && !Contains(Lower(text), RefusalPhrase)
      && ExtractSourceNumbers(text) == {1}
      && ToMap(SourcesLines(text)) == map[1 := HandbookRef(page)]
  {
    var ref := HandbookRef(page);
    var text := HandbookReply(sentence, page);
    HandbookRefFacts(page);
    OneSourceFree(sentence, ref, 'i');
    OneSourceFree(sentence, ref, 'I');
    assert |text| == |sentence| + 19 + 16 && text[|text| - 1] == ref[15];
    StripUnchanged(text);
    OneSourceNumbers(sentence, ref);
    OneSourceLines(sentence, ref);
    assert ToMap([Entry(1, ref)]) == map[1 := Strip(ref)] by { assert [Entry(1, ref)][..0] == []; }
    LowerFree(text);
    AbsentFirstChar(Lower(text), RefusalPhrase);
  }

  lemma HandbookRefFacts(page: char)
    requires IsDigit(page)
    ensures var ref := HandbookRef(page);
      && |ref| == 16 && Free(ref, '[') && Free(ref, '\n') && Free(ref, 'i') && Free(ref, 'I')
      && !IsSpace(ref[0]) && !IsSpace(ref[15]) && Strip(ref) == ref
  {
    var ref := HandbookRef(page);
    assert ref[..15] == "handbook.pdf p.";
    forall k | 0 <= k < 16 ensures ref[k] !in {'[', '\n', 'i', 'I'} {
      if k < 15 { assert ref[k] == "handbook.pdf p."[k]; }
    }
    StripUnchanged(ref);
  }

  /** The answer avoids a character its sentence and reference avoid, when
      the fixed text between them does too. */
  lemma OneSourceFree(sentence: string, ref: string, c: char)
    requires Free(sentence, c) && Free(ref, c) && c !in " [1].\nSources:\n[1] "
    ensures Free(OneSourceText(sentence, ref), c)
  {
    var mid := " [1].\nSources:\n[1] ";
    var text := OneSourceText(sentence, ref);
    forall k | 0 <= k < |text| ensures text[k] != c {
      if k < |sentence| { assert text[k] == sentence[k]; }
      else if k < |sentence| + |mid| { assert text[k] == mid[k - |sentence|]; assert mid[k - |sentence|] in mid; }
      else { assert text[k] == ref[k - |sentence| - |mid|]; }
    }
  }

  /** A concrete answer quoting `p.2` for the handbook chunk, whose stored
      page is 1, is accepted with exactly that source. */
  lemma CorrectPageExample(q: string, cfg: Config)
    requires cfg.maxAnswerChars >= 80
    ensures var text := HandbookReply("Refunds take 14 days", '2');
      Respond(q, [HandbookPage()], AlwaysSays(text), cfg)
        == Grounded(text, map[1 := "handbook.pdf p.2"], EvidenceList([HandbookPage()]), cfg.topK)
  {
    var sentence := "Refunds take 14 days";
    var text := HandbookReply(sentence, '2');
    var generate := AlwaysSays(text);
    RefundsSentence(sentence);
    HandbookReplyFacts(sentence, '2', cfg);
    HandbookRefs();
    CorrectPageIsAccepted(q, generate, cfg, text);
    GroundedIff(q, [HandbookPage()], generate, cfg, text);
  }

  /** The same answer quoting `p.1`, one character off, is refused. */
  lemma OffByOnePageExample(q: string, cfg: Config)
    requires cfg.maxAnswerChars >= 80
    ensures var text := HandbookReply("Refunds take 14 days", '1');
      Respond(q, [HandbookPage()], AlwaysSays(text), cfg) == Bare(cfg.refusalText)
  {
    var sentence := "Refunds take 14 days";
    var text := HandbookReply(sentence, '1');
    var generate := AlwaysSays(text);
    RefundsSentence(sentence);
    HandbookReplyFacts(sentence, '1', cfg);
    HandbookRefs();
    OffByOnePageIsRefused(q, generate, cfg, text);
  }

  lemma RefundsSentence(sentence: string)
    requires sentence == "Refunds take 14 days"
    ensures sentence != [] && !IsSpace(sentence[0]) && |sentence| <= 30
    ensures Free(sentence, '[') && Free(sentence, 'i') && Free(sentence, 'I')
  {
  }

  lemma HandbookRefs()
    ensures HandbookRef('1') == "handbook.pdf p.1" && HandbookRef('2') == "handbook.pdf p.2"
  {
  }
}
