/** The scoring rules of the evaluation script: how an answer is
    classified as a refusal, and how citation accuracy, groundedness and
    exact match are decided for each question, together with what these
    rules say about the replies the backend can give. */
module Eval {
  import opened Text
  import opened Citations
  import opened NumberedContext
  import opened Backend

  /** What counts as a refusal besides the configured text. */
  const CannotAnswer: string := "cannot answer"

  /** Section headers that need no support from the evidence. */
  const Headers: set<string> :=
    {"Answer:", "Sources:", "Documents:", "Files (no repetition)", "Files (no repetition):"}

  /** `is_refusal`, where `refusal` is the stripped `REFUSAL_TEXT`: the
      stripped answer is empty, or is that text, or contains
      `cannot answer` in any case. */
  predicate IsRefusal(text: string, refusal: string) {
    var t := Strip(text);
    t == [] || (refusal != [] && t == refusal) || Contains(Lower(t), CannotAnswer)
  }

  /** Some retrieved chunk's text contains the line, case-insensitively. */
  predicate Supported(lineLower: string, docs: seq<Evidence>) {
    exists i | 0 <= i < |docs| :: Contains(Lower(docs[i].text), lineLower)
  }

  /** A line of the answer that needs no support or has it. */
  predicate LineOk(raw: string, docs: seq<Evidence>) {
    var line := Strip(raw);
    line == [] || line in Headers || Supported(Lower(line), docs)
  }

  /** The groundedness heuristic: some evidence, and every line supported. */
  predicate GroundedPass(answer: string, docs: seq<Evidence>) {
    docs != [] && forall l | l in Split(answer, '\n') :: LineOk(l, docs)
  }

  /** Every `[n]` of the answer is a claimed source, and there is one. */
  predicate CitationOk(answer: string, sources: map<nat, string>) {
    var cited := ExtractSourceNumbers(answer);
    cited != {} && cited <= sources.Keys
  }

  /** The gold answer is non-empty and, lower-cased, occurs in the
      lower-cased answer. */
  predicate ExactMatch(gold: string, answer: string) {
    gold != [] && Contains(Lower(answer), Lower(gold))
  }

  /** The three verdicts of one record. */
  datatype Verdict = Verdict(grounded: bool, citation: bool, exact: bool)

  /** How one reply is scored. A refusal is grounded, and its citation
      passes exactly when it claims no sources. */
  function Score(gold: string, reply: Reply, refusal: string): Verdict {
    var answer := reply.answer;
    var exact := ExactMatch(gold, answer);
    if IsRefusal(answer, refusal) then Verdict(true, reply.Sources() == map[], exact)
    else Verdict(GroundedPass(answer, reply.Docs()), CitationOk(answer, reply.Sources()), exact)
  }

  /** One line of the questions file: a missing field reads as empty. */
  datatype EvalQuestion = EvalQuestion(question: string, expected: string)

  function RecordVerdict(q: EvalQuestion, retrieve: (string, int) -> Retrieval,
                         generate: (string, string) -> Generation, cfg: Config): Verdict
  {
    Score(Strip(q.expected), Answer(Strip(q.question), retrieve, generate, cfg), Strip(cfg.refusalText))
  }

  /** The groundedness loop, stopping at the first unsupported line. */
  method CheckLines(answerText: string, docs: seq<Evidence>) returns (ok: bool)
    ensures ok <==> forall l | l in Split(answerText, '\n') :: LineOk(l, docs)
  {
    ok := true;
    var lines := Split(answerText, '\n');
    for k := 0 to |lines|
      invariant forall m | 0 <= m < k :: LineOk(lines[m], docs)
    {
      var line := Strip(lines[k]);
      if line == [] {
        continue;
      }
      if line in Headers {
        continue;
      }
      var lineLower := Lower(line);
      if !Supported(lineLower, docs) {
        assert lines[k] in lines && !LineOk(lines[k], docs);
        ok := false;
        break;
      }
    }
  }

  /** The per-record loop of `run_eval`: one answer per question, scored
      into the three lists. */
  method RunEval(questions: seq<EvalQuestion>, retrieve: (string, int) -> Retrieval,
                 generate: (string, string) -> Generation, cfg: Config)
    returns (grounded: seq<bool>, citation: seq<bool>, exact: seq<bool>)
    ensures Columns(Verdicts(questions, retrieve, generate, cfg), grounded, citation, exact)
  {
    grounded, citation, exact := [], [], [];
    for i := 0 to |questions|
      invariant Columns(Verdicts(questions[..i], retrieve, generate, cfg), grounded, citation, exact)
    {
      var v := EvalRecord(questions[i], retrieve, generate, cfg);
      assert questions[..i + 1][..i] == questions[..i];
      ColumnsSnoc(Verdicts(questions[..i], retrieve, generate, cfg), grounded, citation, exact, v);
      grounded, citation, exact := grounded + [v.grounded], citation + [v.citation], exact + [v.exact];
    }
    assert questions[..|questions|] == questions;
  }

  /** The verdicts of the questions, in file order. */
  function Verdicts(qs: seq<EvalQuestion>, retrieve: (string, int) -> Retrieval,
                    generate: (string, string) -> Generation, cfg: Config): (r: seq<Verdict>)
    ensures |r| == |qs|
  {
    if qs == [] then []
    else Verdicts(qs[..|qs| - 1], retrieve, generate, cfg) + [RecordVerdict(qs[|qs| - 1], retrieve, generate, cfg)]
  }

  /** Record `i` of the lists is the verdict of question `i` alone. */
  lemma {:induction false} VerdictsAt(qs: seq<EvalQuestion>, retrieve: (string, int) -> Retrieval,
                                      generate: (string, string) -> Generation, cfg: Config, i: nat)
    requires i < |qs|
    ensures Verdicts(qs, retrieve, generate, cfg)[i] == RecordVerdict(qs[i], retrieve, generate, cfg)
    decreases |qs|
  {
    if i < |qs| - 1 {
      var init := qs[..|qs| - 1];
      VerdictsAt(init, retrieve, generate, cfg, i);
      assert init[i] == qs[i];
    }
  }

  /** The three lists hold the verdicts column by column. */
  ghost predicate Columns(vs: seq<Verdict>, grounded: seq<bool>, citation: seq<bool>, exact: seq<bool>) {
    && |grounded| == |citation| == |exact| == |vs|
    && forall j | 0 <= j < |vs| :: Verdict(grounded[j], citation[j], exact[j]) == vs[j]
  }

  lemma ColumnsSnoc(vs: seq<Verdict>, grounded: seq<bool>, citation: seq<bool>, exact: seq<bool>, v: Verdict)
    requires Columns(vs, grounded, citation, exact)
    ensures Columns(vs + [v], grounded + [v.grounded], citation + [v.citation], exact + [v.exact])
  {
    var vs', g', c', e' := vs + [v], grounded + [v.grounded], citation + [v.citation], exact + [v.exact];
    forall j | 0 <= j < |vs'| ensures Verdict(g'[j], c'[j], e'[j]) == vs'[j] {
      if j < |vs| {
        assert g'[j] == grounded[j] && c'[j] == citation[j] && e'[j] == exact[j] && vs'[j] == vs[j];
      }
    }
  }

  /** The body of the loop for one question. */
  method EvalRecord(q: EvalQuestion, retrieve: (string, int) -> Retrieval,
                    generate: (string, string) -> Generation, cfg: Config)
    returns (v: Verdict)
    ensures v == RecordVerdict(q, retrieve, generate, cfg)
  {
    var question := Strip(q.question);
    var gold := Strip(q.expected);
    var result := AnswerAndSources(question, retrieve, generate, cfg);
    v := ScoreReply(gold, result, Strip(cfg.refusalText));
  }

  /** The scoring of one reply, in the order of the loop body. */
  method ScoreReply(gold: string, result: Reply, refusal: string) returns (v: Verdict)
    ensures v == Score(gold, result, refusal)
  {
    var answerText := result.answer;
    var modelSources := result.Sources();
    var exactMatch := if gold != [] then Contains(Lower(answerText), Lower(gold)) else false;
    if IsRefusal(answerText, refusal) {
      return Verdict(true, |modelSources| == 0, exactMatch);
    }
    var citedNums := ExtractSourceNumbers(answerText);
    var citationOk := citedNums != {} && citedNums <= modelSources.Keys;
    var retrievedDocs := result.Docs();
    var ok := false;
    if retrievedDocs != [] {
      ok := CheckLines(answerText, retrievedDocs);
    }
    v := Verdict(ok, citationOk, exactMatch);
  }

  // ------------------------------------------------------ the two files

  /** An answer the backend accepts passes the citation check, unless the
      evaluation reads it as a refusal. */
  lemma AcceptedPassesCitation(question: string, retrieve: (string, int) -> Retrieval,
                               generate: (string, string) -> Generation, cfg: Config, gold: string)
    requires Answer(question, retrieve, generate, cfg).Grounded?
    requires !IsRefusal(Answer(question, retrieve, generate, cfg).answer, Strip(cfg.refusalText))
    ensures Score(gold, Answer(question, retrieve, generate, cfg), Strip(cfg.refusalText)).citation
  {
    var rs := retrieve(Strip(question), cfg.topK).results;
    AcceptedAnswerIsGrounded(question, retrieve, generate, cfg, rs);
  }

  /** The other case: an accepted answer that contains `cannot answer`
      without the backend's `i cannot answer` is scored as a refusal that
      claims sources, so it fails the citation check. */
  lemma AcceptedRefusalFailsCitation(question: string, retrieve: (string, int) -> Retrieval,
                                     generate: (string, string) -> Generation, cfg: Config, gold: string)
    requires Answer(question, retrieve, generate, cfg).Grounded?
    requires IsRefusal(Answer(question, retrieve, generate, cfg).answer, Strip(cfg.refusalText))
    ensures !Score(gold, Answer(question, retrieve, generate, cfg), Strip(cfg.refusalText)).citation
  {
    var rs := retrieve(Strip(question), cfg.topK).results;
    AcceptedAnswerIsGrounded(question, retrieve, generate, cfg, rs);
  }

  /** Such an answer exists in the model's terms: nothing in the validator
      looks for `cannot answer`, so an answer with a correct citation that
      says `cannot answer` is accepted and then scored as a failed citation. */
  lemma CannotAnswerAcceptedThenFailed(q: string, generate: (string, string) -> Generation, cfg: Config,
                                       content: string, gold: string)
    requires generate(q, Context([HandbookPage()])) == Generated(content)
    requires var text := CapLength(Strip(content), cfg.maxAnswerChars);
      && !Contains(Lower(text), RefusalPhrase)
      && Contains(Lower(text), CannotAnswer)
      && ExtractSourceNumbers(text) == {1}
      && ToMap(SourcesLines(text)) == map[1 := "handbook.pdf p.2"]
    ensures var reply := Respond(q, [HandbookPage()], generate, cfg);
      reply.Grounded? && !Score(gold, reply, Strip(cfg.refusalText)).citation
  {
    CorrectPageIsAccepted(q, generate, cfg, content);
    var reply := Respond(q, [HandbookPage()], generate, cfg);
    assert reply.answer == CapLength(Strip(content), cfg.maxAnswerChars);
    ClaimingRefusalFails(reply, gold, Strip(cfg.refusalText));
  }

  /** A concrete instance: the answer `We cannot answer more [1].` with a
      correct Sources line is accepted by the backend, read as a refusal by
      the evaluation, and fails its citation check. */
  lemma CannotAnswerExample(q: string, cfg: Config, gold: string, text: string)
    requires text == HandbookReply("We cannot answer more", '2') && cfg.maxAnswerChars >= 80
    ensures var reply := Respond(q, [HandbookPage()], AlwaysSays(text), cfg);
      && reply.Grounded? && reply.answer == text
      && IsRefusal(text, Strip(cfg.refusalText))
      && !Score(gold, reply, Strip(cfg.refusalText)).citation
  {
    CannotAnswerReplyFacts(cfg, text);
    CannotAnswerAcceptedThenFailed(q, AlwaysSays(text), cfg, text, gold);
    GroundedIff(q, [HandbookPage()], AlwaysSays(text), cfg, text);
    SaysCannotAnswerIsRefusal(text, Strip(cfg.refusalText));
  }

  /** Any text containing `cannot answer` in any case is a refusal. */
  lemma SaysCannotAnswerIsRefusal(text: string, refusal: string)
    requires Contains(Lower(text), CannotAnswer)
    ensures IsRefusal(text, refusal)
  {
    ContainsLowerStrip(text, CannotAnswer);
  }

  /** What the validator and the scorer see in that answer. */
  lemma CannotAnswerReplyFacts(cfg: Config, text: string)
    requires text == HandbookReply("We cannot answer more", '2') && cfg.maxAnswerChars >= 80
    ensures && CapLength(Strip(text), cfg.maxAnswerChars) == text
      && !Contains(Lower(text), RefusalPhrase)
      && Contains(Lower(text), CannotAnswer)
      && ExtractSourceNumbers(text) == {1}
      && ToMap(SourcesLines(text)) == map[1 := "handbook.pdf p.2"]
  {
    var sentence := "We cannot answer more";
    SentenceFree(sentence);
    HandbookReplyFacts(sentence, '2', cfg);
    HandbookRefs();
    SaysCannotAnswer(sentence, '2');
  }

  lemma SentenceFree(sentence: string)
    requires sentence == "We cannot answer more"
    ensures sentence != [] && !IsSpace(sentence[0]) && |sentence| <= 30
    ensures Free(sentence, '[') && Free(sentence, 'i') && Free(sentence, 'I')
  {
  }

  lemma SaysCannotAnswer(sentence: string, page: char)
    requires sentence == "We cannot answer more"
    ensures Contains(Lower(HandbookReply(sentence, page)), CannotAnswer)
  {
    var text := HandbookReply(sentence, page);
    forall k | 3 <= k < 16 ensures Lower(text)[k] == CannotAnswer[k - 3] {
      assert text[k] == sentence[k];
    }
    assert Lower(text)[3..16] == CannotAnswer;
    assert OccursAt(Lower(text), CannotAnswer, 3);
  }

  /** A reply that says `cannot answer` and claims a source fails the
      citation check. */
  lemma ClaimingRefusalFails(reply: Reply, gold: string, refusal: string)
    requires reply.Grounded? && reply.sources != map[]
    requires Contains(Lower(reply.answer), CannotAnswer)
    ensures !Score(gold, reply, refusal).citation
  {
    ContainsLowerStrip(reply.answer, CannotAnswer);
  }

  /** The configured refusal is always scored as a refusal (when its
      stripped form is empty the stripped answer is empty too), with no
      sources, so it passes both checks. */
  lemma RefusalTextScoredAsRefusal(cfg: Config, gold: string)
    ensures IsRefusal(cfg.refusalText, Strip(cfg.refusalText))
    ensures var v := Score(gold, Bare(cfg.refusalText), Strip(cfg.refusalText)); v.grounded && v.citation
  {
  }

  /** The pass-through of the backend is scored as a refusal, with no
      sources, so it passes both checks. */
  lemma PassThroughScoredAsRefusal(answer: string, cfg: Config, gold: string)
    requires Contains(Lower(answer), RefusalPhrase)
    ensures IsRefusal(answer, Strip(cfg.refusalText))
    ensures var v := Score(gold, Bare(answer), Strip(cfg.refusalText)); v.grounded && v.citation
  {
    assert RefusalPhrase == "i " + CannotAnswer;
    ContainsTail(Lower(answer), "i ", CannotAnswer);
    ContainsLowerStrip(answer, CannotAnswer);
  }

  /** Every refusal the backend gives, the configured text or the
      pass-through, is scored as a refusal with no sources. */
  lemma BackendRefusalsScoredAsRefusals(question: string, retrieve: (string, int) -> Retrieval,
                                        generate: (string, string) -> Generation, cfg: Config, gold: string)
    requires var a := Answer(question, retrieve, generate, cfg);
      a.Bare? && (a.answer == cfg.refusalText || Contains(Lower(a.answer), RefusalPhrase))
    ensures var a := Answer(question, retrieve, generate, cfg);
      && IsRefusal(a.answer, Strip(cfg.refusalText))
      && a.Sources() == map[]
      && Score(gold, a, Strip(cfg.refusalText)).grounded
      && Score(gold, a, Strip(cfg.refusalText)).citation
  {
    var a := Answer(question, retrieve, generate, cfg);
    if a.answer == cfg.refusalText {
      RefusalTextScoredAsRefusal(cfg, gold);
    } else {
      PassThroughScoredAsRefusal(a.answer, cfg, gold);
    }
  }

  // ------------------------------------------------------- single rules

  /** Without retrieved evidence no non-refusal is grounded. */
  lemma NoEvidenceNotGrounded(gold: string, answer: string, refusal: string)
    requires !IsRefusal(answer, refusal)
    ensures !Score(gold, Bare(answer), refusal).grounded
  {
  }

  /** An answer whose every line is copied from some chunk, or is blank or
      a header, is grounded, whatever the case of the copy. */
  lemma CopiedLinesAreGrounded(answer: string, docs: seq<Evidence>)
    requires docs != []
    requires forall l | l in Split(answer, '\n') ::
      var line := Strip(l);
      line == [] || line in Headers || exists i | 0 <= i < |docs| :: Contains(docs[i].text, line)
    ensures GroundedPass(answer, docs)
  {
    forall l | l in Split(answer, '\n') ensures LineOk(l, docs) {
      var line := Strip(l);
      if line != [] && line !in Headers {
        var i :| 0 <= i < |docs| && Contains(docs[i].text, line);
        ContainsLowered(docs[i].text, line);
      }
    }
  }

  /** Exact match ignores the case of both sides. */
  lemma ExactMatchIgnoresCase(gold: string, answer: string)
    requires gold != [] && Contains(answer, gold)
    ensures ExactMatch(gold, answer) && ExactMatch(Lower(gold), Lower(answer))
  {
    ContainsLowered(answer, gold);
    LowerIdempotent(gold);
    LowerIdempotent(answer);
  }

  lemma LowerIdempotent(s: string)
    ensures Lower(Lower(s)) == Lower(s)
  {
  }

  /** A blank gold answer never matches. */
  lemma BlankGoldNeverMatches(answer: string)
    ensures !ExactMatch("", answer)
  {
  }
}
