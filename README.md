# Grounded policy Q&A: a verified model of the citation pipeline

This project models the grounding logic of a retrieval-augmented question
answering bot for policy documents, and proves what that logic promises.
The bot is written in Python and has three parts, which the model follows
module by module.

- **Query path** (`fullstack/backend/backend.py`). A question is:
  1. stripped;
  2. sent to a vector store;
  3. gated on the best relevance score;
  4. turned into a numbered context `[1] <source> p.<page>`, ...;
  5. answered by a chat model;
  6. capped in length;
  7. let through unchanged if it contains `i cannot answer`;
  8. otherwise validated. Every `[n]` citation must have a `[n] ref`
     Sources line, and every Sources line must repeat the context's
     reference for `n` exactly.

  Anything that fails validation becomes the configured refusal text.
- **Ingestion** (`fullstack/backend/ingest.py`). `load_documents`
  de-duplicates and sorts the candidate paths, then loads each file in
  turn: every page gets the file's base metadata and a `page`, and a
  failing file is skipped, with a latin-1 retry after a decode error.

  `main` checks the corpus directory, resets the store behind the
  `_safe_rmtree` guard, loads the documents, handles an empty corpus,
  splits the documents into chunks, and calls `assign_chunk_ids`. That
  function numbers the chunks of each `(source, page)`, writes
  `chunk_index` and `chunk_id` into their metadata, and returns the ids
  the chunks are stored under.
- **Evaluation** (`fullstack/eval/run_eval.py`). Each reply is classified
  as a refusal or not. It is then scored on three checks:
  - citation accuracy;
  - groundedness (every answer line is found in the evidence);
  - exact match.

The vector store, the chat model, the text splitter and the file system are
inputs of the model: a retrieval outcome, a generation outcome, a split
function, a loader outcome per path and encoding, and the file facts
`_base_metadata` reads. Each stateful step is a method:
- `make_numbered_context`;
- the validation loop;
- the load loop and the per-page metadata loop;
- `assign_chunk_ids`, over an `array` of chunks mutated in place;
- `main`;
- the evaluation loop and the groundedness loop.

Each method is proved equal to a specification function. The properties
are lemmas about those functions.

Files: `text.dfy` (Python whitespace, `strip`, ASCII `lower`, substrings,
decimal strings), `metadata.dfy` (the `Document` and its metadata dict),
`citations.dfy` (the regular expressions of the validator as explicit
scans), `context.dfy`, `backend.dfy`, `loader.dfy`, `chunk_ids.dfy`,
`ingest.dfy`, `eval.dfy`, `wrappers.dfy`.

Points where the code is followed exactly:
- **The `[n]` scan.** It runs over the whole answer, Sources lines
  included. `"[01]"` counts as 1.
- **The Sources pattern.** `^\[(\d+)\]\s+(.+)$` is line-anchored and
  modelled with its backtracking. `\s+` may cross a newline; `.+` may not.
  The scan is also stated without any search order: each entry is a match
  of the pattern at a line start, with the longest whitespace run the rest
  allows, and every match is found unless it starts inside an earlier one.
- **The filename pattern.** `Source:\s*([^\n]+?)\s+p\.(?:\d+|\?)` is
  modelled with its backtracking too: the greedy `\s*` gives back
  whitespace only when the rest cannot match, and the lazy group grows one
  character at a time within the line. The scan is also stated without any
  search order, in the same way as the Sources pattern.
- **Duplicate Sources lines.** The last one wins.
- **Page display.** An integer page is shown as `page + 1`. A text file
  defaults to page 1, so its chunks must be cited as `p.2`.
- **The length cap.** It appends the three characters U+00E2 U+20AC U+00A6,
  which are what the source file's suffix literal holds.
- **PDF decode errors.** A PDF that raises a decode error is skipped, not
  propagated. The bare `raise` at `ingest.py:163` sits inside the inner
  `try`, so the inner `except Exception` catches it.

The two files disagree on what a refusal is:
- the backend lets through only answers containing `i cannot answer`;
- the evaluation calls any answer containing `cannot answer` a refusal.

So an answer the backend accepts, with correct citations, fails the
evaluation's citation check if it says `cannot answer` without the
`i ` in front. `Eval.AcceptedRefusalFailsCitation` and
`Eval.CannotAnswerAcceptedThenFailed` state this, and
`Eval.CannotAnswerExample` exhibits one such answer:
`We cannot answer more [1].` followed by the Sources line
`[1] handbook.pdf p.2`. The property "every
accepted answer passes the citation check" therefore holds exactly for
the accepted answers the evaluation does not read as refusals
(`Eval.AcceptedPassesCitation`).

## Model

| member | source | states |
|---|---|---|
| NumberedContext.MakeNumberedContext | fullstack/backend/backend.py:105-132 | The loop builds exactly `Refs(docs)` and the joined `Context(docs)`. The reference map has keys exactly `1..len(docs)`, in input order. |
| NumberedContext.PageLabel | fullstack/backend/backend.py:118-124 | An integer page `p` is shown as digits that read back as `p+1` (after a minus sign when `p+1` is negative); `None` is shown as `?`, and a string as itself. |
| NumberedContext.Blocks | fullstack/backend/backend.py:114-129 | Block `i` (from 1) is `[i] ref\ntext` for the `i`-th chunk; there is one block per chunk. |
| NumberedContext.BlockStartsWithLabel | fullstack/backend/backend.py:126-129 | Each block starts with `[i] ` and the reference recorded for `i`, followed by a newline. |
| NumberedContext.DefaultPageShownAsTwo | fullstack/backend/backend.py:119-120 | A chunk stored with the default page 1 is referenced as `p.2`. |
| NumberedContext.PdfPageShownOneBased | fullstack/backend/backend.py:119-120 | A chunk with integer page `n` is referenced as `p.<n+1>`. |
| Citations.ExtractSourceNumbers | fullstack/backend/backend.py:39-40 | The result holds `n` iff some position of the text starts a `[digits]` whose value is `n`. |
| Citations.BracketScanComplete | fullstack/backend/backend.py:39-40 | The left-to-right `findall` scan, which skips each match, finds every `[digits]` occurrence. |
| Citations.NumberedCitationIsCited | fullstack/backend/backend.py:36-37 | A text with `[n].` (`has_numbered_citations`) cites at least one number. |
| Citations.ToMapLastWins | fullstack/backend/backend.py:198 | The dict's keys are the entry numbers, and each maps to the stripped reference of its last entry. |
| Citations.EntryNumbersAreCited | fullstack/backend/backend.py:189-194 | Every Sources-line number is also found by the `[n]` scan. |
| Citations.ExtractSourcesBlock | fullstack/backend/backend.py:42-49 | The keys are exactly the numbers of the unanchored `[n] ref` matches, each mapped to the stripped reference of its last match; every key is also a cited number. |
| Citations.EntryAtGreedy | fullstack/backend/backend.py:194 | A Sources line is reported at a position iff the pattern matches there; the reported reference is the rest of a line after the longest whitespace run that still lets it match, non-empty and without a newline. |
| Citations.EntryScanMatches | fullstack/backend/backend.py:194 | The `findall` entries are the matches at the starts of non-overlapping spans, at line starts when anchored; every position where the pattern matches lies inside one of the spans. |
| Citations.OneSourceNumbers | fullstack/backend/backend.py:189 | An answer `sentence [1].` with one Sources line `[1] ref` cites exactly the number 1. |
| Citations.OneSourceLines | fullstack/backend/backend.py:194 | Such an answer has exactly one Sources line, `[1]` with the reference as written; the `[1]` inside the sentence is not at a line start. |
| Citations.LazyGroupEnd | fullstack/backend/backend.py:26 | The lazy group ends at the first position, within the line, after which whitespace, `p.` and a digit or `?` follow, and no earlier one. |
| Citations.SourceMatchFrom | fullstack/backend/backend.py:26 | The search at a position reports the largest `\s*` end that lets the pattern match, then the smallest group end that matches from there, and the match ends where the page tail does. |
| Citations.CommittedAt | fullstack/backend/backend.py:26 | The match reported at a position is the one the engine commits to: a match of the pattern with the longest `\s*` and then the shortest group. |
| Citations.FilenameScanMatches | fullstack/backend/backend.py:24-27 | Each returned filename is the stripped group of the committed match at the start of its span; the spans are in order and do not overlap; every position where the pattern matches lies inside a span. |
| Citations.SourceMatchFromSound | fullstack/backend/backend.py:21-26 | Every match the backtracking search reports is a match of the pattern. |
| Citations.SourceMatchFromComplete | fullstack/backend/backend.py:21-26 | The backtracking search finds a match whenever the pattern matches at that position. |
| Citations.HasSourceCitationIffNames | fullstack/backend/backend.py:18-27 | `has_source_citation` holds iff `extract_cited_filenames` returns a name. |
| Citations.CitationsSubsetOfCtx | fullstack/backend/backend.py:29-34 | True iff there is a source citation and every cited filename is among the context sources. |
| Backend.AnswerAndSources | fullstack/backend/backend.py:146-230 | The method returns exactly `Answer`, the order of checks in which the laws below are proved. |
| Backend.GenerateAndCheck | fullstack/backend/backend.py:167-230 | From the numbered context on, the method returns exactly `Respond`. |
| Backend.CheckCitations | fullstack/backend/backend.py:189-209 | The early returns and the loop give exactly the verdict of `Validate`. |
| Backend.ClaimsMatch | fullstack/backend/backend.py:205-209 | The loop over the claimed sources succeeds iff every claimed number is allowed with an identical reference. |
| Backend.KeyOrder | fullstack/backend/backend.py:198 | The insertion order of the dict lists each key of the Sources dict, and only those. |
| Backend.InsertByScore | fullstack/backend/backend.py:161 | Inserting into a descending list keeps it descending and adds exactly the element. |
| Backend.SortByScore | fullstack/backend/backend.py:161 | The ranking is descending by score and a permutation of the results. |
| Backend.SortIsStable | fullstack/backend/backend.py:161 | Results with equal scores keep their relative order, as Python's stable sort does. |
| Backend.TopIsBest | fullstack/backend/backend.py:161-162 | The head of the ranking is a retrieved result at least as good as every other. |
| Backend.ContextIsTopK | fullstack/backend/backend.py:161-166 | The context holds `min(TOP_K, n)` chunks, or for a negative `TOP_K` all but the last `-TOP_K` (none if that is more than `n`), each scoring at least as high as every result left out. |
| Backend.CapLengthShape | fullstack/backend/backend.py:179-180 | A short answer is kept. A long one keeps a prefix of `text[:MAX_ANSWER_CHARS]` (a negative cap counting from the end) from which only trailing whitespace was cut, not ending in whitespace, plus the 3-character suffix. |
| Backend.EvidenceShowsReference | fullstack/backend/backend.py:216-226 | Each evidence entry carries its chunk's text, and its source and shifted page, rendered, give back the context reference of that chunk; a `None` page is the one quoted as `?`. |
| Backend.BlankQuestionIsPrompted | fullstack/backend/backend.py:147-149 | An empty or all-whitespace question gets the prompt, whatever the services would return. |
| Backend.WeakEvidenceIsRefused | fullstack/backend/backend.py:158-163 | With no result reaching the minimum relevance, or none at all, the refusal text comes back. |
| Backend.StrongEvidenceReachesGenerator | fullstack/backend/backend.py:161-167 | Once any result reaches the minimum, the generator sees the first `TOP_K` ranked chunks, weaker ones included. |
| Backend.RefusalPhrasePassesThrough | fullstack/backend/backend.py:183-185 | A capped answer containing `i cannot answer` in any case is returned unchanged, with no sources. |
| Backend.ValidateIff | fullstack/backend/backend.py:189-209 | Accepted iff some `[n]` is cited, every cited `n` has a Sources line, and every Sources line repeats the context reference for a rank `1..K`; what is accepted is the Sources dict. |
| Backend.AcceptedCitesItsSources | fullstack/backend/backend.py:189-216 | For an accepted answer, the cited numbers are exactly the keys of the returned sources. |
| Backend.GroundedIff | fullstack/backend/backend.py:170-230 | After generation, the reply is grounded iff the refusal phrase is absent and validation succeeds. The grounded reply is the answer, sources, evidence and `top_k`. Any other non-pass-through reply is the refusal text. |
| Backend.AcceptedAnswerIsGrounded | fullstack/backend/backend.py:146-230 | An accepted reply's cited numbers equal its sources' keys and are non-empty. Each source is the context reference, `docs` is the context evidence, and `top_k` is `TOP_K`. |
| Backend.OffByOnePageIsRefused | fullstack/backend/backend.py:119-120 | Citing the zero-based page (`p.1` for stored page 1) is refused, one character being enough. |
| Backend.CorrectPageIsAccepted | fullstack/backend/backend.py:119-120 | The same answer citing `p.2` is accepted, with exactly that source. |
| Backend.CorrectPageExample | fullstack/backend/backend.py:189-226 | The concrete answer `Refunds take 14 days [1].` with Sources line `[1] handbook.pdf p.2`, for a chunk stored with page 1, is accepted with that single source and the chunk's evidence. |
| Backend.OffByOnePageExample | fullstack/backend/backend.py:204-209 | The same answer with `[1] handbook.pdf p.1` is refused. |
| Loader.SortedUnique | fullstack/backend/ingest.py:102 | The paths come out strictly ascending, holding exactly the candidates. |
| Loader.SortedUniqueHasNoDuplicates | fullstack/backend/ingest.py:102 | No path is processed twice. |
| Loader.InsertUnique | fullstack/backend/ingest.py:102 | Inserting keeps the list strictly sorted, adds the path, and loses nothing. |
| Loader.Ext | fullstack/backend/ingest.py:107 | `splitext` gives a suffix of the path starting with a dot, or nothing. |
| Loader.ExtOfNamedFile | fullstack/backend/ingest.py:107 | `dir/stem.ext` (stem not all dots) has extension `.ext`. |
| Loader.Normalise | fullstack/backend/ingest.py:117-122 | After `update(base)` and page normalisation: the base wins, other keys and the text are kept, and `page` is the own page, else the PDF's `page_number`, else 1. |
| Loader.LoadDocuments | fullstack/backend/ingest.py:79-184 | The result is the files' contributions concatenated in sorted, de-duplicated path order. |
| Loader.LoadEach | fullstack/backend/ingest.py:106-182 | The loop extends the list with each path's contribution, in order. |
| Loader.LoadOne | fullstack/backend/ingest.py:107-182 | One path's try/except chain gives exactly `LoadFile`. |
| Loader.AttachBase | fullstack/backend/ingest.py:117-122 | The per-page loop normalises every loaded page, in order. |
| Loader.FailingFileIsSkipped | fullstack/backend/ingest.py:152-182 | Three kinds of file contribute nothing: a non-decode error, failing metadata, or a PDF with a decode error. |
| Loader.DecodeErrorRetriesLatin1 | fullstack/backend/ingest.py:152-178 | After a decode error, a text, Markdown or HTML file contributes exactly what one latin-1 load gives. |
| Loader.SkippedFileIsIsolated | fullstack/backend/ingest.py:176-182 | A skipped file leaves the other files' documents exactly as without it. |
| Loader.FileDocumentsShareBase | fullstack/backend/ingest.py:114-172 | All documents of one file share `source`, `doc_type`, `source_sha1` and `ingest_run_id`, and each has a `page`. |
| Loader.EveryDocumentHasPage | fullstack/backend/ingest.py:120-172 | Every emitted document has a `page`. |
| Loader.PlainPagesDefaultToOne | fullstack/backend/ingest.py:135 | A non-PDF page without a page is stored with page 1. |
| ChunkIds.AssignChunkIds | fullstack/backend/ingest.py:186-209 | The in-place pass leaves exactly `Assigned(old chunks)` in the array and returns `Ids(old chunks)`. |
| ChunkIds.IdsMatchMetadata | fullstack/backend/ingest.py:202-207 | `ids[i]` is the `chunk_id` written into chunk `i`, and its `chunk_index` is the chunk's index. |
| ChunkIds.NothingElseChanges | fullstack/backend/ingest.py:204-205 | Only `chunk_index` and `chunk_id` are added or changed. The text, the other metadata and the key stay. |
| ChunkIds.IndicesIncrease | fullstack/backend/ingest.py:199-200 | Within one `(source, page)` key the indices strictly increase along the list. |
| ChunkIds.FirstOfKeyIsZero | fullstack/backend/ingest.py:195-202 | The first chunk of a key gets index 0 and an id ending in `000`. |
| ChunkIds.SameKeyDistinctIds | fullstack/backend/ingest.py:198-202 | Two chunks of the same key never get the same id. |
| Text.ZeroPad3Injective | fullstack/backend/ingest.py:202 | Different indices give different `:03d` renderings. |
| Text.ZeroPad3RoundTrip | fullstack/backend/ingest.py:202 | The `:03d` rendering has at least three digits and reads back as the index. |
| Ingest.UnsafeIffShort | fullstack/backend/ingest.py:259-261 | The guard refuses exactly the paths shorter than 10 characters (`/` and `""` included). |
| Ingest.RunIngest | fullstack/backend/ingest.py:265-322 | The method's outcome is exactly `Run`: each exception, the empty store, or the stored chunks and their ids. |
| Ingest.DeletesOnlyWhenAsked | fullstack/backend/ingest.py:266-272 | The store is wiped iff the corpus exists, a reset is asked for, the store exists and its path has at least 10 characters. |
| Ingest.ShortPathResetRefused | fullstack/backend/ingest.py:270-272 | A reset of a store at a short path raises before anything is loaded. |
| Ingest.EmptyCorpusGivesEmptyStore | fullstack/backend/ingest.py:276-282 | No loaded documents gives an empty store, not an error. |
| Ingest.StoredIdsLineUp | fullstack/backend/ingest.py:300-320 | The stored ids match the chunks one to one, each the `chunk_id` in its chunk, distinct within a key. |
| Eval.CheckLines | fullstack/eval/run_eval.py:110-121 | The loop exits `ok` iff every line is blank, a header, or found in some chunk's text, case-insensitively. |
| Eval.ScoreReply | fullstack/eval/run_eval.py:78-121 | One reply's three verdicts are exactly `Score`. |
| Eval.EvalRecord | fullstack/eval/run_eval.py:69-121 | One question's verdicts are `Score` of the backend's answer to the stripped question, against the stripped gold answer. |
| Eval.RunEval | fullstack/eval/run_eval.py:68-121 | The three lists hold, column by column, the verdicts of the questions in file order. |
| Eval.VerdictsAt | fullstack/eval/run_eval.py:68-121 | Entry `i` of the lists depends on question `i` alone. |
| Eval.AcceptedPassesCitation | fullstack/eval/run_eval.py:101-104 | An answer the backend accepts, and the evaluation does not call a refusal, passes the citation check. |
| Eval.AcceptedRefusalFailsCitation | fullstack/eval/run_eval.py:94-99 | An accepted answer that the evaluation calls a refusal fails the citation check, since it claims sources. |
| Eval.CannotAnswerAcceptedThenFailed | fullstack/eval/run_eval.py:55 | An answer saying `cannot answer` with a correct citation is accepted by the backend and fails the evaluation's citation check. |
| Eval.CannotAnswerExample | fullstack/eval/run_eval.py:94-99 | The concrete answer `We cannot answer more [1].` with a correct Sources line is accepted by the backend, classified as a refusal, and fails the citation check. |
| Eval.SaysCannotAnswerIsRefusal | fullstack/eval/run_eval.py:55-56 | Any answer containing `cannot answer` in any case is classified as a refusal. |
| Eval.ClaimingRefusalFails | fullstack/eval/run_eval.py:94-99 | A reply saying `cannot answer` that claims a source fails the citation check. |
| Eval.RefusalTextScoredAsRefusal | fullstack/eval/run_eval.py:47-57 | The configured refusal is classified as a refusal and passes both checks. |
| Eval.PassThroughScoredAsRefusal | fullstack/eval/run_eval.py:47-57 | A reply containing `i cannot answer` is classified as a refusal and passes both checks. |
| Eval.BackendRefusalsScoredAsRefusals | fullstack/eval/run_eval.py:94-99 | Every backend refusal is a refusal with no sources and passes groundedness and citation. |
| Eval.NoEvidenceNotGrounded | fullstack/eval/run_eval.py:107-108 | A non-refusal without retrieved evidence is not grounded. |
| Eval.CopiedLinesAreGrounded | fullstack/eval/run_eval.py:110-121 | An answer whose lines are all blank, headers or copied from a chunk is grounded, whatever the case. |
| Eval.ExactMatchIgnoresCase | fullstack/eval/run_eval.py:91 | A gold answer found in the answer matches, in either case. |
| Eval.BlankGoldNeverMatches | fullstack/eval/run_eval.py:91 | An empty gold answer never matches. |
| Text.StripIsTrimmedSlice | fullstack/backend/backend.py:147 | `strip()` gives a slice with only whitespace cut from both ends, and no whitespace at its ends. |
| Text.StripEmptyIffBlank | fullstack/backend/backend.py:147-149 | The stripped text is empty iff every character is whitespace. |
| Text.ContainsLowerStrip | fullstack/eval/run_eval.py:48-55 | A lower-cased word without outer whitespace found in a text is still found after stripping. |
| Text.NatToStringRoundTrip | fullstack/backend/backend.py:129 | The decimal rendering of a number reads back as that number. |
| Text.SplitJoin | fullstack/eval/run_eval.py:111 | Joining `split("\n")` with newlines gives back the text. |
| Metadata.SetDefault | fullstack/backend/ingest.py:122 | `setdefault` adds the key with the default only when it is absent, and otherwise changes nothing. |
| Metadata.Update | fullstack/backend/ingest.py:118 | `update` keeps all keys, and the update's entries win. |

## Left out

- Vector store, embeddings and chat model: these are foreign calls. They
  become the inputs `retrieve` and `generate`, with failure as one outcome.
  The prompt template is static text and is not modelled.
- The text splitter: it is a library, so `split` is an input function. The
  file loaders, `glob`, `stat`, SHA-1, timestamps and `os.urandom` become
  the inputs `candidates`, `load` and `info`.
- `shutil.rmtree` and `os.makedirs`: these are file-system effects. The
  reset is recorded only as `Outcome.wiped`.
- Writing to Chroma: this is a foreign call. The store is represented by
  the ids and chunks handed to it. The `TypeError` fallback inserts the same
  chunks and ids, so it is not a separate case.
- `print_ingest_stats`, log messages and the evaluation's DEBUG prints:
  console output only.
- The evaluation's JSONL loading, `time.sleep`, latencies and the
  percentage and percentile summary: I/O, timing and float statistics.
- `config.py`, `app.py`, the server configuration and the frontend:
  configuration and HTTP/UI plumbing. The configuration values are the
  `Config` and `Settings` parameters.
- Relevance scores are integers instead of Python floats. Only their order
  and the comparison with the minimum relevance matter.
- `lower()` and `\d` are ASCII here. Python's full Unicode case mapping and
  Unicode digits are not modelled.
- Documents are values. The `Document` objects that Python mutates in
  place, and any aliasing between them, are not modelled.
  `assign_chunk_ids` keeps its in-place update, over an `array`.
- Bare replies: a refusal's `"sources": []` (a list) is read as empty
  sources. The evaluation's `issubset` on that list is reached only for a
  non-refusal that cites a number, and no bare reply does that.
- Metadata dict keys are strings. Values are strings, integers, `None`, or
  other values known only by their `str()`. Python's equality of `1`,
  `1.0` and `True` as counter keys is not modelled.
- Boolean pages: in Python `isinstance(True, int)` holds, so a page `True`
  or `False` would be shown as `page+1` (`backend.py:119`) and shifted in
  the evidence (`backend.py:222`). The model can only carry a boolean as
  `Other("True")` or `Other("False")`, shown as that text. No loader
  produces boolean pages.
- Citations.ExtractSourceNumbers: `int()` of a run of more than 4300
  digits raises `ValueError` in the Python versions the code runs on; the
  model reads any run of digits as its value, so an answer holding such a
  run gets a verdict here where the backend (`backend.py:189`, `:198`) and
  the evaluation (`run_eval.py:44`) raise.
- Citations.ToMap: the same `int()` limit applies to the Sources-line
  numbers of `backend.py:198`; it is not modelled.
- Text.DigitsValue: reads digit strings of any length, without Python's
  4300-digit limit on `int()`.
- Cited numbers in the evaluation: its own `extract_cited_numbers` is the same
  expression as the backend's, so it is `Citations.ExtractSourceNumbers`.
  An empty or `None` text gives the empty set in both.
