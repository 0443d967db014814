/** The citation helpers of the backend, each a regular expression run by
    Python's `re` module. Every scan below follows the matcher step by step:
    `findall` tries each position from the left, and after a match resumes
    at the end of that match; greedy and lazy repetitions try their
    alternatives in the engine's order, so the captured text is the one the
    engine would capture. `\d` is an ASCII digit and `\s` is `Text.IsSpace`. */
module Citations {
  import opened Text
  import opened Wrappers

  // ------------------------------------------------------------ positions

  /** End of the run of ASCII digits that starts at `k`. */
  function DigitsEnd(s: string, k: nat): (e: nat)
    requires k <= |s|
    ensures k <= e <= |s|
    ensures forall i | k <= i < e :: IsDigit(s[i])
    ensures e < |s| ==> !IsDigit(s[e])
    decreases |s| - k
  {
    if k == |s| || !IsDigit(s[k]) then k else DigitsEnd(s, k + 1)
  }

  /** End of the run of whitespace that starts at `k`. */
  function SpacesEnd(s: string, k: nat): (e: nat)
    requires k <= |s|
    ensures k <= e <= |s|
    ensures forall i | k <= i < e :: IsSpace(s[i])
    ensures e < |s| ==> !IsSpace(s[e])
    decreases |s| - k
  {
    if k == |s| || !IsSpace(s[k]) then k else SpacesEnd(s, k + 1)
  }

  /** Where the line holding position `k` ends: the next newline, or the end. */
  function LineEnd(s: string, k: nat): (e: nat)
    requires k <= |s|
    ensures k <= e <= |s|
    ensures forall i | k <= i < e :: s[i] != '\n'
    ensures e < |s| ==> s[e] == '\n'
  {
    FindFrom(s, '\n', k)
  }

  /** `^` under `re.MULTILINE`. */
  predicate LineStart(s: string, p: nat) {
    p == 0 || (0 < p <= |s| && s[p - 1] == '\n')
  }

  // ------------------------------------------------------------- `\[(\d+)\]`

  /** `\[(\d+)\]` matches at `i`: a bracket, at least one digit, a bracket. */
  predicate BracketAt(s: string, i: nat) {
    i < |s| && s[i] == '[' &&
    var e := DigitsEnd(s, i + 1); i + 1 < e < |s| && s[e] == ']'
  }

  /** Position of the closing bracket of the match at `i`. */
  function CloseAt(s: string, i: nat): (e: nat)
    requires BracketAt(s, i)
    ensures i + 1 < e < |s| && s[e] == ']' && AllDigits(s[i + 1..e])
  {
    DigitsEnd(s, i + 1)
  }

  /** `int(n)` of the captured digits; `"[01]"` is 1. */
  function BracketValue(s: string, i: nat): nat
    requires BracketAt(s, i)
  {
    DigitsValue(s[i + 1..CloseAt(s, i)])
  }

  /** The numbers `findall(r"\[(\d+)\]", s)` returns from position `p` on. */
  function BracketScan(s: string, p: nat): seq<nat>
    decreases |s| - p
  {
    if p >= |s| then []
    else if BracketAt(s, p) then [BracketValue(s, p)] + BracketScan(s, CloseAt(s, p) + 1)
    else BracketScan(s, p + 1)
  }

  /** Every number written as `[digits]` somewhere at or after `p`. */
  ghost predicate CitedFrom(s: string, p: nat, n: nat) {
    exists i | p <= i < |s| :: BracketAt(s, i) && BracketValue(s, i) == n
  }

  /** No match starts inside the match at `p`. */
  lemma NoBracketInside(s: string, p: nat)
    requires BracketAt(s, p)
    ensures forall i | p < i <= CloseAt(s, p) :: !BracketAt(s, i)
  {
    var e := CloseAt(s, p);
    forall i | p < i <= e ensures !BracketAt(s, i) {
      assert s[i] != '[' by { if i < e { assert IsDigit(s[i]); } }
    }
  }

  /** The left-to-right scan, which skips over each match, still finds every
      occurrence: no match can start inside another one. */
  lemma {:induction false} BracketScanComplete(s: string, p: nat, n: nat)
    ensures n in BracketScan(s, p) <==> CitedFrom(s, p, n)
    decreases |s| - p
  {
    if p < |s| {
      if BracketAt(s, p) {
        BracketScanComplete(s, CloseAt(s, p) + 1, n);
        CitedAfterMatch(s, p, n);
      } else {
        BracketScanComplete(s, p + 1, n);
        CitedAfterMiss(s, p, n);
      }
    }
  }

  /** After a match the search resumes past its `]`, losing nothing. */
  lemma CitedAfterMatch(s: string, p: nat, n: nat)
    requires BracketAt(s, p)
    ensures CitedFrom(s, p, n) <==> BracketValue(s, p) == n || CitedFrom(s, CloseAt(s, p) + 1, n)
  {
    var e := CloseAt(s, p);
    NoBracketInside(s, p);
    if CitedFrom(s, p, n) && BracketValue(s, p) != n {
      var i :| p <= i < |s| && BracketAt(s, i) && BracketValue(s, i) == n;
      assert e + 1 <= i;
    }
  }

  lemma CitedAfterMiss(s: string, p: nat, n: nat)
    requires p < |s| && !BracketAt(s, p)
    ensures CitedFrom(s, p, n) <==> CitedFrom(s, p + 1, n)
  {
    if CitedFrom(s, p, n) {
      var i :| p <= i < |s| && BracketAt(s, i) && BracketValue(s, i) == n;
      assert p + 1 <= i;
    }
  }

  /** `extract_source_numbers` (the same expression as the validator's
      `cited_nums` and the evaluator's `extract_cited_numbers`): the set of
      the values of all `[digits]` occurrences in the text. */
  function ExtractSourceNumbers(s: string): (r: set<nat>)
    ensures forall n :: n in r <==> exists i | 0 <= i < |s| :: BracketAt(s, i) && BracketValue(s, i) == n
  {
    var r := set n | n in BracketScan(s, 0);
    assert forall n :: n in r <==> CitedFrom(s, 0, n) by {
      forall n ensures n in r <==> CitedFrom(s, 0, n) { BracketScanComplete(s, 0, n); }
    }
    r
  }

  /** `has_numbered_citations`: `re.search(r"\[\d+\]\.", s)` succeeds. */
  predicate HasNumberedCitations(s: string) {
    exists i | 0 <= i < |s| :: BracketAt(s, i) && CloseAt(s, i) + 1 < |s| && s[CloseAt(s, i) + 1] == '.'
  }

  /** A text with a numbered citation followed by a full stop cites a number. */
  lemma NumberedCitationIsCited(s: string)
    requires HasNumberedCitations(s)
    ensures ExtractSourceNumbers(s) != {}
  {
    var i :| 0 <= i < |s| && BracketAt(s, i) && CloseAt(s, i) + 1 < |s| && s[CloseAt(s, i) + 1] == '.';
    assert BracketValue(s, i) in ExtractSourceNumbers(s);
  }

  // --------------------------------------- `[n] ref` lines of a Sources block

  /** One `(n, ref)` pair as `findall` returns it, before `ref.strip()`. */
  datatype Entry = Entry(num: nat, ref: string)

  /** The largest `q` in `[lo, hi)` whose character is not a newline. */
  function LastNonNewline(s: string, lo: nat, hi: nat): (r: Option<nat>)
    requires hi <= |s|
    ensures r.Some? ==> lo <= r.value < hi && s[r.value] != '\n'
                        && forall q | r.value < q < hi :: s[q] == '\n'
    ensures r.None? ==> forall q | lo <= q < hi :: s[q] == '\n'
    decreases hi
  {
    if hi <= lo then None
    else if s[hi - 1] != '\n' then Some(hi - 1)
    else LastNonNewline(s, lo, hi - 1)
  }

  /** Where the group `(.+)` starts once `\]` has matched at `d`. `\s+` is
      greedy: it takes the whole run of whitespace, and `.+` starts at the
      first other character. Only when that run reaches the end of the text
      does `\s+` give characters back, one at a time, until `.+` can start
      on a character that is not a newline. */
  function RefStart(s: string, d: nat): (r: Option<nat>)
    requires d < |s|
    ensures r.Some? ==> d + 1 < r.value < |s| && s[r.value] != '\n'
    ensures r.Some? ==> forall i | d < i < r.value :: IsSpace(s[i])
  {
    var k := SpacesEnd(s, d + 1);
    if k == d + 1 then None
    else if k < |s| then Some(k)
    else LastNonNewline(s, d + 2, |s|)
  }

  /** The entry matched at `i` by `\[(\d+)\]\s+(.+)` (equivalently by
      `\[(\d+)\]\s+([^\n]+)`), with the position where the match ends. A
      trailing `$` always holds there: the group stops at a newline or at
      the end of the text. */
  function EntryAt(s: string, i: nat): (r: Option<(Entry, nat)>)
    ensures r.Some? ==> BracketAt(s, i) && r.value.0.num == BracketValue(s, i)
    ensures r.Some? ==> i < r.value.1 <= |s|
  {
    if !BracketAt(s, i) then None
    else
      var d := CloseAt(s, i);
      match RefStart(s, d)
      case None => None
      case Some(q) =>
        var e := LineEnd(s, q);
        Some((Entry(BracketValue(s, i), s[q..e]), e))
  }

  /** `findall` of the entry pattern from `p` on; with `anchored` the
      pattern starts with `^` and the `re.MULTILINE` flag is set. */
  function EntryScan(s: string, p: nat, anchored: bool): seq<Entry>
    decreases |s| - p
  {
    if p >= |s| then []
    else if (!anchored || LineStart(s, p)) && EntryAt(s, p).Some? then
      [EntryAt(s, p).value.0] + EntryScan(s, EntryAt(s, p).value.1, anchored)
    else EntryScan(s, p + 1, anchored)
  }

  /** The validator's `re.findall(r"^\[(\d+)\]\s+(.+)$", s, flags=re.MULTILINE)`. */
  function SourcesLines(s: string): seq<Entry> { EntryScan(s, 0, true) }

  /** What the entry pattern matches at `i`, stated without any search
      order: the bracketed number, a run of whitespace of at least one
      character (newlines included), then the group `s[q..e]`, a non-empty
      piece of one line that reaches the end of that line, where `$` holds. */
  predicate EntryMatch(s: string, i: nat, q: nat, e: nat) {
    && BracketAt(s, i)
    && CloseAt(s, i) + 1 < q < e <= |s|
    && (forall k | CloseAt(s, i) < k < q :: IsSpace(s[k]))
    && (forall k | q <= k < e :: s[k] != '\n')
    && (e == |s| || s[e] == '\n')
  }

  /** `EntryAt` reports a match exactly when the pattern matches at `i`,
      and the one it reports is the match the engine commits to: `\s+`
      takes the longest run of whitespace after which the rest can match. */
  lemma EntryAtGreedy(s: string, i: nat) returns (q: nat)
    ensures EntryAt(s, i).Some? <==> exists q': nat, e': nat :: EntryMatch(s, i, q', e')
    ensures EntryAt(s, i).Some? ==>
      var (entry, e) := EntryAt(s, i).value;
      && EntryMatch(s, i, q, e)
      && entry == Entry(BracketValue(s, i), s[q..e])
      && forall q': nat, e': nat | EntryMatch(s, i, q', e') :: q' <= q
  {
    q := 0;
    if BracketAt(s, i) {
      var d := CloseAt(s, i);
      var k := SpacesEnd(s, d + 1);
      assert IsSpace('\n');
      if exists q': nat, e': nat :: EntryMatch(s, i, q', e') {
        var q': nat, e': nat :| EntryMatch(s, i, q', e');
        assert IsSpace(s[d + 1]);
        if k == |s| {
          assert s[q'] != '\n';
          assert LastNonNewline(s, d + 2, |s|).Some?;
        }
      }
      match RefStart(s, d)
      case None =>
      case Some(r) =>
        q := r;
        var e := LineEnd(s, q);
        assert EntryMatch(s, i, q, e);
        forall q': nat, e': nat | EntryMatch(s, i, q', e') ensures q' <= q {
          assert s[q'] != '\n';
          if k < |s| { SpaceRunBound(s, d, k, q'); }
        }
    }
  }

  /** A run of whitespace from `d + 1` to `q` cannot pass a character
      that is not whitespace. */
  lemma SpaceRunBound(s: string, d: nat, k: nat, q: nat)
    requires d < k < |s| && !IsSpace(s[k]) && forall x | d < x < q :: x < |s| && IsSpace(s[x])
    ensures q <= k
  {
    if k < q { assert false; }
  }

  /** Where each match of `EntryScan` starts and where it ends. */
  ghost function EntrySpans(s: string, p: nat, anchored: bool): seq<(nat, nat)>
    decreases |s| - p
  {
    if p >= |s| then []
    else if (!anchored || LineStart(s, p)) && EntryAt(s, p).Some? then
      [(p, EntryAt(s, p).value.1)] + EntrySpans(s, EntryAt(s, p).value.1, anchored)
    else EntrySpans(s, p + 1, anchored)
  }

  /** A span `sp` from `p` on where the pattern reports `entry`: it starts
      at a line start when the pattern is anchored, and the match found at
      its start ends where the span ends. */
  ghost predicate SpanOk(s: string, p: nat, anchored: bool, entry: Entry, sp: (nat, nat)) {
    && p <= sp.0 < sp.1 <= |s|
    && (anchored ==> LineStart(s, sp.0))
    && EntryAt(s, sp.0) == Some((entry, sp.1))
  }

  /** The spans of a scan: the `j`-th entry is the match reported at the
      start of the `j`-th span, and the spans follow each other without
      overlapping. */
  ghost predicate SpansFit(s: string, p: nat, anchored: bool, es: seq<Entry>, sp: seq<(nat, nat)>) {
    && |sp| == |es|
    && (forall j | 0 <= j < |sp| :: SpanOk(s, p, anchored, es[j], sp[j]))
    && (forall j, k | 0 <= j < k < |sp| :: sp[j].1 <= sp[k].0)
  }

  /** The scan looks for a match at `i`, and the pattern matches there. */
  ghost predicate Reported(s: string, i: nat, anchored: bool) {
    (!anchored || LineStart(s, i)) && EntryAt(s, i).Some?
  }

  /** Every position from `p` on where the pattern matches lies inside one
      of the spans. */
  ghost predicate SpansCover(s: string, p: nat, anchored: bool, sp: seq<(nat, nat)>) {
    forall i | p <= i < |s| && Reported(s, i, anchored) ::
      exists j | 0 <= j < |sp| :: sp[j].0 <= i < sp[j].1
  }

  /** `findall` of the entry pattern from `p` on, stated by its matches:
      the entries are the matches at the starts of non-overlapping spans,
      and every position where the pattern matches lies inside a span, so
      the only matches left out are those that start inside an earlier one. */
  lemma EntryScanMatches(s: string, p: nat, anchored: bool)
    ensures SpansFit(s, p, anchored, EntryScan(s, p, anchored), EntrySpans(s, p, anchored))
    ensures SpansCover(s, p, anchored, EntrySpans(s, p, anchored))
  {
    EntrySpansFit(s, p, anchored);
    EntrySpansCover(s, p, anchored);
  }

  lemma {:induction false} EntrySpansFit(s: string, p: nat, anchored: bool)
    ensures SpansFit(s, p, anchored, EntryScan(s, p, anchored), EntrySpans(s, p, anchored))
    decreases |s| - p
  {
    if p < |s| {
      if (!anchored || LineStart(s, p)) && EntryAt(s, p).Some? {
        var m := EntryAt(s, p).value;
        EntrySpansFit(s, m.1, anchored);
        FitCons(s, p, m.1, anchored, m.0, EntryScan(s, m.1, anchored), EntrySpans(s, m.1, anchored));
      } else {
        EntrySpansFit(s, p + 1, anchored);
      }
    }
  }

  lemma FitCons(s: string, p: nat, e: nat, anchored: bool, m: Entry, es: seq<Entry>, sp: seq<(nat, nat)>)
    requires p < e <= |s| && (anchored ==> LineStart(s, p)) && EntryAt(s, p) == Some((m, e))
    requires SpansFit(s, e, anchored, es, sp)
    ensures SpansFit(s, p, anchored, [m] + es, [(p, e)] + sp)
  {
    var es': seq<Entry> := [m] + es;
    var sp': seq<(nat, nat)> := [(p, e)] + sp;
    forall j | 0 <= j < |sp'| ensures SpanOk(s, p, anchored, es'[j], sp'[j]) {
      if j > 0 {
        assert sp'[j] == sp[j - 1] && es'[j] == es[j - 1];
        SpanOkFrom(s, p, e, anchored, es[j - 1], sp[j - 1]);
      }
    }
    forall j | 0 <= j < |sp| ensures e <= sp[j].0 {
      assert SpanOk(s, e, anchored, es[j], sp[j]);
    }
    OrderCons(p, e, sp);
  }

  /** Putting a span that ends before all the others in front keeps the
      spans in order. */
  lemma OrderCons(p: nat, e: nat, sp: seq<(nat, nat)>)
    requires forall j | 0 <= j < |sp| :: e <= sp[j].0
    requires forall j, k | 0 <= j < k < |sp| :: sp[j].1 <= sp[k].0
    ensures forall j, k | 0 <= j < k < |[(p, e)] + sp| :: ([(p, e)] + sp)[j].1 <= ([(p, e)] + sp)[k].0
  {
    var sp': seq<(nat, nat)> := [(p, e)] + sp;
    forall j, k | 0 <= j < k < |sp'| ensures sp'[j].1 <= sp'[k].0 {
      assert sp'[k] == sp[k - 1];
      if j > 0 {
        assert sp'[j] == sp[j - 1];
      }
    }
  }

  lemma SpanOkFrom(s: string, p: nat, e: nat, anchored: bool, entry: Entry, sp: (nat, nat))
    requires p <= e && SpanOk(s, e, anchored, entry, sp)
    ensures SpanOk(s, p, anchored, entry, sp)
  {
  }

  lemma {:induction false} EntrySpansCover(s: string, p: nat, anchored: bool)
    ensures SpansCover(s, p, anchored, EntrySpans(s, p, anchored))
    decreases |s| - p
  {
    if p >= |s| {
      assert EntrySpans(s, p, anchored) == [];
    } else if Reported(s, p, anchored) {
      EntrySpansCover(s, EntryAt(s, p).value.1, anchored);
      CoverCons(s, p, anchored);
    } else {
      EntrySpansCover(s, p + 1, anchored);
      CoverSkip(s, p, anchored);
    }
  }

  lemma CoverSkip(s: string, p: nat, anchored: bool)
    requires p < |s| && !Reported(s, p, anchored)
    requires SpansCover(s, p + 1, anchored, EntrySpans(s, p + 1, anchored))
    ensures SpansCover(s, p, anchored, EntrySpans(s, p, anchored))
  {
    var sp := EntrySpans(s, p + 1, anchored);
    assert EntrySpans(s, p, anchored) == sp;
    forall i | p <= i < |s| && Reported(s, i, anchored)
      ensures exists j | 0 <= j < |sp| :: sp[j].0 <= i < sp[j].1
    {
      assert i != p;
    }
  }

  lemma CoverCons(s: string, p: nat, anchored: bool)
    requires p < |s| && Reported(s, p, anchored)
    requires SpansCover(s, EntryAt(s, p).value.1, anchored, EntrySpans(s, EntryAt(s, p).value.1, anchored))
    ensures SpansCover(s, p, anchored, EntrySpans(s, p, anchored))
  {
    var e := EntryAt(s, p).value.1;
    var rest := EntrySpans(s, e, anchored);
    assert EntrySpans(s, p, anchored) == [(p, e)] + rest;
    CoverPrepend(s, p, e, anchored, rest);
  }

  lemma CoverPrepend(s: string, p: nat, e: nat, anchored: bool, rest: seq<(nat, nat)>)
    requires p < e && SpansCover(s, e, anchored, rest)
    ensures SpansCover(s, p, anchored, [(p, e)] + rest)
  {
    var sp := [(p, e)] + rest;
    forall i | p <= i < |s| && Reported(s, i, anchored)
      ensures exists j | 0 <= j < |sp| :: sp[j].0 <= i < sp[j].1
    {
      if i < e {
        assert sp[0].0 <= i < sp[0].1;
      } else {
        var j :| 0 <= j < |rest| && rest[j].0 <= i < rest[j].1;
        assert sp[j + 1] == rest[j];
      }
    }
  }

  /** Every entry number is also a `[n]` occurrence of the text: the
      citation scan runs over the Sources lines as well. */
  lemma {:induction false} EntryNumbersAreCited(s: string, p: nat, anchored: bool)
    ensures forall j | 0 <= j < |EntryScan(s, p, anchored)| ::
      EntryScan(s, p, anchored)[j].num in ExtractSourceNumbers(s)
    decreases |s| - p
  {
    if p < |s| {
      if (!anchored || LineStart(s, p)) && EntryAt(s, p).Some? {
        EntryNumbersAreCited(s, EntryAt(s, p).value.1, anchored);
        assert BracketValue(s, p) in ExtractSourceNumbers(s);
      } else {
        EntryNumbersAreCited(s, p + 1, anchored);
      }
    }
  }

  // ------------------------------------------------- answers with one source

  /** A stretch without `[` holds no `[n]`. */
  lemma {:induction false} BracketScanSkip(s: string, p: nat, k: nat)
    requires p <= k <= |s| && forall i | p <= i < k :: s[i] != '['
    ensures BracketScan(s, p) == BracketScan(s, k)
    decreases k - p
  {
    if p < k { BracketScanSkip(s, p + 1, k); }
  }

  /** A stretch where no `[` starts a line holds no Sources line. */
  lemma {:induction false} EntryScanSkip(s: string, p: nat, k: nat, anchored: bool)
    requires p <= k <= |s| && forall i | p <= i < k :: s[i] != '[' || (anchored && !LineStart(s, i))
    ensures EntryScan(s, p, anchored) == EntryScan(s, k, anchored)
    decreases k - p
  {
    if p < k { EntryScanSkip(s, p + 1, k, anchored); }
  }

  /** An answer in the requested format with one sentence citing `[1]` and
      one Sources line for it. */
  function OneSourceText(sentence: string, ref: string): string {
    sentence + " [1].\nSources:\n[1] " + ref
  }

  /** `[1]` at `i` is a citation of the number 1. */
  lemma OneBracketAt(t: string, i: nat)
    requires i + 2 < |t| && t[i] == '[' && t[i + 1] == '1' && t[i + 2] == ']'
    ensures BracketAt(t, i) && CloseAt(t, i) == i + 2 && BracketValue(t, i) == 1
  {
    assert DigitsEnd(t, i + 2) == i + 2;
    assert t[i + 1..i + 2] == "1";
    assert DigitsValue("1") == 1 by { assert "1"[..0] == []; }
  }

  /** The characters of such an answer that the two scans look at: no `[`
      but the two of `[1]`, at `b + 1` and at `c`, and a newline before
      the second. */
  predicate OneSourceShape(text: string, b: nat, c: nat) {
    && b + 4 < c && c + 3 < |text|
    && text[b + 1] == '[' && text[b + 2] == '1' && text[b + 3] == ']'
    && text[c - 1] == '\n' && text[c] == '[' && text[c + 1] == '1' && text[c + 2] == ']'
    && (forall i | 0 <= i < |text| && i != b + 1 && i != c :: text[i] != '[')
  }

  lemma OneSourceShapeHolds(sentence: string, ref: string)
    requires Free(sentence, '[') && Free(ref, '[')
    ensures OneSourceShape(OneSourceText(sentence, ref), |sentence|, |sentence| + 15)
  {
    var text := OneSourceText(sentence, ref);
    var mid := " [1].\nSources:\n[1] ";
    var b := |sentence|;
    assert text == sentence + mid + ref;
    forall i | 0 <= i < |text| && i != b + 1 && i != b + 15 ensures text[i] != '[' {
      if i < b {
        assert text[i] == sentence[i];
      } else if i < b + 19 {
        assert text[i] == mid[i - b];
      } else {
        assert text[i] == ref[i - (b + 19)];
      }
    }
  }

  lemma NumbersOfShape(text: string, b: nat, c: nat)
    requires OneSourceShape(text, b, c)
    ensures ExtractSourceNumbers(text) == {1}
  {
    OneBracketAt(text, b + 1);
    OneBracketAt(text, c);
    BracketScanSkip(text, 0, b + 1);
    BracketScanSkip(text, b + 4, c);
    BracketScanSkip(text, c + 3, |text|);
    assert BracketScan(text, c) == [1];
    assert BracketScan(text, b + 1) == [1, 1];
  }

  /** Such an answer cites exactly the number 1 (found twice: in the
      sentence and on the Sources line). */
  lemma OneSourceNumbers(sentence: string, ref: string)
    requires Free(sentence, '[') && Free(ref, '[')
    ensures ExtractSourceNumbers(OneSourceText(sentence, ref)) == {1}
  {
    OneSourceShapeHolds(sentence, ref);
    NumbersOfShape(OneSourceText(sentence, ref), |sentence|, |sentence| + 15);
  }

  /** ... and its only Sources line is `[1]` with the reference as written;
      the `[1]` of the sentence is not at a line start. */
  lemma OneSourceLines(sentence: string, ref: string)
    requires Free(sentence, '[') && Free(ref, '[') && Free(ref, '\n')
    requires ref != [] && !IsSpace(ref[0])
    ensures SourcesLines(OneSourceText(sentence, ref)) == [Entry(1, ref)]
  {
    var text := OneSourceText(sentence, ref);
    var b := |sentence|;
    var c := b + 15;
    OneSourceShapeHolds(sentence, ref);
    assert text[b] == ' ' && text[c + 3] == ' ' && text[c + 4..] == ref by {
      assert text == sentence + " [1].\nSources:\n[1] " + ref;
    }
    LinesOfShape(text, b, c, ref);
  }

  lemma LinesOfShape(text: string, b: nat, c: nat, ref: string)
    requires OneSourceShape(text, b, c) && text[b] == ' ' && text[c + 3] == ' '
    requires c + 4 <= |text| && text[c + 4..] == ref
    requires Free(ref, '\n') && ref != [] && !IsSpace(ref[0])
    ensures SourcesLines(text) == [Entry(1, ref)]
  {
    OneBracketAt(text, c);
    forall i | 0 <= i < c ensures text[i] != '[' || !LineStart(text, i) {
      if i == b + 1 { assert text[i - 1] == ' '; }
    }
    EntryScanSkip(text, 0, c, true);
    assert text[c + 4] == ref[0];
    assert SpacesEnd(text, c + 3) == c + 4;
    forall i | c + 4 <= i < |text| ensures text[i] != '\n' { assert text[i] == ref[i - (c + 4)]; }
    assert LineEnd(text, c + 4) == |text|;
    assert text[c + 4..|text|] == ref;
    assert RefStart(text, c + 2) == Some(c + 4);
    assert EntryAt(text, c) == Some((Entry(1, ref), |text|));
    assert EntryScan(text, c, true) == [Entry(1, ref)] + EntryScan(text, |text|, true);
  }

  /** `{int(n): ref.strip() for n, ref in entries}`: a later entry for the
      same number replaces an earlier one. */
  function ToMap(es: seq<Entry>): map<nat, string> {
    if es == [] then map[]
    else ToMap(es[..|es| - 1])[es[|es| - 1].num := Strip(es[|es| - 1].ref)]
  }

  /** The keys of the dict are the entry numbers, and each number maps to the
      stripped reference of its LAST entry. */
  lemma ToMapLastWins(es: seq<Entry>)
    ensures forall n :: n in ToMap(es) <==> exists j | 0 <= j < |es| :: es[j].num == n
    ensures forall j | 0 <= j < |es| && (forall k | j < k < |es| :: es[k].num != es[j].num) ::
      ToMap(es)[es[j].num] == Strip(es[j].ref)
  {
    ToMapKeys(es);
    ToMapLast(es);
  }

  lemma {:induction false} ToMapKeys(es: seq<Entry>)
    ensures forall n :: n in ToMap(es) <==> exists j | 0 <= j < |es| :: es[j].num == n
  {
    if es != [] {
      var init := es[..|es| - 1];
      ToMapKeys(init);
      forall n | exists j | 0 <= j < |es| :: es[j].num == n ensures n in ToMap(es) {
        var j :| 0 <= j < |es| && es[j].num == n;
        if j < |es| - 1 { assert init[j].num == n; }
      }
    }
  }

  lemma {:induction false} ToMapLast(es: seq<Entry>)
    ensures forall j | 0 <= j < |es| && (forall k | j < k < |es| :: es[k].num != es[j].num) ::
      es[j].num in ToMap(es) && ToMap(es)[es[j].num] == Strip(es[j].ref)
  {
    if es != [] {
      var init := es[..|es| - 1];
      ToMapLast(init);
      forall j | 0 <= j < |es| && (forall k | j < k < |es| :: es[k].num != es[j].num)
        ensures es[j].num in ToMap(es) && ToMap(es)[es[j].num] == Strip(es[j].ref)
      {
        if j < |es| - 1 {
          assert init[j] == es[j];
          assert es[|es| - 1].num != es[j].num;
          forall k | j < k < |init| ensures init[k].num != init[j].num { assert init[k] == es[k]; }
        }
      }
    }
  }

  /** `extract_sources_block`: the same dict built from the UNanchored
      pattern `\[(\d+)\]\s+([^\n]+)`. */
  function ExtractSourcesBlock(s: string): (r: map<nat, string>)
    ensures var es := EntryScan(s, 0, false);
      && (forall n :: n in r <==> exists j | 0 <= j < |es| :: es[j].num == n)
      && (forall j | 0 <= j < |es| && (forall k | j < k < |es| :: es[k].num != es[j].num) ::
            r[es[j].num] == Strip(es[j].ref))
    ensures forall n | n in r :: n in ExtractSourceNumbers(s)
  {
    var es := EntryScan(s, 0, false);
    ToMapLastWins(es);
    EntryNumbersAreCited(s, 0, false);
    ToMap(es)
  }

  // -------------------------- `Source:\s*([^\n]+?)\s+p\.(?:\d+|\?)`

  predicate SourceTagAt(s: string, i: nat) {
    i + 7 <= |s| && s[i..i + 7] == "Source:"
  }

  /** `\s+p\.(?:\d+|\?)` at `b`: the whitespace run must be taken whole (a
      `p` must follow it); `\d+` is tried before `\?`. Gives the match end. */
  function PageTailAt(s: string, b: nat): (r: Option<nat>)
    ensures r.Some? ==> b < r.value <= |s|
  {
    if b >= |s| || !IsSpace(s[b]) then None
    else
      var c := SpacesEnd(s, b);
      if c + 2 < |s| && s[c] == 'p' && s[c + 1] == '.' && (IsDigit(s[c + 2]) || s[c + 2] == '?') then
        Some(if IsDigit(s[c + 2]) then DigitsEnd(s, c + 2) else c + 3)
      else None
  }

  /** The lazy `[^\n]+?` from `a`: the shortest group `s[a..b)` (tried for
      `b` from `lo` upward, not crossing a newline) after which the tail
      matches. */
  function LazyGroupEnd(s: string, a: nat, lo: nat): (r: Option<nat>)
    requires a < lo <= |s|
    ensures r.Some? ==> lo <= r.value <= LineEnd(s, a) && PageTailAt(s, r.value).Some?
    ensures r.Some? ==> forall b | lo <= b < r.value :: PageTailAt(s, b).None?
    ensures r.None? ==> forall b | lo <= b <= LineEnd(s, a) :: PageTailAt(s, b).None?
    decreases |s| - lo
  {
    if lo > LineEnd(s, a) then None
    else if PageTailAt(s, lo).Some? then Some(lo)
    else if lo == |s| then None
    else LazyGroupEnd(s, a, lo + 1)
  }

  /** The greedy `\s*` after `Source:`, tried from its longest choice `a`
      down to the empty one; for each, the lazy group. Gives the group's
      bounds and the match end: the group starts at the largest start up to
      `a` that lets the pattern match, ends at the smallest end that lets
      it match from there, and the match ends where the page tail does. */
  function SourceMatchFrom(s: string, i: nat, a: nat): (r: Option<(nat, nat, nat)>)
    requires i + 7 <= a <= |s|
    ensures r.Some? ==> i + 7 <= r.value.0 < r.value.1 <= |s| && r.value.1 < r.value.2 <= |s|
    ensures r.Some? ==> PageTailAt(s, r.value.1) == Some(r.value.2)
    ensures r.Some? ==> forall a': nat, b': nat | r.value.0 < a' <= a :: !SourceCitationAt(s, i, a', b')
    ensures r.Some? ==> forall b': nat | b' < r.value.1 :: !SourceCitationAt(s, i, r.value.0, b')
    decreases a
  {
    var g := if a < |s| && s[a] != '\n' then LazyGroupEnd(s, a, a + 1) else None;
    if g.Some? then Some((a, g.value, PageTailAt(s, g.value).value))
    else if a == i + 7 then None
    else
      NoGroupNoCitation(s, i, a);
      SourceMatchFrom(s, i, a - 1)
  }

  /** When no lazy group can start at `a`, the pattern has no match whose
      `\s*` ends at `a`. */
  lemma NoGroupNoCitation(s: string, i: nat, a: nat)
    requires a <= |s|
    requires !(a < |s| && s[a] != '\n' && LazyGroupEnd(s, a, a + 1).Some?)
    ensures forall b': nat :: !SourceCitationAt(s, i, a, b')
  {
    forall b': nat | SourceCitationAt(s, i, a, b') ensures false {
      CitationGivesGroup(s, i, a, b');
    }
  }

  /** A match whose `\s*` ends at `a` leaves a lazy group to find there. */
  lemma CitationGivesGroup(s: string, i: nat, a: nat, b: nat)
    requires SourceCitationAt(s, i, a, b)
    ensures a < |s| && s[a] != '\n' && LazyGroupEnd(s, a, a + 1).Some?
  {
    assert s[a] != '\n';
    assert b <= LineEnd(s, a);
  }

  /** The match of the filename pattern at `i`, if any: the captured
      filename and where the match ends. */
  function SourceMatchAt(s: string, i: nat): (r: Option<(string, nat)>)
    ensures r.Some? ==> i < r.value.1 <= |s|
  {
    if !SourceTagAt(s, i) then None
    else match SourceMatchFrom(s, i, SpacesEnd(s, i + 7))
      case None => None
      case Some((a, b, e)) => Some((s[a..b], e))
  }

  /** `findall` of the filename pattern from `p` on, each name stripped. */
  function FilenameScan(s: string, p: nat): seq<string>
    decreases |s| - p
  {
    if p >= |s| then []
    else match SourceMatchAt(s, p)
      case Some((name, e)) => [Strip(name)] + FilenameScan(s, e)
      case None => FilenameScan(s, p + 1)
  }

  /** `extract_cited_filenames`. */
  function ExtractCitedFilenames(s: string): seq<string> { FilenameScan(s, 0) }

  /** What the filename pattern matches, stated without any search order:
      `Source:`, whitespace, a non-empty piece of one line, whitespace, `p.`,
      then a digit or `?`. */
  predicate SourceCitationAt(s: string, i: nat, a: nat, b: nat) {
    && SourceTagAt(s, i)
    && i + 7 <= a < b <= |s|
    && (forall k | i + 7 <= k < a :: IsSpace(s[k]))
    && (forall k | a <= k < b :: s[k] != '\n')
    && PageTailAt(s, b).Some?
  }

  /** `has_source_citation`: `re.search` of the pattern succeeds. */
  predicate HasSourceCitation(s: string) {
    exists i, a, b | 0 <= i < |s| && 0 <= a <= |s| && 0 <= b <= |s| :: SourceCitationAt(s, i, a, b)
  }

  /** The backtracking search at `i` finds a match whenever one exists. */
  lemma {:induction false} SourceMatchFromComplete(s: string, i: nat, top: nat, a: nat, b: nat)
    requires i + 7 <= top <= |s| && SourceCitationAt(s, i, a, b) && a <= top
    ensures SourceMatchFrom(s, i, top).Some?
    decreases top
  {
    var g := if top < |s| && s[top] != '\n' then LazyGroupEnd(s, top, top + 1) else None;
    if g.None? {
      NoGroupNoCitation(s, i, top);
      SourceMatchFromComplete(s, i, top - 1, a, b);
    }
  }

  /** Every match the search reports is a match of the pattern. */
  lemma {:induction false} SourceMatchFromSound(s: string, i: nat, top: nat)
    requires SourceTagAt(s, i) && i + 7 <= top <= SpacesEnd(s, i + 7)
    requires SourceMatchFrom(s, i, top).Some?
    ensures var m := SourceMatchFrom(s, i, top).value; SourceCitationAt(s, i, m.0, m.1)
    decreases top
  {
    var g := if top < |s| && s[top] != '\n' then LazyGroupEnd(s, top, top + 1) else None;
    if g.None? { SourceMatchFromSound(s, i, top - 1); }
  }

  lemma {:induction false} FilenameScanNonEmpty(s: string, p: nat)
    ensures |FilenameScan(s, p)| > 0 <==> exists i, a, b | p <= i :: SourceCitationAt(s, i, a, b)
    decreases |s| - p
  {
    if p < |s| {
      if SourceMatchAt(s, p).Some? {
        var m := MatchAtIsCitation(s, p);
      } else {
        FilenameScanNonEmpty(s, p + 1);
        if exists i, a, b | p <= i :: SourceCitationAt(s, i, a, b) {
          var i, a, b :| p <= i && SourceCitationAt(s, i, a, b);
          if i == p {
            MissAtIsNoCitation(s, p, a, b);
            assert false;
          }
        }
      }
    }
  }

  /** A match reported at `p` is a match of the pattern there. */
  lemma MatchAtIsCitation(s: string, p: nat) returns (m: (nat, nat, nat))
    requires SourceMatchAt(s, p).Some?
    ensures SourceCitationAt(s, p, m.0, m.1)
  {
    m := SourceMatchFrom(s, p, SpacesEnd(s, p + 7)).value;
    SourceMatchFromSound(s, p, SpacesEnd(s, p + 7));
  }

  /** No match reported at `p` means no match of the pattern there. */
  lemma MissAtIsNoCitation(s: string, p: nat, a: nat, b: nat)
    requires SourceMatchAt(s, p).None?
    ensures !SourceCitationAt(s, p, a, b)
  {
    if SourceCitationAt(s, p, a, b) {
      SourceMatchFromComplete(s, p, SpacesEnd(s, p + 7), a, b);
      assert false;
    }
  }

  /** The match the engine commits to at `i`: a match of the pattern whose
      `\s*` is the longest run that still lets the rest match, and whose lazy
      group is then the shortest. */
  ghost predicate CommittedCitation(s: string, i: nat, a: nat, b: nat) {
    && SourceCitationAt(s, i, a, b)
    && (forall a': nat, b': nat | a < a' :: !SourceCitationAt(s, i, a', b'))
    && (forall b': nat | b' < b :: !SourceCitationAt(s, i, a, b'))
  }

  /** The filename pattern matches at `i`. */
  ghost predicate CitesAt(s: string, i: nat) {
    exists a: nat, b: nat :: SourceCitationAt(s, i, a, b)
  }

  /** A match of the pattern cannot take more whitespace than there is. */
  lemma CitationWithinSpaces(s: string, i: nat, a: nat, b: nat)
    requires SourceCitationAt(s, i, a, b)
    ensures a <= SpacesEnd(s, i + 7)
  {
    if SpacesEnd(s, i + 7) < a {
      assert false;
    }
  }

  /** The match the search reports at `p` is the committed one. */
  lemma CommittedAt(s: string, p: nat)
    requires SourceTagAt(s, p) && SourceMatchFrom(s, p, SpacesEnd(s, p + 7)).Some?
    ensures var m := SourceMatchFrom(s, p, SpacesEnd(s, p + 7)).value;
      CommittedCitation(s, p, m.0, m.1)
  {
    var top := SpacesEnd(s, p + 7);
    var m := SourceMatchFrom(s, p, top).value;
    SourceMatchFromSound(s, p, top);
    forall a': nat, b': nat | m.0 < a' && SourceCitationAt(s, p, a', b') ensures a' <= top {
      CitationWithinSpaces(s, p, a', b');
    }
  }

  /** Where each match of `FilenameScan` starts, where its `\s*` and its
      group end, and where the match ends. */
  ghost function FilenameSpans(s: string, p: nat): seq<(nat, nat, nat, nat)>
    decreases |s| - p
  {
    if p >= |s| then []
    else if SourceTagAt(s, p) && SourceMatchFrom(s, p, SpacesEnd(s, p + 7)).Some? then
      var m := SourceMatchFrom(s, p, SpacesEnd(s, p + 7)).value;
      [(p, m.0, m.1, m.2)] + FilenameSpans(s, m.2)
    else FilenameSpans(s, p + 1)
  }

  /** A span `(i, a, b, e)` from `p` on that yields `name`: the committed
      match at `i`, ending at `e`, whose stripped group is the name. */
  ghost predicate NameSpanOk(s: string, p: nat, name: string, sp: (nat, nat, nat, nat)) {
    && p <= sp.0
    && CommittedCitation(s, sp.0, sp.1, sp.2)
    && PageTailAt(s, sp.2) == Some(sp.3)
    && name == Strip(s[sp.1..sp.2])
  }

  /** The spans of the filename scan: the `j`-th name comes from the `j`-th
      span, and the spans follow each other without overlapping. */
  ghost predicate NamesFit(s: string, p: nat, names: seq<string>, sp: seq<(nat, nat, nat, nat)>) {
    && |sp| == |names|
    && (forall j | 0 <= j < |sp| :: NameSpanOk(s, p, names[j], sp[j]))
    && (forall j, k | 0 <= j < k < |sp| :: sp[j].3 <= sp[k].0)
  }

  /** Every position from `p` on where the pattern matches lies inside one
      of the spans. */
  ghost predicate NamesCover(s: string, p: nat, sp: seq<(nat, nat, nat, nat)>) {
    forall i | p <= i < |s| && CitesAt(s, i) ::
      exists j | 0 <= j < |sp| :: sp[j].0 <= i < sp[j].3
  }

  /** `findall` of the filename pattern from `p` on, stated by its matches:
      each name is the stripped group of the committed match at the start of
      its span, the spans do not overlap, and every position where the
      pattern matches lies inside a span, so the only matches left out are
      those that start inside an earlier one. */
  lemma FilenameScanMatches(s: string, p: nat)
    ensures NamesFit(s, p, FilenameScan(s, p), FilenameSpans(s, p))
    ensures NamesCover(s, p, FilenameSpans(s, p))
  {
    FilenameSpansFit(s, p);
    FilenameSpansCover(s, p);
  }

  lemma {:induction false} FilenameSpansFit(s: string, p: nat)
    ensures NamesFit(s, p, FilenameScan(s, p), FilenameSpans(s, p))
    decreases |s| - p
  {
    if p < |s| {
      if SourceTagAt(s, p) && SourceMatchFrom(s, p, SpacesEnd(s, p + 7)).Some? {
        var m := SourceMatchFrom(s, p, SpacesEnd(s, p + 7)).value;
        FilenameSpansFit(s, m.2);
        CommittedAt(s, p);
        assert FilenameScan(s, p) == [Strip(s[m.0..m.1])] + FilenameScan(s, m.2);
        NamesFitCons(s, p, m.0, m.1, m.2, FilenameScan(s, m.2), FilenameSpans(s, m.2));
      } else {
        FilenameSpansFit(s, p + 1);
        assert FilenameScan(s, p) == FilenameScan(s, p + 1);
        NamesFitFrom(s, p, FilenameScan(s, p + 1), FilenameSpans(s, p + 1));
      }
    }
  }

  lemma NamesFitFrom(s: string, p: nat, names: seq<string>, sp: seq<(nat, nat, nat, nat)>)
    requires NamesFit(s, p + 1, names, sp)
    ensures NamesFit(s, p, names, sp)
  {
    forall j | 0 <= j < |sp| ensures NameSpanOk(s, p, names[j], sp[j]) {
      assert NameSpanOk(s, p + 1, names[j], sp[j]);
    }
  }

  lemma NamesFitCons(s: string, p: nat, a: nat, b: nat, e: nat, names: seq<string>, sp: seq<(nat, nat, nat, nat)>)
    requires CommittedCitation(s, p, a, b) && PageTailAt(s, b) == Some(e)
    requires NamesFit(s, e, names, sp)
    ensures NamesFit(s, p, [Strip(s[a..b])] + names, [(p, a, b, e)] + sp)
  {
    var names': seq<string> := [Strip(s[a..b])] + names;
    var sp': seq<(nat, nat, nat, nat)> := [(p, a, b, e)] + sp;
    forall j | 0 <= j < |sp'| ensures NameSpanOk(s, p, names'[j], sp'[j]) {
      if j > 0 {
        assert sp'[j] == sp[j - 1] && names'[j] == names[j - 1];
        assert NameSpanOk(s, e, names[j - 1], sp[j - 1]);
      }
    }
    forall j | 0 <= j < |sp| ensures e <= sp[j].0 {
      assert NameSpanOk(s, e, names[j], sp[j]);
    }
    NamesOrderCons(p, a, b, e, sp);
  }

  /** Putting a span that ends before all the others in front keeps the
      spans in order. */
  lemma NamesOrderCons(p: nat, a: nat, b: nat, e: nat, sp: seq<(nat, nat, nat, nat)>)
    requires forall j | 0 <= j < |sp| :: e <= sp[j].0
    requires forall j, k | 0 <= j < k < |sp| :: sp[j].3 <= sp[k].0
    ensures forall j, k | 0 <= j < k < |[(p, a, b, e)] + sp| ::
      ([(p, a, b, e)] + sp)[j].3 <= ([(p, a, b, e)] + sp)[k].0
  {
    var sp': seq<(nat, nat, nat, nat)> := [(p, a, b, e)] + sp;
    forall j, k | 0 <= j < k < |sp'| ensures sp'[j].3 <= sp'[k].0 {
      assert sp'[k] == sp[k - 1];
      if j > 0 {
        assert sp'[j] == sp[j - 1];
      }
    }
  }

  lemma {:induction false} FilenameSpansCover(s: string, p: nat)
    ensures NamesCover(s, p, FilenameSpans(s, p))
    decreases |s| - p
  {
    if p >= |s| {
      assert FilenameSpans(s, p) == [];
    } else if SourceTagAt(s, p) && SourceMatchFrom(s, p, SpacesEnd(s, p + 7)).Some? {
      FilenameSpansCover(s, SourceMatchFrom(s, p, SpacesEnd(s, p + 7)).value.2);
      NamesCoverCons(s, p);
    } else {
      FilenameSpansCover(s, p + 1);
      NamesCoverSkip(s, p);
    }
  }

  lemma NamesCoverSkip(s: string, p: nat)
    requires p < |s| && !(SourceTagAt(s, p) && SourceMatchFrom(s, p, SpacesEnd(s, p + 7)).Some?)
    requires NamesCover(s, p + 1, FilenameSpans(s, p + 1))
    ensures NamesCover(s, p, FilenameSpans(s, p))
  {
    var sp := FilenameSpans(s, p + 1);
    assert FilenameSpans(s, p) == sp;
    assert SourceMatchAt(s, p).None?;
    forall a: nat, b: nat ensures !SourceCitationAt(s, p, a, b) {
      MissAtIsNoCitation(s, p, a, b);
    }
    forall i | p <= i < |s| && CitesAt(s, i)
      ensures exists j | 0 <= j < |sp| :: sp[j].0 <= i < sp[j].3
    {
      assert i != p;
    }
  }

  lemma NamesCoverCons(s: string, p: nat)
    requires p < |s| && SourceTagAt(s, p) && SourceMatchFrom(s, p, SpacesEnd(s, p + 7)).Some?
    requires NamesCover(s, SourceMatchFrom(s, p, SpacesEnd(s, p + 7)).value.2,
                        FilenameSpans(s, SourceMatchFrom(s, p, SpacesEnd(s, p + 7)).value.2))
    ensures NamesCover(s, p, FilenameSpans(s, p))
  {
    var m := SourceMatchFrom(s, p, SpacesEnd(s, p + 7)).value;
    var rest := FilenameSpans(s, m.2);
    assert FilenameSpans(s, p) == [(p, m.0, m.1, m.2)] + rest;
    NamesCoverPrepend(s, p, m.0, m.1, m.2, rest);
  }

  lemma NamesCoverPrepend(s: string, p: nat, a: nat, b: nat, e: nat, rest: seq<(nat, nat, nat, nat)>)
    requires p < e && NamesCover(s, e, rest)
    ensures NamesCover(s, p, [(p, a, b, e)] + rest)
  {
    var sp := [(p, a, b, e)] + rest;
    forall i | p <= i < |s| && CitesAt(s, i)
      ensures exists j | 0 <= j < |sp| :: sp[j].0 <= i < sp[j].3
    {
      if i < e {
        assert sp[0].0 <= i < sp[0].3;
      } else {
        var j :| 0 <= j < |rest| && rest[j].0 <= i < rest[j].3;
        assert sp[j + 1] == rest[j];
      }
    }
  }

  /** `re.search` finds the pattern exactly when `findall` returns a name. */
  lemma HasSourceCitationIffNames(s: string)
    ensures HasSourceCitation(s) <==> |ExtractCitedFilenames(s)| > 0
  {
    FilenameScanNonEmpty(s, 0);
  }

  /** `citations_subset_of_ctx`: at least one cited filename, and every one of
      them among the context's sources. */
  function CitationsSubsetOfCtx(s: string, ctxSources: seq<string>): (ok: bool)
    ensures ok <==> HasSourceCitation(s) && forall c | c in ExtractCitedFilenames(s) :: c in ctxSources
  {
    HasSourceCitationIffNames(s);
    var cited := ExtractCitedFilenames(s);
    if |cited| == 0 then false
    else forall c | c in cited :: c in ctxSources
  }
}
