/** Python string primitives the pipeline relies on: `str.isspace`, `strip`,
    ASCII `lower`, the `in` substring test, `int()` of a digit string,
    `str()` of an integer, `f"{n:03d}"`, `sep.join`, `split("\n")` and the
    code-point order `<` that `sorted` uses on paths. */
module Text {

  /** Exactly the characters for which Python's `str.isspace` holds; the `re`
      module's `\s` matches the same set for `str` patterns. */
  predicate IsSpace(c: char) {
    || ('\t' <= c <= '\r')
    || ('\U{001C}' <= c <= '\U{001F}')
    || c == ' ' || c == '\U{0085}' || c == '\U{00A0}' || c == '\U{1680}'
    || ('\U{2000}' <= c <= '\U{200A}')
    || c == '\U{2028}' || c == '\U{2029}' || c == '\U{202F}' || c == '\U{205F}'
    || c == '\U{3000}'
  }

  predicate IsDigit(c: char) { '0' <= c <= '9' }

  predicate AllDigits(s: string) { forall i | 0 <= i < |s| :: IsDigit(s[i]) }

  predicate NoSpaces(s: string, lo: int, hi: int)
    requires 0 <= lo <= hi <= |s|
  {
    forall i | lo <= i < hi :: !IsSpace(s[i])
  }

  // ---------------------------------------------------------------- strip

  /** The length of the run of whitespace that starts the string. */
  function LeadingSpaces(s: string): (k: nat)
    ensures k <= |s|
    ensures forall i | 0 <= i < k :: IsSpace(s[i])
    ensures k < |s| ==> !IsSpace(s[k])
  {
    if s == [] || !IsSpace(s[0]) then 0 else 1 + LeadingSpaces(s[1..])
  }

  /** The length of the run of whitespace that ends the string. */
  function TrailingSpaces(s: string): (k: nat)
    ensures k <= |s|
    ensures forall i | |s| - k <= i < |s| :: IsSpace(s[i])
    ensures k < |s| ==> !IsSpace(s[|s| - 1 - k])
  {
    if s == [] || !IsSpace(s[|s| - 1]) then 0 else 1 + TrailingSpaces(s[..|s| - 1])
  }

  function LStrip(s: string): string { s[LeadingSpaces(s)..] }

  function RStrip(s: string): string { s[..|s| - TrailingSpaces(s)] }

  /** `s.strip()`. */
  function Strip(s: string): string { RStrip(LStrip(s)) }

  /** The bounds of the slice that `strip` keeps. */
  lemma StripBounds(s: string) returns (a: nat, b: nat)
    ensures a <= b <= |s| && Strip(s) == s[a..b]
    ensures forall i | 0 <= i < a :: IsSpace(s[i])
    ensures forall i | b <= i < |s| :: IsSpace(s[i])
    ensures a < b ==> !IsSpace(s[a]) && !IsSpace(s[b - 1])
  {
    a := LeadingSpaces(s);
    var t := s[a..];
    b := a + |t| - TrailingSpaces(t);
    assert forall i | b <= i < |s| :: s[i] == t[i - a];
  }

  /** What `strip` returns: a slice of the input that neither starts nor ends
      with whitespace, with only whitespace cut away on either side. */
  lemma StripIsTrimmedSlice(s: string)
    ensures exists a, b | 0 <= a <= b <= |s| ::
      && Strip(s) == s[a..b]
      && (forall i | 0 <= i < a :: IsSpace(s[i]))
      && (forall i | b <= i < |s| :: IsSpace(s[i]))
      && (a < b ==> !IsSpace(s[a]) && !IsSpace(s[b - 1]))
  {
    var a, b := StripBounds(s);
  }

  /** `strip` leaves nothing exactly when the string is all whitespace. */
  lemma StripEmptyIffBlank(s: string)
    ensures Strip(s) == [] <==> forall i | 0 <= i < |s| :: IsSpace(s[i])
  {
    var a, b := StripBounds(s);
  }

  /** A string that neither starts nor ends with whitespace is its own
      strip. */
  lemma StripUnchanged(s: string)
    requires s != [] && !IsSpace(s[0]) && !IsSpace(s[|s| - 1])
    ensures Strip(s) == s
  {
    var a, b := StripBounds(s);
  }

  // ---------------------------------------------------------------- lower

  function LowerChar(c: char): char {
    if 'A' <= c <= 'Z' then (c as int + 32) as char else c
  }

  /** `s.lower()`, restricted to ASCII letters. */
  function Lower(s: string): (r: string)
    ensures |r| == |s|
  {
    seq(|s|, i requires 0 <= i < |s| => LowerChar(s[i]))
  }

  /** Lower-casing a text without `i` or `I` leaves no `i`. */
  lemma LowerFree(s: string)
    requires forall k | 0 <= k < |s| :: s[k] != 'i' && s[k] != 'I'
    ensures forall k | 0 <= k < |s| :: Lower(s)[k] != 'i'
  {
  }

  // ------------------------------------------------------------ substring

  /** `w in s` for strings. */
  predicate Contains(s: string, w: string) {
    exists i | 0 <= i <= |s| - |w| :: OccursAt(s, w, i)
  }

  predicate OccursAt(s: string, w: string, i: int) {
    0 <= i <= |s| - |w| && s[i..i + |w|] == w
  }

  /** The character `c` does not occur in `s`. */
  predicate Free(s: string, c: char) { forall i | 0 <= i < |s| :: s[i] != c }

  /** A word whose first character is missing from the text does not occur
      in it. */
  lemma AbsentFirstChar(s: string, w: string)
    requires w != [] && Free(s, w[0])
    ensures !Contains(s, w)
  {
    forall i | 0 <= i <= |s| - |w| ensures !OccursAt(s, w, i) {
      assert s[i..i + |w|][0] == s[i] != w[0];
    }
  }

  /** Case folding neither makes nor unmakes whitespace. */
  lemma LowerKeepsSpace(c: char)
    ensures IsSpace(LowerChar(c)) <==> IsSpace(c)
  {
  }

  lemma OccursAtEnds(x: string, w: string, k: int)
    requires OccursAt(x, w, k) && |w| > 0
    ensures x[k] == w[0] && x[k + |w| - 1] == w[|w| - 1]
  {
    assert x[k..k + |w|][0] == x[k];
    assert x[k..k + |w|][|w| - 1] == x[k + |w| - 1];
  }

  lemma LowerSlice(s: string, a: nat, b: nat)
    requires a <= b <= |s|
    ensures Lower(s[a..b]) == Lower(s)[a..b]
  {
  }

  lemma OccursInSlice(x: string, w: string, k: int, a: nat, b: nat)
    requires OccursAt(x, w, k) && a <= k && k + |w| <= b <= |x|
    ensures OccursAt(x[a..b], w, k - a)
  {
    forall i | 0 <= i < |w| ensures x[a..b][k - a + i] == w[i] {
      assert x[k..k + |w|][i] == w[i];
    }
  }

  /** Whatever contains `u + w` contains `w`. */
  lemma ContainsTail(s: string, u: string, w: string)
    requires Contains(s, u + w)
    ensures Contains(s, w)
  {
    var k :| 0 <= k <= |s| - |u + w| && OccursAt(s, u + w, k);
    assert s[k + |u|..k + |u| + |w|] == s[k..k + |u + w|][|u|..];
    assert OccursAt(s, w, k + |u|);
  }

  /** Lower-casing both sides keeps an occurrence. */
  lemma ContainsLowered(s: string, w: string)
    requires Contains(s, w)
    ensures Contains(Lower(s), Lower(w))
  {
    var k :| 0 <= k <= |s| - |w| && OccursAt(s, w, k);
    forall j | 0 <= j < |w| ensures Lower(s)[k + j] == Lower(w)[j] {
      assert s[k..k + |w|][j] == w[j];
    }
    assert Lower(s)[k..k + |w|] == Lower(w);
    assert OccursAt(Lower(s), Lower(w), k);
  }

  /** An occurrence of a word that neither starts nor ends with whitespace
      survives `strip`: the case-folded stripped text still contains it. */
  lemma ContainsLowerStrip(s: string, w: string)
    requires Contains(Lower(s), w) && |w| > 0
    requires !IsSpace(w[0]) && !IsSpace(w[|w| - 1])
    ensures Contains(Lower(Strip(s)), w)
  {
    var k :| 0 <= k <= |Lower(s)| - |w| && OccursAt(Lower(s), w, k);
    var a, b := StripBounds(s);
    OccursAtEnds(Lower(s), w, k);
    LowerKeepsSpace(s[k]);
    LowerKeepsSpace(s[k + |w| - 1]);
    LowerSlice(s, a, b);
    OccursInSlice(Lower(s), w, k, a, b);
  }

  // -------------------------------------------------------------- decimal

  function DigitValue(c: char): nat requires IsDigit(c) { c as int - '0' as int }

  function Digit(d: nat): (c: char)
    requires d < 10
    ensures IsDigit(c) && DigitValue(c) == d
  {
    ('0' as int + d) as char
  }

  /** `int(s)` for a string of ASCII digits: leading zeros are accepted. */
  function DigitsValue(s: string): nat
    requires AllDigits(s)
  {
    if s == [] then 0 else DigitsValue(s[..|s| - 1]) * 10 + DigitValue(s[|s| - 1])
  }

  /** `str(n)` for a natural number. */
  function NatToString(n: nat): (r: string)
    ensures |r| > 0 && AllDigits(r)
  {
    if n < 10 then [Digit(n)] else NatToString(n / 10) + [Digit(n % 10)]
  }

  /** `str(i)` for any integer. */
  function IntToString(i: int): string {
    if i < 0 then "-" + NatToString(-i) else NatToString(i)
  }

  /** Reading back the decimal rendering of a number gives the number. */
  lemma {:induction false} NatToStringRoundTrip(n: nat)
    ensures DigitsValue(NatToString(n)) == n
  {
    if n >= 10 {
      var s := NatToString(n / 10);
      assert (s + [Digit(n % 10)])[..|s|] == s;
      NatToStringRoundTrip(n / 10);
    }
  }

  function Zeros(k: nat): (r: string)
    ensures |r| == k && AllDigits(r)
  {
    if k == 0 then [] else "0" + Zeros(k - 1)
  }

  /** `f"{n:03d}"` for a natural number: zero padded to at least 3 digits. */
  function ZeroPad3(n: nat): (r: string)
    ensures AllDigits(r)
  {
    var d := NatToString(n);
    (if |d| < 3 then Zeros(3 - |d|) else "") + d
  }

  lemma {:induction false} LeadingZeroValue(s: string)
    requires AllDigits(s)
    ensures DigitsValue("0" + s) == DigitsValue(s)
  {
    if s != [] {
      assert ("0" + s)[..|s|] == "0" + s[..|s| - 1];
      LeadingZeroValue(s[..|s| - 1]);
    }
  }

  lemma {:induction false} ZerosValue(k: nat, s: string)
    requires AllDigits(s)
    ensures DigitsValue(Zeros(k) + s) == DigitsValue(s)
  {
    if k > 0 {
      var t := Zeros(k - 1) + s;
      assert Zeros(k) + s == "0" + t;
      ZerosValue(k - 1, s);
      LeadingZeroValue(t);
      calc {
        DigitsValue(Zeros(k) + s);
        DigitsValue("0" + t);
        DigitsValue(t);
      }
    } else {
      assert Zeros(k) + s == s;
    }
  }

  /** The padded index reads back as the index, ... */
  lemma ZeroPad3RoundTrip(n: nat)
    ensures |ZeroPad3(n)| >= 3 && DigitsValue(ZeroPad3(n)) == n
  {
    var d := NatToString(n);
    var z := if |d| < 3 then Zeros(3 - |d|) else "";
    if |d| < 3 { ZerosValue(3 - |d|, d); } else { assert ZeroPad3(n) == d; }
    NatToStringRoundTrip(n);
  }

  /** ... so different indices are always printed differently. */
  lemma ZeroPad3Injective(m: nat, n: nat)
    requires m != n
    ensures ZeroPad3(m) != ZeroPad3(n)
  {
    ZeroPad3RoundTrip(m);
    ZeroPad3RoundTrip(n);
  }

  // ---------------------------------------------------------- join, split

  /** `sep.join(parts)`. */
  function Join(parts: seq<string>, sep: string): string {
    if |parts| == 0 then ""
    else if |parts| == 1 then parts[0]
    else Join(parts[..|parts| - 1], sep) + sep + parts[|parts| - 1]
  }

  /** Index of the first `c` at or after `k`, or `|s|` when there is none. */
  function FindFrom(s: string, c: char, k: nat): (e: nat)
    requires k <= |s|
    ensures k <= e <= |s|
    ensures forall i | k <= i < e :: s[i] != c
    ensures e < |s| ==> s[e] == c
    decreases |s| - k
  {
    if k == |s| || s[k] == c then k else FindFrom(s, c, k + 1)
  }

  /** `s.split(c)` for a one-character separator. */
  function Split(s: string, c: char): (r: seq<string>)
    ensures |r| > 0
    ensures forall j | 0 <= j < |r| :: forall i | 0 <= i < |r[j]| :: r[j][i] != c
    decreases |s|
  {
    var e := FindFrom(s, c, 0);
    if e == |s| then [s] else [s[..e]] + Split(s[e + 1..], c)
  }

  function JoinFront(parts: seq<string>, sep: string): string
    requires |parts| > 0
  {
    if |parts| == 1 then parts[0] else parts[0] + sep + JoinFront(parts[1..], sep)
  }

  /** Gluing the pieces of `split` back with the separator gives the input. */
  lemma {:induction false} SplitJoin(s: string, c: char)
    ensures JoinFront(Split(s, c), [c]) == s
    decreases |s|
  {
    var e := FindFrom(s, c, 0);
    if e < |s| {
      SplitJoin(s[e + 1..], c);
      assert s == s[..e] + [c] + s[e + 1..];
    }
  }

  // ---------------------------------------------------------------- order

  /** Python's `a < b` on strings: code-point lexicographic order, a proper
      prefix being smaller. */
  predicate Below(a: string, b: string) {
    if a == [] then b != []
    else if b == [] then false
    else if a[0] != b[0] then a[0] < b[0]
    else Below(a[1..], b[1..])
  }

  lemma {:induction false} BelowIrreflexive(a: string)
    ensures !Below(a, a)
  {
    if a != [] { BelowIrreflexive(a[1..]); }
  }

  lemma {:induction false} BelowTransitive(a: string, b: string, c: string)
    requires Below(a, b) && Below(b, c)
    ensures Below(a, c)
  {
    if a != [] && b != [] && c != [] && a[0] == b[0] && b[0] == c[0] {
      BelowTransitive(a[1..], b[1..], c[1..]);
    }
  }

  lemma {:induction false} BelowTotal(a: string, b: string)
    requires a != b
    ensures Below(a, b) || Below(b, a)
  {
    if a != [] && b != [] && a[0] == b[0] {
      assert a == [a[0]] + a[1..] && b == [b[0]] + b[1..];
      BelowTotal(a[1..], b[1..]);
    }
  }
}
