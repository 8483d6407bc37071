/** `generateLocalReport(transcript)` of src/script.js: the report built in the browser
    when the backend gives none. Its three regular expressions are modelled as scanners
    over the characters of the transcript, and each scanner is proved to find exactly
    what its regular expression matches. */
module LocalReport {
  import opened Optional
  import opened Text

  /** The placeholder the script writes for every missing value. */
  const Dash: string := "\U{2014}"

  datatype Lesion = Lesion(location: string, sizeMm: string, characteristics: string)

  /** `{}` when the transcript holds no measurement, `{ lesions: [...] }` otherwise. */
  datatype Measurements = NoMeasurements | Lesions(lesions: seq<Lesion>)

  datatype Patient = Patient(name: string, age: string, sex: string)

  datatype Exam = Exam(kind: string, datetime: string)

  datatype Report = Report(patient: Patient, exam: Exam, findings: string,
                           measurements: Measurements, impression: string, plan: string)

  /** A match: the captured text and the position just after the whole match. */
  datatype Capture = Capture(text: string, end: nat)

  // ---------------------------------------------------------------------------
  // Character classes and runs

  /** `\d`. */
  predicate IsDigit(c: char) {
    '0' <= c <= '9'
  }

  /** `[.,]`. */
  predicate IsDecimalSep(c: char) {
    c == '.' || c == ','
  }

  /** `[a-z]` and `[A-Z]` under the `i` flag: the ASCII letters. No other character
      has a case mapping onto them, because case-insensitive matching without the `u`
      flag never maps a non-ASCII character onto an ASCII one. */
  predicate IsAsciiLetter(c: char) {
    ('a' <= c <= 'z') || ('A' <= c <= 'Z')
  }

  /** `[A-ZÀ-Ý]` under the `i` flag: the ASCII letters, U+00C0 to U+00DD, and their
      lower-case partners U+00E0 to U+00FD (U+00F7, the division sign, is not the
      partner of U+00D7, the multiplication sign). */
  predicate IsNameInitial(c: char) {
    IsAsciiLetter(c) || ('\U{C0}' <= c <= '\U{DD}') || ('\U{E0}' <= c <= '\U{FD}' && c != '\U{F7}')
  }

  /** `[:\s]`. */
  predicate IsNameSep(c: char) {
    c == ':' || IsSpace(c)
  }

  /** The ASCII lower case of `c`. */
  function Lower(c: char): char {
    if 'A' <= c <= 'Z' then (c as int + 32) as char else c
  }

  /** The lower-case ASCII word `w` occurs at `i` in `s`, letters compared as the `i`
      flag compares them. */
  predicate HasAt(s: string, i: nat, w: string) {
    i + |w| <= |s| && forall k :: 0 <= k < |w| ==> Lower(s[i + k]) == w[k]
  }

  /** Every character of `s[i..j]` is in the class `p`. */
  ghost predicate All(s: string, i: nat, j: nat, p: char -> bool)
    requires i <= j <= |s|
  {
    forall k :: i <= k < j ==> p(s[k])
  }

  /** Length of the run of characters from `i` on that are in the class `p`: what a
      greedy `p+` or `p*` takes at `i`. */
  function Run(s: string, i: nat, p: char -> bool): (n: nat)
    requires i <= |s|
    ensures i + n <= |s|
    decreases |s| - i
  {
    if i == |s| || !p(s[i]) then 0 else 1 + Run(s, i + 1, p)
  }

  /** A non-empty string of `\d`. */
  predicate Digits(t: string) {
    |t| >= 1 && forall k :: 0 <= k < |t| ==> IsDigit(t[k])
  }

  /** The first position from `p` to `n` at which `m` matches: how `match` without the
      `g` flag picks its match. */
  function First<T>(m: nat -> Option<T>, p: nat, n: nat): (r: Option<nat>)
    ensures r.Some? ==> p <= r.value <= n && m(r.value).Some?
    ensures r.Some? ==> forall q :: p <= q < r.value ==> m(q).None?
    ensures r.None? ==> forall q :: p <= q <= n ==> m(q).None?
    decreases n + 1 - p
  {
    if p > n then None
    else if m(p).Some? then Some(p)
    else First(m, p + 1, n)
  }

  // ---------------------------------------------------------------------------
  // Age: /(\d{1,3})\s*(anos|ano)/i

  /** The age pattern tried at `p`: the digits from `p` must end within three
      characters (a fourth digit can be neither `\s` nor `a`), then `\s*` and `ano`, with
      which `anos` begins too. */
  function AgeAt(s: string, p: nat): Option<string> {
    if p > |s| then None
    else
      var d := Run(s, p, IsDigit);
      var j := p + d + Run(s, p + d, IsSpace);
      if 1 <= d <= 3 && HasAt(s, j, "ano") then Some(s[p..p + d]) else None
  }

  /** The ways the age pattern can match at `p`: `k` digits captured, `\s` up to `j`,
      then `ano` in any case. */
  ghost predicate AgeMatch(s: string, p: nat, k: nat, j: nat) {
    && 1 <= k <= 3 && p + k <= j && HasAt(s, j, "ano")
    && All(s, p, p + k, IsDigit) && All(s, p + k, j, IsSpace)
  }

  /** The `age` field: the digits of the first match, or the placeholder. */
  function Age(s: string): (r: string)
    ensures r == Dash || (1 <= |r| <= 3 && Digits(r))
  {
    var m := q => AgeAt(s, q);
    match First(m, 0, |s|)
    case None => Dash
    case Some(p) =>
      RunSpec(s, p, IsDigit);
      assert m(p) == AgeAt(s, p);
      AgeAt(s, p).value
  }

  // ---------------------------------------------------------------------------
  // Measurements: /(\d+(?:[.,]\d+)?)\s*mm/gi

  /** Where the greedy `\d+(?:[.,]\d+)?` stops when it starts at `p`. */
  function NumberEnd(s: string, p: nat): (e: nat)
    requires p <= |s|
    ensures p + Run(s, p, IsDigit) <= e <= |s|
  {
    var d := p + Run(s, p, IsDigit);
    if d < |s| && IsDecimalSep(s[d]) && Run(s, d + 1, IsDigit) >= 1
    then d + 1 + Run(s, d + 1, IsDigit)
    else d
  }

  /** The measurement pattern tried at `p`: the greedy number, `\s*`, then `mm` in any
      case. */
  function MeasureAt(s: string, p: nat): (r: Option<Capture>)
    ensures r.Some? ==> p < r.value.end <= |s|
  {
    if p > |s| || Run(s, p, IsDigit) == 0 then None
    else
      var e := NumberEnd(s, p);
      var j := e + Run(s, e, IsSpace);
      if HasAt(s, j, "mm") then Some(Capture(s[p..e], j + 2)) else None
  }

  /** `\d+(?:[.,]\d+)?` matches `s[p..e]`. */
  ghost predicate DecimalAt(s: string, p: nat, e: nat)
    requires p <= e <= |s|
  {
    || (p < e && All(s, p, e, IsDigit))
    || exists m :: p < m && m + 1 < e && All(s, p, m, IsDigit) && IsDecimalSep(s[m]) && All(s, m + 1, e, IsDigit)
  }

  /** `\d+(?:[.,]\d+)?` matches the whole of `t`. */
  ghost predicate IsDecimal(t: string) {
    DecimalAt(t, 0, |t|)
  }

  /** The ways the measurement pattern can match at `p`: a decimal from `p` to `e`,
      `\s` up to `j`, then `mm` in any case. */
  ghost predicate MeasureMatch(s: string, p: nat, e: nat, j: nat) {
    && p <= e <= j && HasAt(s, j, "mm")
    && DecimalAt(s, p, e) && All(s, e, j, IsSpace)
  }

  /** `Array.from(s.matchAll(...)).map(m => m[1])` from `p` on: each position is tried
      in turn, and after a match the search goes on from its end. */
  function Measures(s: string, p: nat): (r: seq<string>)
    ensures forall i :: 0 <= i < |r| ==> IsDecimal(r[i])
    decreases |s| - p
  {
    if p >= |s| then []
    else
      match MeasureAt(s, p)
      case Some(c) =>
        NumberEndDecimal(s, p);
        DecimalSlice(s, p, NumberEnd(s, p));
        [c.text] + Measures(s, c.end)
      case None => Measures(s, p + 1)
  }

  // ---------------------------------------------------------------------------
  // Name: /nome[:\s]+([A-ZÀ-Ý][a-z]+(?:\s+[A-Z][a-z]+)*)/i

  /** Where the greedy `(?:\s+[A-Z][a-z]+)*` stops when it starts at `i`. */
  function NameTail(s: string, i: nat): (e: nat)
    requires i <= |s|
    ensures i <= e <= |s|
    decreases |s| - i
  {
    var sp := Run(s, i, IsSpace);
    var l := Run(s, i + sp, IsAsciiLetter);
    if sp >= 1 && l >= 2 then NameTail(s, i + sp + l) else i
  }

  /** The name pattern tried at `p`: `nome`, the greedy `[:\s]+` (none of whose
      characters can start a name, so it never gives any back), a name initial, the
      greedy `[a-z]+`, then the greedy tail. */
  function NameAt(s: string, p: nat): Option<Capture> {
    if !HasAt(s, p, "nome") then None
    else
      var q := p + 4 + Run(s, p + 4, IsNameSep);
      if q == p + 4 || q == |s| || !IsNameInitial(s[q]) || Run(s, q + 1, IsAsciiLetter) == 0 then None
      else
        var e := NameTail(s, q + 1 + Run(s, q + 1, IsAsciiLetter));
        Some(Capture(s[q..e], e))
  }

  /** The name pattern can match at `p`: `nome` in any case, a non-empty run of `:`
      and `\s` ending before `q`, a name initial at `q` and an ASCII letter after it.
      The rest of the pattern, `(?:\s+[A-Z][a-z]+)*`, can always match nothing. */
  ghost predicate NameMatchAt(s: string, p: nat) {
    HasAt(s, p, "nome") && exists q: nat :: NameStartAt(s, p, q)
  }

  /** The capture of a name match at `p` can start at `q`. */
  ghost predicate NameStartAt(s: string, p: nat, q: nat) {
    && p + 4 < q && q + 1 < |s| && All(s, p + 4, q, IsNameSep)
    && IsNameInitial(s[q]) && IsAsciiLetter(s[q + 1])
  }

  /** `s[q..e]` has the shape of what the name pattern captures: a name initial, then
      ASCII letters and `\s`, ending in a letter, every word after the first starting
      with two ASCII letters. */
  ghost predicate ShapedBetween(s: string, q: nat, e: nat) {
    && q + 2 <= e <= |s| && IsNameInitial(s[q]) && IsAsciiLetter(s[q + 1]) && IsAsciiLetter(s[e - 1])
    && (forall k :: q < k < e ==> IsAsciiLetter(s[k]) || IsSpace(s[k]))
    && (forall k :: q < k < e - 1 ==> TwoLetterStart(s, k, e))
  }

  /** A word that starts after position `k` and before `e` has at least two letters
      before `e`. */
  ghost predicate TwoLetterStart(s: string, k: nat, e: nat)
    requires k + 1 < e <= |s|
  {
    !IsAsciiLetter(s[k]) && IsAsciiLetter(s[k + 1]) ==> k + 2 < e && IsAsciiLetter(s[k + 2])
  }

  /** A captured name. */
  ghost predicate NameShaped(n: string) {
    ShapedBetween(n, 0, |n|)
  }

  /** Nothing at `e` could extend a name: no ASCII letter, and no `\s` run followed by
      two ASCII letters. */
  ghost predicate NameStops(s: string, e: nat)
    requires e <= |s|
  {
    && (e == |s| || !IsAsciiLetter(s[e]))
    && forall j :: e < j <= |s| - 2 ==> !SpacesThenTwoLetters(s, e, j)
  }

  /** `s[e..j]` is `\s` and two ASCII letters follow. */
  ghost predicate SpacesThenTwoLetters(s: string, e: nat, j: nat)
    requires e <= j <= |s| - 2
  {
    All(s, e, j, IsSpace) && IsAsciiLetter(s[j]) && IsAsciiLetter(s[j + 1])
  }

  /** The `name` field: the capture of the first match, or the placeholder. */
  function Name(s: string): (r: string)
    ensures r == Dash || NameShaped(r)
  {
    var m := q => NameAt(s, q);
    match First(m, 0, |s|)
    case None => Dash
    case Some(p) =>
      assert m(p) == NameAt(s, p);
      NameAtShaped(s, p);
      NameAt(s, p).value.text
  }

  // ---------------------------------------------------------------------------
  // Numbers written into text

  function DigitChar(d: nat): (c: char)
    requires d < 10
    ensures IsDigit(c)
  {
    ('0' as int + d) as char
  }

  function DigitValue(c: char): nat {
    if IsDigit(c) then c as int - '0' as int else 0
  }

  /** The decimal text of `n`, as `+` writes a number into a string. */
  function NatToString(n: nat): (r: string)
    ensures Digits(r)
    ensures r[0] == '0' ==> n == 0
  {
    if n < 10 then [DigitChar(n)] else NatToString(n / 10) + [DigitChar(n % 10)]
  }

  /** The number a string of digits denotes. */
  function ParseNat(t: string): nat {
    if t == [] then 0 else ParseNat(t[..|t| - 1]) * 10 + DigitValue(t[|t| - 1])
  }

  // ---------------------------------------------------------------------------
  // Lemmas on runs

  lemma {:induction false} RunSpec(s: string, i: nat, p: char -> bool)
    requires i <= |s|
    ensures All(s, i, i + Run(s, i, p), p)
    ensures i + Run(s, i, p) == |s| || !p(s[i + Run(s, i, p)])
    decreases |s| - i
  {
    if i < |s| && p(s[i]) {
      RunSpec(s, i + 1, p);
    }
  }

  /** A run of exactly `k` characters of the class, ended by the end of `s` or by a
      character outside it, is what `Run` measures. */
  lemma {:induction false} RunExact(s: string, i: nat, k: nat, p: char -> bool)
    requires i + k <= |s| && All(s, i, i + k, p)
    requires i + k == |s| || !p(s[i + k])
    ensures Run(s, i, p) == k
    decreases k
  {
    if k > 0 {
      RunExact(s, i + 1, k - 1, p);
    }
  }

  /** A run of at least `k` characters of the class. */
  lemma {:induction false} RunAtLeast(s: string, i: nat, k: nat, p: char -> bool)
    requires i + k <= |s| && All(s, i, i + k, p)
    ensures Run(s, i, p) >= k
    decreases k
  {
    if k > 0 {
      RunAtLeast(s, i + 1, k - 1, p);
    }
  }

  // ---------------------------------------------------------------------------
  // Lemmas: the age scanner

  /** The age scanner succeeds at `p` exactly when the age pattern can match there,
      and every way of matching captures the same digits: the pattern has no choice
      to make. */
  lemma AgeAtIsMatch(s: string, p: nat, x: string)
    ensures AgeAt(s, p) == Some(x) <==>
              exists k: nat, j: nat :: AgeMatch(s, p, k, j) && x == s[p..p + k]
  {
    if AgeAt(s, p) == Some(x) {
      var d := Run(s, p, IsDigit);
      var j := p + d + Run(s, p + d, IsSpace);
      RunSpec(s, p, IsDigit);
      RunSpec(s, p + d, IsSpace);
      assert AgeMatch(s, p, d, j);
    }
    if exists k: nat, j: nat :: AgeMatch(s, p, k, j) && x == s[p..p + k] {
      var k: nat, j: nat :| AgeMatch(s, p, k, j) && x == s[p..p + k];
      AgeMatchGreedy(s, p, k, j);
    }
  }

  lemma AgeMatchGreedy(s: string, p: nat, k: nat, j: nat)
    requires AgeMatch(s, p, k, j)
    ensures AgeAt(s, p) == Some(s[p..p + k])
  {
    assert Lower(s[j + 0]) == "ano"[0];
    assert !IsDigit(s[p + k]) by {
      if p + k < j {
        assert IsSpace(s[p + k]);
      }
    }
    RunExact(s, p, k, IsDigit);
    RunExact(s, p + k, j - (p + k), IsSpace);
  }

  /** The age is the placeholder exactly when the pattern matches nowhere, and
      otherwise the digits of the leftmost match. */
  lemma AgeIsFirstMatch(s: string)
    ensures Age(s) == Dash <==> forall q :: 0 <= q <= |s| ==> AgeAt(s, q).None?
    ensures Age(s) != Dash ==>
              exists p :: 0 <= p <= |s| && AgeAt(s, p) == Some(Age(s))
                          && forall q :: 0 <= q < p ==> AgeAt(s, q).None?
  {
    var m := q => AgeAt(s, q);
    assert forall q :: m(q) == AgeAt(s, q);
  }

  // ---------------------------------------------------------------------------
  // Lemmas: the measurement scanner

  /** The greedy number is a decimal. */
  lemma NumberEndDecimal(s: string, p: nat)
    requires p <= |s| && Run(s, p, IsDigit) >= 1
    ensures DecimalAt(s, p, NumberEnd(s, p))
  {
    var d := p + Run(s, p, IsDigit);
    RunSpec(s, p, IsDigit);
    if NumberEnd(s, p) != d {
      RunSpec(s, d + 1, IsDigit);
    }
  }

  /** A decimal followed by neither a digit nor a separator is where the greedy
      number stops. */
  lemma NumberEndOfDecimal(s: string, p: nat, e: nat)
    requires p <= e < |s| && DecimalAt(s, p, e)
    requires !IsDigit(s[e]) && !IsDecimalSep(s[e])
    ensures Run(s, p, IsDigit) >= 1 && NumberEnd(s, p) == e
  {
    if p < e && All(s, p, e, IsDigit) {
      RunExact(s, p, e - p, IsDigit);
    } else {
      var m :| p < m && m + 1 < e && All(s, p, m, IsDigit) && IsDecimalSep(s[m]) && All(s, m + 1, e, IsDigit);
      RunExact(s, p, m - p, IsDigit);
      RunExact(s, m + 1, e - (m + 1), IsDigit);
    }
  }

  lemma MeasureMatchGreedy(s: string, p: nat, e: nat, j: nat)
    requires MeasureMatch(s, p, e, j)
    ensures MeasureAt(s, p) == Some(Capture(s[p..e], j + 2))
  {
    assert Lower(s[j + 0]) == "mm"[0];
    assert !IsDigit(s[e]) && !IsDecimalSep(s[e]) by {
      if e < j {
        assert IsSpace(s[e]);
      }
    }
    NumberEndOfDecimal(s, p, e);
    RunExact(s, e, j - e, IsSpace);
  }

  /** The measurement scanner succeeds at `p` exactly when the measurement pattern
      can match there, and every way of matching captures the same number and ends at
      the same place. */
  lemma MeasureAtIsMatch(s: string, p: nat, x: string, end: nat)
    ensures MeasureAt(s, p) == Some(Capture(x, end)) <==>
              exists e: nat, j: nat :: MeasureMatch(s, p, e, j) && x == s[p..e] && end == j + 2
  {
    if MeasureAt(s, p) == Some(Capture(x, end)) {
      var e := NumberEnd(s, p);
      var j := e + Run(s, e, IsSpace);
      NumberEndDecimal(s, p);
      RunSpec(s, e, IsSpace);
      assert MeasureMatch(s, p, e, j);
    }
    if exists e: nat, j: nat :: MeasureMatch(s, p, e, j) && x == s[p..e] && end == j + 2 {
      var e: nat, j: nat :| MeasureMatch(s, p, e, j) && x == s[p..e] && end == j + 2;
      MeasureMatchGreedy(s, p, e, j);
    }
  }

  /** A decimal between two positions is a decimal once cut out. */
  lemma DecimalSlice(s: string, p: nat, e: nat)
    requires p <= e <= |s| && DecimalAt(s, p, e)
    ensures IsDecimal(s[p..e])
  {
    var t := s[p..e];
    assert forall k :: 0 <= k < |t| ==> t[k] == s[p + k];
    if !(p < e && All(s, p, e, IsDigit)) {
      var m :| p < m && m + 1 < e && All(s, p, m, IsDigit) && IsDecimalSep(s[m]) && All(s, m + 1, e, IsDigit);
      assert All(t, 0, m - p, IsDigit) && IsDecimalSep(t[m - p]) && All(t, m - p + 1, |t|, IsDigit);
    }
  }

  /** `measurements` is `{}` exactly when the pattern matches nowhere from `p` on. */
  lemma {:induction false} MeasuresEmpty(s: string, p: nat)
    ensures Measures(s, p) == [] <==> forall q :: p <= q < |s| ==> MeasureAt(s, q).None?
    decreases |s| - p
  {
    if p < |s| {
      if MeasureAt(s, p).None? {
        MeasuresEmpty(s, p + 1);
        assert Measures(s, p) == Measures(s, p + 1);
      } else {
        assert Measures(s, p) != [];
      }
    }
  }

  // ---------------------------------------------------------------------------
  // Lemmas: the name scanner

  /** A name that gains one more `\s+` run and word of two or more letters keeps its
      shape. */
  lemma ShapedExtend(s: string, q: nat, i: nat, sp: nat, l: nat)
    requires i + sp + l <= |s| && sp >= 1 && l >= 2
    requires ShapedBetween(s, q, i)
    requires All(s, i, i + sp, IsSpace) && All(s, i + sp, i + sp + l, IsAsciiLetter)
    ensures ShapedBetween(s, q, i + sp + l)
  {
    var e := i + sp + l;
    forall k | q < k < e - 1
      ensures TwoLetterStart(s, k, e)
    {
      if k < i - 1 {
        assert TwoLetterStart(s, k, i);
      } else if !IsAsciiLetter(s[k]) && IsAsciiLetter(s[k + 1]) {
        assert k + 1 == i + sp;
      }
    }
  }

  /** The greedy tail keeps the shape of a name and stops where nothing can extend
      it. */
  lemma {:induction false} NameTailShaped(s: string, q: nat, i: nat)
    requires ShapedBetween(s, q, i)
    requires i == |s| || !IsAsciiLetter(s[i])
    ensures ShapedBetween(s, q, NameTail(s, i)) && NameStops(s, NameTail(s, i))
    decreases |s| - i
  {
    var sp := Run(s, i, IsSpace);
    var l := Run(s, i + sp, IsAsciiLetter);
    RunSpec(s, i, IsSpace);
    RunSpec(s, i + sp, IsAsciiLetter);
    if sp >= 1 && l >= 2 {
      assert NameTail(s, i) == NameTail(s, i + sp + l);
      ShapedExtend(s, q, i, sp, l);
      NameTailShaped(s, q, i + sp + l);
    } else {
      assert NameTail(s, i) == i;
      NoLongerName(s, i, sp, l);
    }
  }

  /** Where the tail takes no further word, nothing can extend the name. */
  lemma NoLongerName(s: string, i: nat, sp: nat, l: nat)
    requires i + sp + l <= |s| && (i == |s| || !IsAsciiLetter(s[i]))
    requires sp == Run(s, i, IsSpace) && l == Run(s, i + sp, IsAsciiLetter)
    requires All(s, i, i + sp, IsSpace) && (i + sp == |s| || !IsSpace(s[i + sp]))
    requires !(sp >= 1 && l >= 2)
    ensures NameStops(s, i)
  {
    forall j | i < j <= |s| - 2
      ensures !SpacesThenTwoLetters(s, i, j)
    {
      if j == i + sp && SpacesThenTwoLetters(s, i, j) {
        RunAtLeast(s, j, 2, IsAsciiLetter);
      }
    }
  }

  /** A name between two positions is a name once cut out. */
  lemma ShapedSlice(s: string, q: nat, e: nat)
    requires ShapedBetween(s, q, e)
    ensures NameShaped(s[q..e])
  {
    var n := s[q..e];
    assert forall k :: 0 <= k < |n| ==> n[k] == s[q + k];
    forall k | 0 < k < |n| - 1 ensures TwoLetterStart(n, k, |n|) {
      assert TwoLetterStart(s, q + k, e);
    }
  }

  /** What the name scanner captures has the shape of a name, follows `nome` and a
      non-empty run of `:` and `\s`, and ends where nothing can extend it. */
  lemma NameAtShaped(s: string, p: nat)
    requires NameAt(s, p).Some?
    ensures NameShaped(NameAt(s, p).value.text)
    ensures HasAt(s, p, "nome") && NameAt(s, p).value.end <= |s| && NameStops(s, NameAt(s, p).value.end)
    ensures var q := p + 4 + Run(s, p + 4, IsNameSep);
            q > p + 4 && NameAt(s, p).value.text == s[q..NameAt(s, p).value.end]
  {
    var q := p + 4 + Run(s, p + 4, IsNameSep);
    var l := Run(s, q + 1, IsAsciiLetter);
    var e := NameTail(s, q + 1 + l);
    assert NameAt(s, p) == Some(Capture(s[q..e], e));
    RunSpec(s, q + 1, IsAsciiLetter);
    assert ShapedBetween(s, q, q + 1 + l);
    NameTailShaped(s, q, q + 1 + l);
    ShapedSlice(s, q, e);
  }

  /** The name scanner succeeds at `p` exactly when the name pattern can match there. */
  lemma NameAtIsMatch(s: string, p: nat)
    ensures NameAt(s, p).Some? <==> NameMatchAt(s, p)
  {
    if NameAt(s, p).Some? {
      var q := p + 4 + Run(s, p + 4, IsNameSep);
      RunSpec(s, p + 4, IsNameSep);
      RunSpec(s, q + 1, IsAsciiLetter);
      assert NameStartAt(s, p, q);
    } else if NameMatchAt(s, p) {
      var q: nat :| NameStartAt(s, p, q);
      assert !IsNameSep(s[q]);
      RunExact(s, p + 4, q - (p + 4), IsNameSep);
      RunAtLeast(s, q + 1, 1, IsAsciiLetter);
    }
  }

  /** The name is the placeholder exactly when the pattern matches nowhere, and
      otherwise the capture of the leftmost match, which has the shape of a name. */
  lemma NameIsFirstMatch(s: string)
    ensures Name(s) == Dash <==> forall q :: 0 <= q <= |s| ==> !NameMatchAt(s, q)
    ensures Name(s) != Dash ==>
              NameShaped(Name(s))
              && exists p :: 0 <= p <= |s| && NameMatchAt(s, p) && NameAt(s, p).Some? && NameAt(s, p).value.text == Name(s)
                             && forall q :: 0 <= q < p ==> !NameMatchAt(s, q)
  {
    var m := q => NameAt(s, q);
    assert forall q :: m(q) == NameAt(s, q);
    forall q: nat ensures NameAt(s, q).Some? <==> NameMatchAt(s, q) {
      NameAtIsMatch(s, q);
    }
    match First(m, 0, |s|)
    case None =>
    case Some(p) =>
      NameAtShaped(s, p);
      assert |Name(s)| >= 2;
  }

  // ---------------------------------------------------------------------------
  // Lemmas: numbers

  /** `+` on a number writes its decimal digits, and reading them back gives the
      number. */
  lemma {:induction false} ParseNatToString(n: nat)
    ensures ParseNat(NatToString(n)) == n
  {
    var r := NatToString(n);
    if n < 10 {
      assert r[..0] == [];
    } else {
      ParseNatToString(n / 10);
      assert r[..|r| - 1] == NatToString(n / 10);
    }
  }

  // ---------------------------------------------------------------------------
  // Examples

  lemma NameHeadExample()
    ensures HasAt("Nome: Maria Silva tem", 0, "nome") && IsNameInitial("Nome: Maria Silva tem"[6])
    ensures Run("Nome: Maria Silva tem", 4, IsNameSep) == 2
    ensures Run("Nome: Maria Silva tem", 7, IsAsciiLetter) == 4
  {
    var s := "Nome: Maria Silva tem";
    assert HasAt(s, 0, "nome");
    assert s[6] == 'M';
    RunExact(s, 4, 2, IsNameSep);
    RunExact(s, 7, 4, IsAsciiLetter);
  }

  lemma NameTailExample()
    ensures NameTail("Nome: Maria Silva tem", 11) == 21
  {
    var s := "Nome: Maria Silva tem";
    RunExact(s, 11, 1, IsSpace);
    RunExact(s, 12, 5, IsAsciiLetter);
    RunExact(s, 17, 1, IsSpace);
    RunExact(s, 18, 3, IsAsciiLetter);
    RunExact(s, 21, 0, IsSpace);
    assert NameTail(s, 21) == 21;
    assert NameTail(s, 17) == 21;
  }

  lemma NameSliceExample()
    ensures "Nome: Maria Silva tem"[6..21] == "Maria Silva tem"
  {
    var s := "Nome: Maria Silva tem";
    assert |s[6..21]| == 15;
    forall k | 0 <= k < 15 ensures s[6..21][k] == "Maria Silva tem"[k] {
      assert s[6..21][k] == s[6 + k];
    }
  }

  /** Under the `i` flag `[A-Z]` accepts a lower-case letter too, so a lower-case word
      after the name is taken as part of it. */
  lemma NameExample()
    ensures Name("Nome: Maria Silva tem") == "Maria Silva tem"
  {
    NameHeadExample();
    NameTailExample();
    NameSliceExample();
    assert NameAt("Nome: Maria Silva tem", 0) == Some(Capture("Maria Silva tem", 21));
  }

  /** Only ASCII letters continue a name: the name stops before an accented letter. */
  lemma AccentExample()
    ensures Name("nome: Jo\U{E3}o") == "Jo"
  {
    var s := "nome: Jo\U{E3}o";
    assert HasAt(s, 0, "nome");
    RunExact(s, 4, 2, IsNameSep);
    RunExact(s, 7, 1, IsAsciiLetter);
    RunExact(s, 8, 0, IsSpace);
    assert NameTail(s, 8) == 8;
    assert s[6..8] == "Jo";
    assert NameAt(s, 0) == Some(Capture("Jo", 8));
  }

  lemma MidNumberSteps()
    ensures MeasureAt("1.2.3 mm", 0).None? && MeasureAt("1.2.3 mm", 1).None?
    ensures MeasureAt("1.2.3 mm", 2) == Some(Capture("2.3", 8))
  {
    var s := "1.2.3 mm";
    RunExact(s, 0, 1, IsDigit);
    RunExact(s, 1, 0, IsDigit);
    RunExact(s, 2, 1, IsDigit);
    RunExact(s, 4, 1, IsDigit);
    RunExact(s, 3, 0, IsSpace);
    RunExact(s, 5, 1, IsSpace);
    assert NumberEnd(s, 0) == 3 && NumberEnd(s, 2) == 5;
    assert Lower(s[3 + 0]) != "mm"[0];
    assert HasAt(s, 6, "mm");
    assert s[2..5] == "2.3";
  }

  /** Every position is tried, including one inside a number that failed to match:
      after `1.2` is followed by `.`, the scan finds `2.3 mm`. */
  lemma MidNumberExample()
    ensures Measures("1.2.3 mm", 0) == ["2.3"]
  {
    var s := "1.2.3 mm";
    MidNumberSteps();
    assert Measures(s, 8) == [];
    assert Measures(s, 2) == ["2.3"];
    assert Measures(s, 1) == Measures(s, 2);
  }

  // ---------------------------------------------------------------------------
  // Report

  /** `mm.map((v, i) => ({ location: 'lesão ' + (i + 1), size_mm: v, characteristics: '—' }))`. */
  function LesionsOf(sizes: seq<string>): (r: seq<Lesion>)
    ensures |r| == |sizes|
    ensures forall i :: 0 <= i < |r| ==>
              r[i].location == "les\U{E3}o " + NatToString(i + 1) && r[i].sizeMm == sizes[i]
                && r[i].characteristics == Dash
  {
    seq(|sizes|, i requires 0 <= i < |sizes| => Lesion("les\U{E3}o " + NatToString(i + 1), sizes[i], Dash))
  }

  /** `generateLocalReport(transcript)`, with the clock reading `new Date().toLocaleString()`
      passed in as `datetime`. */
  function GenerateLocalReport(transcript: string, datetime: string): (r: Report)
    ensures r.patient.sex == Dash && r.impression == Dash && r.plan == Dash
    ensures r.exam == Exam("Ultrassom", datetime)
    ensures r.findings == (if transcript == [] then Dash else transcript)
    ensures r.patient.name == Dash || NameShaped(r.patient.name)
    ensures r.patient.name == Dash <==> forall q :: 0 <= q <= |transcript| ==> !NameMatchAt(transcript, q)
    ensures r.patient.age == Dash <==> forall q :: 0 <= q <= |transcript| ==> AgeAt(transcript, q).None?
    ensures r.patient.age == Dash || (1 <= |r.patient.age| <= 3 && Digits(r.patient.age))
    ensures r.measurements.NoMeasurements? <==>
              forall q :: 0 <= q < |transcript| ==> MeasureAt(transcript, q).None?
    ensures r.measurements.Lesions? ==>
              |r.measurements.lesions| == |Measures(transcript, 0)|
              && forall i :: 0 <= i < |r.measurements.lesions| ==>
                   var size := Measures(transcript, 0)[i];
                   r.measurements.lesions[i] == Lesion("les\U{E3}o " + NatToString(i + 1), size, Dash)
                   && IsDecimal(size)
  {
    var mm := Measures(transcript, 0);
    NameIsFirstMatch(transcript);
    AgeIsFirstMatch(transcript);
    MeasuresEmpty(transcript, 0);
    Report(Patient(Name(transcript), Age(transcript), Dash),
           Exam("Ultrassom", datetime),
           if transcript == [] then Dash else transcript,
           if |mm| > 0 then Lesions(LesionsOf(mm)) else NoMeasurements,
           Dash, Dash)
  }
}
