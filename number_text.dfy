/** The numeric text extractor `parse_number` of BMI.py: trim the text, read ',' as a
    decimal point, and return the value of the first match of `[-+]?\d*\.?\d+`. */
module NumberText {
  import opened Results

  predicate IsDigit(c: char) {
    '0' <= c <= '9'
  }

  predicate IsSign(c: char) {
    c == '+' || c == '-'
  }

  /** The characters Python's `str.isspace` accepts, which `str.strip()` removes. */
  predicate IsSpace(c: char) {
    '\t' <= c <= '\r' || '\U{1C}' <= c <= ' ' || c == '\U{85}' || c == '\U{A0}'
    || c == '\U{1680}' || '\U{2000}' <= c <= '\U{200A}' || c == '\U{2028}' || c == '\U{2029}'
    || c == '\U{202F}' || c == '\U{205F}' || c == '\U{3000}'
  }

  // ---------- Normalisation: s.strip().replace(',', '.') ----------

  /** `s.lstrip()`: drops the leading white space and nothing else. */
  function StripStart(s: string): (r: string)
    ensures |r| <= |s| && r == s[|s| - |r|..]
    ensures forall k | 0 <= k < |s| - |r| :: IsSpace(s[k])
    ensures r == [] || !IsSpace(r[0])
  {
    if s != [] && IsSpace(s[0]) then StripStart(s[1..]) else s
  }

  /** `s.rstrip()`: drops the trailing white space and nothing else. */
  function StripEnd(s: string): (r: string)
    ensures |r| <= |s| && r == s[..|r|]
    ensures forall k | |r| <= k < |s| :: IsSpace(s[k])
    ensures r == [] || !IsSpace(r[|r| - 1])
  {
    if s != [] && IsSpace(s[|s| - 1]) then StripEnd(s[..|s| - 1]) else s
  }

  /** `s.strip()`: neither starts nor ends with white space (`StripIs` says which slice of `s`
      it is). */
  function Strip(s: string): (r: string)
    ensures |r| <= |s|
    ensures r == [] || (!IsSpace(r[0]) && !IsSpace(r[|r| - 1]))
  {
    StripEnd(StripStart(s))
  }

  /** `s.replace(',', '.')`: every comma becomes a point, every other character stays. */
  function CommaToPoint(s: string): (r: string)
    ensures |r| == |s|
    ensures forall k | 0 <= k < |s| :: r[k] == if s[k] == ',' then '.' else s[k]
  {
    seq(|s|, k requires 0 <= k < |s| => if s[k] == ',' then '.' else s[k])
  }

  /** The text `parse_number` searches in: `s` without the white space at its ends, and with no
      comma left in it. */
  function Normalized(s: string): (r: string)
    ensures |r| == |Strip(s)| <= |s|
    ensures ',' !in r
  {
    CommaToPointIdempotent(Strip(s));
    CommaToPoint(Strip(s))
  }

  // ---------- The language of `[-+]?\d*\.?\d+` ----------

  /** The text holds a decimal digit somewhere. */
  predicate HasDigit(s: string) {
    exists k | 0 <= k < |s| :: IsDigit(s[k])
  }

  predicate AllDigits(t: string) {
    forall k | 0 <= k < |t| :: IsDigit(t[k])
  }

  /** Index of the first '.' in `u`, or `|u|` when there is none. */
  function PointIndex(u: string): (k: nat)
    ensures k <= |u|
    ensures forall m | 0 <= m < k :: u[m] != '.'
    ensures k < |u| ==> u[k] == '.'
  {
    if u == [] || u[0] == '.' then 0 else 1 + PointIndex(u[1..])
  }

  /** `u` as a whole matches `\d*\.?\d+`: one or more digits, or digits (possibly none),
      a single '.', and at least one digit after it. */
  predicate IsUnsigned(u: string) {
    var k := PointIndex(u);
    if k == |u| then |u| > 0 && AllDigits(u)
    else k + 1 < |u| && AllDigits(u[..k]) && AllDigits(u[k + 1..])
  }

  /** `t` as a whole matches `[-+]?\d*\.?\d+`. */
  predicate IsNumeral(t: string) {
    IsUnsigned(t) || (|t| > 0 && IsSign(t[0]) && IsUnsigned(t[1..]))
  }

  /** `s[i..j]` is a match of the pattern inside `s`. */
  predicate MatchAt(s: string, i: int, j: int) {
    0 <= i < j <= |s| && IsNumeral(s[i..j])
  }

  ghost predicate HasMatch(s: string) {
    exists i, j :: MatchAt(s, i, j)
  }

  /** No match of the pattern starts at a position in `[lo, hi)`. */
  ghost predicate NoMatchStartsIn(s: string, lo: int, hi: int) {
    forall i, j | lo <= i < hi :: !MatchAt(s, i, j)
  }

  /** No match that starts at `i` ends after `j`. */
  ghost predicate NoLongerMatch(s: string, i: int, j: int) {
    forall k | j < k :: !MatchAt(s, i, k)
  }

  datatype Span = Span(start: nat, end: nat)

  /** The match `re.search` reports for this pattern: it starts at the leftmost position
      where some match starts, and the greedy quantifiers extend it as far as the pattern
      allows from there. */
  ghost predicate IsLeftmostLongest(s: string, m: Span) {
    && MatchAt(s, m.start, m.end)
    && NoMatchStartsIn(s, 0, m.start)
    && NoLongerMatch(s, m.start, m.end)
  }

  // ---------- The scanner ----------

  /** End of the run of digits that starts at `p`. */
  function DigitRunEnd(s: string, p: nat): (q: nat)
    requires p <= |s|
    ensures p <= q <= |s|
    ensures forall m | p <= m < q :: IsDigit(s[m])
    ensures q < |s| ==> !IsDigit(s[q])
    decreases |s| - p
  {
    if p < |s| && IsDigit(s[p]) then DigitRunEnd(s, p + 1) else p
  }

  /** Where the greedy match that starts at `i` ends, if one starts there: an optional sign,
      the digits, and, when a '.' and a digit follow them, the '.' and the digits after it. */
  function MatchEnd(s: string, i: nat): (r: Option<nat>)
    requires i < |s|
    ensures r.Some? ==> i < r.value <= |s|
  {
    var p := if IsSign(s[i]) then i + 1 else i;
    var q := DigitRunEnd(s, p);
    if q + 1 < |s| && s[q] == '.' && IsDigit(s[q + 1]) then Some(DigitRunEnd(s, q + 1))
    else if p < q then Some(q)
    else None
  }

  /** `MatchEnd` finds the longest match that starts at `i`, and only misses when none does. */
  lemma MatchEndCorrect(s: string, i: nat)
    requires i < |s|
    ensures MatchEnd(s, i).Some? ==> MatchAt(s, i, MatchEnd(s, i).value)
    ensures MatchEnd(s, i).Some? ==> NoLongerMatch(s, i, MatchEnd(s, i).value)
    ensures MatchEnd(s, i).None? ==> NoMatchStartsIn(s, i, i + 1)
  {
    MatchAtShape(s, i);
  }

  /** The matches that start at `i`: after the optional sign at `p`, either a prefix of the
      run of digits, or the whole run, a '.', and a prefix of the run after it. */
  lemma MatchAtShape(s: string, i: nat)
    requires i < |s|
    ensures var p := if IsSign(s[i]) then i + 1 else i;
            var q := DigitRunEnd(s, p);
            forall j :: MatchAt(s, i, j) <==>
              i < j <= |s| && ((p < j <= q) || (q + 1 < j && s[q] == '.' && j <= DigitRunEnd(s, q + 1)))
  {
    var p := if IsSign(s[i]) then i + 1 else i;
    forall j | i < j <= |s|
      ensures MatchAt(s, i, j) <==> IsUnsigned(s[p..j])
    {
      var t := s[i..j];
      if IsSign(s[i]) {
        assert t[1..] == s[p..j];
        NoLeadingSign(t);
      }
    }
    forall j | i < j <= |s|
      ensures var q := DigitRunEnd(s, p);
              IsUnsigned(s[p..j]) <==> (p < j <= q) || (q + 1 < j && s[q] == '.' && j <= DigitRunEnd(s, q + 1))
    {
      UnsignedSpan(s, p, j);
    }
  }

  /** A match of `\d*\.?\d+` never starts with a sign. */
  lemma NoLeadingSign(t: string)
    requires |t| > 0 && IsSign(t[0])
    ensures !IsUnsigned(t)
  {
    var k := PointIndex(t);
    if k > 0 && k < |t| {
      assert t[..k][0] == t[0];
    }
  }

  /** `DigitRunEnd(s, p)` bounds every all-digit span that starts at `p`. */
  lemma DigitsUpTo(s: string, p: nat, j: nat)
    requires p <= j <= |s|
    ensures AllDigits(s[p..j]) <==> j <= DigitRunEnd(s, p)
  {
    var q := DigitRunEnd(s, p);
    if q < j {
      assert s[p..j][q - p] == s[q];
    }
  }

  /** `s[p..j]` matches `\d*\.?\d+` exactly when it ends inside the run of digits at `p`, or
      the run is followed by '.' and the span ends inside the run of digits after it. */
  lemma UnsignedSpan(s: string, p: nat, j: nat)
    requires p <= j <= |s|
    ensures var q := DigitRunEnd(s, p);
            IsUnsigned(s[p..j]) <==> (p < j <= q) || (q + 1 < j && s[q] == '.' && j <= DigitRunEnd(s, q + 1))
  {
    var u := s[p..j];
    var q := DigitRunEnd(s, p);
    var k := PointIndex(u);
    DigitsUpTo(s, p, j);
    if k < |u| {
      assert s[p + k] == '.' by { assert u[k] == s[p + k]; }
      assert u[..k] == s[p..p + k];
      assert u[k + 1..] == s[p + k + 1..j];
      DigitsUpTo(s, p, p + k);
      DigitsUpTo(s, p + k + 1, j);
      if AllDigits(u[..k]) {
        assert q == p + k;
      } else {
        assert q < p + k;
        assert s[q] == u[q - p];
      }
    }
  }

  /** `re.search`, started at position `i`: try each position in turn. */
  function SearchFrom(s: string, i: nat): (r: Option<Span>)
    requires i <= |s|
    ensures r.Some? ==> i <= r.value.start < r.value.end <= |s|
    decreases |s| - i
  {
    if i == |s| then None
    else match MatchEnd(s, i)
      case Some(j) => Some(Span(i, j))
      case None => SearchFrom(s, i + 1)
  }

  /** `m` is a match that starts at `i` or later, no match starts between `i` and it, and
      none that starts where it does is longer. */
  ghost predicate LeftmostLongestFrom(s: string, i: int, m: Span) {
    && i <= m.start
    && MatchAt(s, m.start, m.end)
    && NoMatchStartsIn(s, i, m.start)
    && NoLongerMatch(s, m.start, m.end)
  }

  /** `SearchFrom(s, i)` reports the leftmost-longest match among those that start at `i` or
      later, and nothing only when there is none. */
  lemma {:induction false} SearchFromCorrect(s: string, i: nat)
    requires i <= |s|
    ensures SearchFrom(s, i).None? ==> NoMatchStartsIn(s, i, |s|)
    ensures SearchFrom(s, i).Some? ==> LeftmostLongestFrom(s, i, SearchFrom(s, i).value)
    decreases |s| - i
  {
    if i < |s| {
      MatchEndCorrect(s, i);
      match MatchEnd(s, i)
      case Some(j) =>
        assert SearchFrom(s, i) == Some(Span(i, j));
      case None =>
        var r := SearchFrom(s, i + 1);
        SearchFromCorrect(s, i + 1);
        assert SearchFrom(s, i) == r;
        if r.Some? {
          FromEarlier(s, i, r.value);
        } else {
          NoMatchStartsInJoin(s, i, i + 1, |s|);
        }
    }
  }

  /** A position where no match starts can be added in front. */
  lemma FromEarlier(s: string, i: int, m: Span)
    requires NoMatchStartsIn(s, i, i + 1) && LeftmostLongestFrom(s, i + 1, m)
    ensures LeftmostLongestFrom(s, i, m)
  {
    NoMatchStartsInJoin(s, i, i + 1, m.start);
  }

  lemma NoMatchStartsInJoin(s: string, lo: int, mid: int, hi: int)
    requires NoMatchStartsIn(s, lo, mid) && NoMatchStartsIn(s, mid, hi)
    ensures NoMatchStartsIn(s, lo, hi)
  {
  }

  /** `re.search(r'[-+]?\d*\.?\d+', s)`. */
  function Search(s: string): (r: Option<Span>)
    ensures r.Some? ==> r.value.start < r.value.end <= |s|
  {
    SearchFrom(s, 0)
  }

  /** The search finds nothing exactly when the pattern occurs nowhere in `s`; otherwise it
      finds the one leftmost-longest match. */
  lemma SearchCorrect(s: string)
    ensures Search(s).None? <==> !HasMatch(s)
    ensures Search(s).Some? ==> IsLeftmostLongest(s, Search(s).value)
    ensures Search(s).Some? ==> forall m :: IsLeftmostLongest(s, m) <==> m == Search(s).value
  {
    SearchFromCorrect(s, 0);
  }

  // ---------- The value of the matched text: float(m.group()) ----------

  /** The value of a decimal digit. The value functions below are total so that
      `ParseNumber` needs no proof to apply them; they are only ever applied to matches, where
      every character read as a digit is one, and a non-digit would read as 0. */
  function DigitValue(c: char): (v: nat)
    ensures v < 10
  {
    if IsDigit(c) then c as int - '0' as int else 0
  }

  function Pow10(n: nat): (p: nat)
    ensures p > 0
  {
    if n == 0 then 1 else 10 * Pow10(n - 1)
  }

  /** The decimal value of a string of digits, which is below ten to the number of digits. */
  function DigitsValue(d: string): (n: nat)
    ensures n < Pow10(|d|)
  {
    if d == [] then 0
    else
      var n' := DigitsValue(d[..|d| - 1]);
      assert n' + 1 <= Pow10(|d| - 1);
      n' * 10 + DigitValue(d[|d| - 1])
  }

  /** The digits of `\d*\.?\d+` before its point (all of them when it has none). */
  function WholeDigits(u: string): string {
    u[..PointIndex(u)]
  }

  /** The digits of `\d*\.?\d+` after its point (none when it has no point). */
  function FractionDigits(u: string): string {
    var k := PointIndex(u);
    if k == |u| then [] else u[k + 1..]
  }

  /** The value of a match of `\d*\.?\d+`: the whole digits, plus the digits after the point
      scaled down by their number of places, so the whole digits are its integer part. */
  function UnsignedValue(u: string): (r: real)
    ensures DigitsValue(WholeDigits(u)) as real <= r < DigitsValue(WholeDigits(u)) as real + 1.0
  {
    var f := FractionDigits(u);
    BelowOne(DigitsValue(f) as real, Pow10(|f|) as real);
    DigitsValue(WholeDigits(u)) as real + DigitsValue(f) as real / Pow10(|f|) as real
  }

  /** The value of a match of `[-+]?\d*\.?\d+`: `float(m.group())`, negative only under a
      leading '-'. */
  function NumeralValue(t: string): (r: real)
    ensures r < 0.0 ==> |t| > 0 && t[0] == '-'
    ensures |t| > 0 && t[0] == '-' ==> r <= 0.0
  {
    if |t| > 0 && t[0] == '-' then -UnsignedValue(t[1..])
    else if |t| > 0 && t[0] == '+' then UnsignedValue(t[1..])
    else UnsignedValue(t)
  }

  /** A sign in front of `\d*\.?\d+` negates its value or leaves it, and without a sign the
      value is that of the digits. */
  lemma SignedValue(u: string)
    requires IsUnsigned(u)
    ensures NumeralValue(u) == UnsignedValue(u)
    ensures NumeralValue("-" + u) == -UnsignedValue(u)
    ensures NumeralValue("+" + u) == UnsignedValue(u)
  {
    if |u| > 0 && IsSign(u[0]) {
      NoLeadingSign(u);
    }
    assert ("-" + u)[1..] == u;
    assert ("+" + u)[1..] == u;
  }

  // ---------- parse_number ----------

  function NoMatchMessage(n: string): string {
    "Couldn't parse number from '" + n + "'"
  }

  /** `parse_number(s)`: fails exactly when the pattern occurs nowhere in the normalised text,
      with the error that names that text; otherwise the value of its leftmost-longest match
      (`ParseNumberSpec`). */
  function ParseNumber(s: string): (r: Result<real>)
    ensures r.Err? <==> !HasMatch(Normalized(s))
    ensures r.Err? ==> r.message == NoMatchMessage(Normalized(s))
  {
    var n := Normalized(s);
    SearchCorrect(n);
    match Search(n)
    case None => Err(NoMatchMessage(n))
    case Some(m) => Ok(NumeralValue(n[m.start..m.end]))
  }

  /** When `parse_number` succeeds it returns the value of the leftmost-longest match in the
      normalised text. */
  lemma ParseNumberSpec(s: string)
    ensures ParseNumber(s).Ok? ==> forall m | IsLeftmostLongest(Normalized(s), m) ::
              ParseNumber(s).value == NumeralValue(Normalized(s)[m.start..m.end])
  {
    SearchCorrect(Normalized(s));
  }

  // ---------- Properties ----------

  /** Replacing ',' by '.' leaves no comma behind, and doing it twice is doing it once. */
  lemma CommaToPointIdempotent(s: string)
    ensures ',' !in CommaToPoint(s)
    ensures CommaToPoint(CommaToPoint(s)) == CommaToPoint(s)
  {
    var r := CommaToPoint(s);
    forall k | 0 <= k < |r| ensures r[k] != ',' {
    }
  }

  /** Slicing commutes with replacing commas. */
  lemma CommaToPointSlice(s: string, a: nat, b: nat)
    requires a <= b <= |s|
    ensures CommaToPoint(s)[a..b] == CommaToPoint(s[a..b])
  {
    var l, r := CommaToPoint(s)[a..b], CommaToPoint(s[a..b]);
    forall k | 0 <= k < b - a
      ensures l[k] == r[k]
    {
      assert s[a..b][k] == s[a + k];
    }
  }

  /** `StripStart` keeps exactly the suffix from the first character that is not white space. */
  lemma StripStartIs(x: string, m: nat)
    requires m <= |x|
    requires forall k | 0 <= k < m :: IsSpace(x[k])
    requires m == |x| || !IsSpace(x[m])
    ensures StripStart(x) == x[m..]
  {
    var r := StripStart(x);
    if |r| > 0 {
      assert r[0] == x[|x| - |r|];
    }
  }

  /** `s.strip()` is the slice `s[a..b]` whenever all of `s` outside it is white space and the
      slice is empty or has no white space at either end. */
  lemma StripIs(s: string, a: nat, b: nat)
    requires a <= b <= |s|
    requires forall k | 0 <= k < a :: IsSpace(s[k])
    requires forall k | b <= k < |s| :: IsSpace(s[k])
    requires a == b || (!IsSpace(s[a]) && !IsSpace(s[b - 1]))
    ensures Strip(s) == s[a..b]
  {
    if a == b {
      StripBlank(s, a);
    } else {
      StripStartIs(s, a);
      StripSlice(s, a, b);
    }
  }

  lemma StripBlank(s: string, a: nat)
    requires a <= |s|
    requires forall k | 0 <= k < a :: IsSpace(s[k])
    requires forall k | a <= k < |s| :: IsSpace(s[k])
    ensures Strip(s) == []
  {
    forall k | 0 <= k < |s|
      ensures IsSpace(s[k])
    {
      if k >= a {
      }
    }
    StripStartIs(s, |s|);
  }

  lemma StripSlice(s: string, a: nat, b: nat)
    requires a < b <= |s|
    requires StripStart(s) == s[a..]
    requires forall k | b <= k < |s| :: IsSpace(s[k])
    requires !IsSpace(s[b - 1])
    ensures Strip(s) == s[a..b]
  {
    StripEndOfSuffix(s, a, b);
  }

  lemma StripEndOfSuffix(s: string, a: nat, b: nat)
    requires a < b <= |s|
    requires forall k | b <= k < |s| :: IsSpace(s[k])
    requires !IsSpace(s[b - 1])
    ensures StripEnd(s[a..]) == s[a..b]
  {
    var x := s[a..];
    forall k | b - a <= k < |x|
      ensures IsSpace(x[k])
    {
      assert x[k] == s[a + k];
    }
    assert x[b - a - 1] == s[b - 1];
    StripEndIs(x, b - a);
    assert x[..b - a] == s[a..b];
  }

  /** Stripping twice is stripping once. */
  lemma StripIdempotent(s: string)
    ensures Strip(Strip(s)) == Strip(s)
  {
    var r := Strip(s);
    StripIs(r, 0, |r|);
  }

  lemma StripStartCommaToPoint(s: string)
    ensures StripStart(CommaToPoint(s)) == CommaToPoint(StripStart(s))
  {
    var c := CommaToPoint(s);
    var m := |s| - |StripStart(s)|;
    if m < |s| {
      assert s[m] == StripStart(s)[0];
    }
    StripStartIs(c, m);
    CommaToPointSlice(s, m, |s|);
  }

  /** `StripEnd` keeps exactly the prefix up to the last character that is not white space. */
  lemma StripEndIs(x: string, m: nat)
    requires m <= |x|
    requires forall k | m <= k < |x| :: IsSpace(x[k])
    requires m == 0 || !IsSpace(x[m - 1])
    ensures StripEnd(x) == x[..m]
  {
    var r := StripEnd(x);
    if |r| > 0 {
      assert r[|r| - 1] == x[|r| - 1];
    }
  }

  lemma StripEndCommaToPoint(s: string)
    ensures StripEnd(CommaToPoint(s)) == CommaToPoint(StripEnd(s))
  {
    var c := CommaToPoint(s);
    var m := |StripEnd(s)|;
    if m > 0 {
      assert s[m - 1] == StripEnd(s)[m - 1];
    }
    StripEndIs(c, m);
    CommaToPointSlice(s, 0, m);
  }

  /** Text that differs only in using ',' where the other uses '.' parses the same:
      "1,75" reads as "1.75". */
  lemma CommaReadsAsPoint(s: string)
    ensures ParseNumber(CommaToPoint(s)) == ParseNumber(s)
  {
    StripStartCommaToPoint(s);
    StripEndCommaToPoint(StripStart(s));
    CommaToPointIdempotent(Strip(s));
  }

  /** Every character of a match of `\d*\.?\d+` is a digit, except its one point. */
  lemma UnsignedChars(u: string)
    requires IsUnsigned(u)
    ensures forall m | 0 <= m < |u| && m != PointIndex(u) :: IsDigit(u[m])
  {
    var k := PointIndex(u);
    forall m | 0 <= m < |u| && m != k
      ensures IsDigit(u[m])
    {
      if k < |u| {
        if m < k {
          assert u[..k][m] == u[m];
        } else {
          assert u[k + 1..][m - k - 1] == u[m];
        }
      }
    }
  }

  /** A match starts with a sign, a digit or '.', goes on with digits and at most one '.',
      and ends with a digit. */
  lemma NumeralShape(t: string)
    ensures IsNumeral(t) ==> |t| > 0 && IsDigit(t[|t| - 1])
    ensures IsNumeral(t) ==> IsSign(t[0]) || IsDigit(t[0]) || t[0] == '.'
    ensures IsNumeral(t) ==> forall m | 0 < m < |t| :: IsDigit(t[m]) || t[m] == '.'
    ensures IsNumeral(t) ==> forall a, b | 0 <= a < b < |t| :: t[a] != '.' || t[b] != '.'
  {
    if IsUnsigned(t) {
      UnsignedChars(t);
    } else if IsNumeral(t) {
      var u := t[1..];
      UnsignedChars(u);
      forall m | 0 < m < |t|
        ensures t[m] == u[m - 1]
      {
      }
    }
  }

  lemma MatchesEndInDigit(s: string)
    ensures forall i, j | MatchAt(s, i, j) :: IsDigit(s[j - 1])
  {
    forall i, j | MatchAt(s, i, j) ensures IsDigit(s[j - 1]) {
      NumeralShape(s[i..j]);
      assert s[i..j][j - i - 1] == s[j - 1];
    }
  }

  /** Normalisation adds no digit: it only drops white space at the ends and changes commas. */
  lemma NormalizedNoDigit(s: string)
    requires forall k | 0 <= k < |s| :: !IsDigit(s[k])
    ensures forall k | 0 <= k < |Normalized(s)| :: !IsDigit(Normalized(s)[k])
  {
    StripNoDigit(s);
    var r := Strip(s);
    var n := Normalized(s);
    assert n == CommaToPoint(r);
  }

  lemma StripNoDigit(s: string)
    requires forall k | 0 <= k < |s| :: !IsDigit(s[k])
    ensures forall k | 0 <= k < |Strip(s)| :: !IsDigit(Strip(s)[k])
  {
    var t := StripStart(s);
    var r := StripEnd(t);
    forall k | 0 <= k < |r|
      ensures !IsDigit(r[k])
    {
      assert r[k] == t[k] == s[|s| - |t| + k];
    }
  }

  /** Text without a digit holds no match. */
  lemma NoDigitNoMatch(n: string)
    requires forall k | 0 <= k < |n| :: !IsDigit(n[k])
    ensures !HasMatch(n)
  {
    MatchesEndInDigit(n);
  }

  /** Text without a digit has no number in it: `parse_number` raises its error, whatever
      else the text holds (the empty text included). */
  lemma NoDigitNoNumber(s: string)
    requires forall k | 0 <= k < |s| :: !IsDigit(s[k])
    ensures ParseNumber(s) == Err(NoMatchMessage(Normalized(s)))
  {
    NormalizedNoDigit(s);
    NoDigitNoMatch(Normalized(s));
    SearchMisses(Normalized(s));
  }

  /** Normalisation keeps every digit: it only drops white space at the ends and changes
      commas. */
  lemma DigitSurvives(s: string, k: nat) returns (p: nat)
    requires k < |s| && IsDigit(s[k])
    ensures p < |Normalized(s)| && Normalized(s)[p] == s[k]
  {
    var t := StripStart(s);
    var off := |s| - |t|;
    assert t[k - off] == s[k];
    var r := StripEnd(t);
    p := k - off;
    assert r[p] == t[p];
  }

  /** A single digit is a match. */
  lemma DigitMatches(n: string, p: nat)
    requires p < |n| && IsDigit(n[p])
    ensures MatchAt(n, p, p + 1)
  {
    assert n[p..p + 1] == [n[p]];
    assert PointIndex([n[p]]) == 1;
  }

  /** A digit anywhere in the text makes the parse succeed. */
  lemma DigitParses(s: string, k: nat)
    requires k < |s| && IsDigit(s[k])
    ensures ParseNumber(s).Ok?
  {
    var p := DigitSurvives(s, k);
    DigitMatches(Normalized(s), p);
  }

  /** `parse_number` raises its error exactly when the text holds no digit. */
  lemma ParseFailsIffNoDigit(s: string)
    ensures ParseNumber(s).Err? <==> !HasDigit(s)
  {
    if !HasDigit(s) {
      NoDigitNoNumber(s);
    } else {
      var k :| 0 <= k < |s| && IsDigit(s[k]);
      DigitParses(s, k);
    }
  }

  lemma AllDigitsAppend(a: string, b: string)
    requires AllDigits(a) && AllDigits(b)
    ensures AllDigits(a + b)
  {
    var ab := a + b;
    forall k | 0 <= k < |ab| ensures IsDigit(ab[k]) {
      if k >= |a| {
        assert ab[k] == b[k - |a|];
      }
    }
  }

  lemma ShiftStep(x: int, y: int, p: int, d: int)
    ensures (x * p + y) * 10 + d == x * (p * 10) + (y * 10 + d)
  {
  }

  /** The digits of `a + b` read as `a` shifted left by `|b|` places, plus `b`. */
  lemma {:induction false} DigitsValueAppend(a: string, b: string)
    requires AllDigits(a) && AllDigits(b)
    ensures AllDigits(a + b)
    ensures DigitsValue(a + b) == DigitsValue(a) * Pow10(|b|) + DigitsValue(b)
    decreases |b|
  {
    AllDigitsAppend(a, b);
    if b == [] {
      assert a + b == a;
    } else {
      var b' := b[..|b| - 1];
      var d := DigitValue(b[|b| - 1]);
      assert (a + b)[..|a + b| - 1] == a + b';
      assert (a + b)[|a + b| - 1] == b[|b| - 1];
      DigitsValueAppend(a, b');
      assert DigitsValue(a + b) == DigitsValue(a + b') * 10 + d;
      assert DigitsValue(b) == DigitsValue(b') * 10 + d;
      assert Pow10(|b|) == Pow10(|b'|) * 10;
      ShiftStep(DigitsValue(a), DigitsValue(b'), Pow10(|b'|), d);
    }
  }

  lemma ShiftedSum(x: nat, y: nat, p: nat)
    requires p > 0
    ensures (x * p + y) as real / p as real == x as real + y as real / p as real
  {
    var xr, yr, pr := x as real, y as real, p as real;
    assert (x * p) as real == xr * pr;
    assert (xr + yr / pr) * pr == xr * pr + yr;
  }

  /** A decimal match is its digits without the point, divided by ten to the number of
      places after the point: "1.75" is 175 / 100. */
  lemma UnsignedValueScaled(u: string)
    requires IsUnsigned(u)
    ensures var f := FractionDigits(u);
            AllDigits(WholeDigits(u) + f) &&
            UnsignedValue(u) == DigitsValue(WholeDigits(u) + f) as real / Pow10(|f|) as real
  {
    var w, f := WholeDigits(u), FractionDigits(u);
    DigitsValueAppend(w, f);
    ShiftedSum(DigitsValue(w), DigitsValue(f), Pow10(|f|));
  }

  lemma BelowOne(x: real, p: real)
    requires 0.0 <= x < p
    ensures 0.0 <= x / p < 1.0
  {
    assert x / p * p == x;
  }

  // ---------- Text around the number ----------

  /** Text in front that holds no sign, digit or '.' cannot start a match. */
  lemma NotInFront(pre: string, x: string, a: int, b: int)
    requires 0 <= a < |pre| && !IsSign(pre[a]) && !IsDigit(pre[a]) && pre[a] != '.'
    ensures !MatchAt(pre + x, a, b)
  {
    var s := pre + x;
    if a < b <= |s| {
      assert s[a..b][0] == pre[a];
      NumeralShape(s[a..b]);
    }
  }

  /** The matches that start after the text in front are those of the rest, shifted. */
  lemma ShiftedMatch(pre: string, x: string, a: int, b: int)
    requires |pre| <= a
    ensures MatchAt(pre + x, a, b) <==> MatchAt(x, a - |pre|, b - |pre|)
  {
    if a < b <= |pre + x| {
      SliceAfter(pre, x, a, b);
    }
  }

  /** A match of the rest is a match of the whole text, shifted. */
  lemma MatchShifted(pre: string, x: string, a: int, b: int)
    requires MatchAt(x, a, b)
    ensures MatchAt(pre + x, |pre| + a, |pre| + b)
  {
    SliceAfter(pre, x, |pre| + a, |pre| + b);
  }

  lemma SliceAfter(pre: string, x: string, a: int, b: int)
    requires |pre| <= a <= b <= |pre + x|
    ensures (pre + x)[a..b] == x[a - |pre|..b - |pre|]
  {
  }

  /** The leftmost-longest match after such text is that of the rest, shifted. */
  lemma ShiftedLeftmostLongest(pre: string, x: string, m: Span)
    requires forall k | 0 <= k < |pre| :: !IsSign(pre[k]) && !IsDigit(pre[k]) && pre[k] != '.'
    requires IsLeftmostLongest(x, m)
    ensures IsLeftmostLongest(pre + x, Span(|pre| + m.start, |pre| + m.end))
  {
    ShiftedParts(pre, x, m.start, m.end);
  }

  lemma ShiftedParts(pre: string, x: string, a: nat, b: nat)
    requires forall k | 0 <= k < |pre| :: !IsSign(pre[k]) && !IsDigit(pre[k]) && pre[k] != '.'
    requires MatchAt(x, a, b) && NoMatchStartsIn(x, 0, a) && NoLongerMatch(x, a, b)
    ensures MatchAt(pre + x, |pre| + a, |pre| + b)
    ensures NoMatchStartsIn(pre + x, 0, |pre| + a)
    ensures NoLongerMatch(pre + x, |pre| + a, |pre| + b)
  {
    MatchShifted(pre, x, a, b);
    ShiftedNoneBefore(pre, x, a);
    ShiftedNoneLonger(pre, x, a, b);
  }

  lemma ShiftedNoneBefore(pre: string, x: string, start: int)
    requires forall k | 0 <= k < |pre| :: !IsSign(pre[k]) && !IsDigit(pre[k]) && pre[k] != '.'
    requires NoMatchStartsIn(x, 0, start)
    ensures NoMatchStartsIn(pre + x, 0, |pre| + start)
  {
    var d := |pre|;
    forall i, j | 0 <= i < d + start
      ensures !MatchAt(pre + x, i, j)
    {
      if i < d {
        NotInFront(pre, x, i, j);
      } else {
        ShiftedMatch(pre, x, i, j);
        assert !MatchAt(x, i - d, j - d);
      }
    }
  }

  lemma ShiftedNoneLonger(pre: string, x: string, start: int, end: int)
    requires 0 <= start && NoLongerMatch(x, start, end)
    ensures NoLongerMatch(pre + x, |pre| + start, |pre| + end)
  {
    var d := |pre|;
    var shifted := d + start;
    forall k | d + end < k
      ensures !MatchAt(pre + x, shifted, k)
    {
      ShiftedMatch(pre, x, shifted, k);
      assert !MatchAt(x, start, k - d);
    }
  }

  /** Such text in front of text without a match adds none. */
  lemma ShiftedNoMatch(pre: string, x: string)
    requires forall k | 0 <= k < |pre| :: !IsSign(pre[k]) && !IsDigit(pre[k]) && pre[k] != '.'
    requires !HasMatch(x)
    ensures !HasMatch(pre + x)
  {
    var d := |pre|;
    forall a, b
      ensures !MatchAt(pre + x, a, b)
    {
      if 0 <= a < d {
        NotInFront(pre, x, a, b);
      } else if d <= a {
        ShiftedMatch(pre, x, a, b);
        assert !MatchAt(x, a - d, b - d);
      }
    }
  }

  /** The search reports the leftmost-longest match whenever there is one. */
  lemma SearchFinds(s: string, m: Span)
    requires IsLeftmostLongest(s, m)
    ensures Search(s) == Some(m)
  {
    SearchCorrect(s);
  }

  /** The search reports nothing when there is no match. */
  lemma SearchMisses(s: string)
    requires !HasMatch(s)
    ensures Search(s) == None
  {
    SearchCorrect(s);
  }

  /** Text in front that holds no sign, digit or '.' cannot start a match: the search finds
      what it finds without that text, further along. */
  lemma SearchSkipsText(pre: string, x: string)
    requires forall k | 0 <= k < |pre| :: !IsSign(pre[k]) && !IsDigit(pre[k]) && pre[k] != '.'
    ensures Search(x).None? ==> Search(pre + x).None?
    ensures Search(x).Some? ==> var m := Search(x).value;
              Search(pre + x) == Some(Span(|pre| + m.start, |pre| + m.end))
  {
    SearchCorrect(x);
    if Search(x).Some? {
      var m := Search(x).value;
      ShiftedLeftmostLongest(pre, x, m);
      SearchFinds(pre + x, Span(|pre| + m.start, |pre| + m.end));
    } else {
      ShiftedNoMatch(pre, x);
      SearchMisses(pre + x);
    }
  }

  /** A match followed by text that cannot continue it is found whole. Only a digit, or a '.'
      with a digit after it in a match that has no point yet, would continue it. */
  lemma SearchNumeralThenText(t: string, v: string)
    requires IsNumeral(t)
    requires v == [] || !IsDigit(v[0])
    requires |v| > 0 && v[0] == '.' ==> '.' in t || |v| == 1 || !IsDigit(v[1])
    ensures Search(t + v) == Some(Span(0, |t|))
  {
    var s := t + v;
    assert s[0..|t|] == t;
    forall j | |t| < j <= |s|
      ensures !IsNumeral(s[0..j])
    {
      var w := s[0..j];
      assert w[|t|] == v[0];
      if j > |t| + 1 {
        assert w[|t| + 1] == v[1];
      }
      if '.' in t {
        var a :| 0 <= a < |t| && t[a] == '.';
        assert w[a] == '.';
      }
      NumeralShape(w);
    }
    SearchCorrect(s);
    assert IsLeftmostLongest(s, Span(0, |t|));
  }

  /** `s.rstrip()` of a text that does not end in white space once `post` is stripped. */
  lemma StripEndAppend(x: string, post: string)
    requires |x| > 0 && !IsSpace(x[|x| - 1])
    ensures StripEnd(x + post) == x + StripEnd(post)
  {
    var s, r := x + post, StripEnd(post);
    var m := |x| + |r|;
    forall k | m <= k < |s|
      ensures IsSpace(s[k])
    {
      assert s[k] == post[k - |x|];
    }
    assert s[m - 1] == if r == [] then x[|x| - 1] else r[|r| - 1];
    StripEndIs(s, m);
    assert s[..m] == x + r;
  }

  /** Replacing commas in text whose front part has none changes only the rest. */
  lemma CommaToPointAppend(x: string, y: string)
    requires ',' !in x
    ensures CommaToPoint(x + y) == x + CommaToPoint(y)
  {
    var l, r := CommaToPoint(x + y), x + CommaToPoint(y);
    forall k | 0 <= k < |l|
      ensures l[k] == r[k]
    {
      if k < |x| {
        assert (x + y)[k] == x[k];
      } else {
        assert (x + y)[k] == y[k - |x|];
      }
    }
  }

  /** Stripping the text around a number removes only the white space at the end. */
  lemma StripAround(x: string, post: string)
    requires |x| > 0 && !IsSpace(x[0]) && !IsSpace(x[|x| - 1])
    ensures Strip(x + post) == x + StripEnd(post)
  {
    var s := x + post;
    assert s[0] == x[0];
    StripStartIs(s, 0);
    StripEndAppend(x, post);
  }

  /** Stripping the text around a number removes only the white space at its end. */
  lemma StripAroundNumber(pre: string, t: string, post: string)
    requires IsNumeral(t)
    requires pre == [] || !IsSpace(pre[0])
    ensures Strip(pre + t + post) == pre + t + StripEnd(post)
  {
    NumeralShape(t);
    var x := pre + t;
    assert x[0] == if pre == [] then t[0] else pre[0];
    assert x[|x| - 1] == t[|t| - 1];
    StripAround(x, post);
  }

  /** A match holds no comma. */
  lemma NoCommaInNumeral(pre: string, t: string)
    requires IsNumeral(t)
    requires ',' !in pre
    ensures ',' !in pre + t
  {
    NumeralShape(t);
    assert forall k | 0 <= k < |t| :: t[k] != ',';
  }

  /** Normalising the text around a number strips the white space at its end and turns the
      commas behind the number into points; the text in front and the number stay as they are. */
  lemma NormalizedAround(pre: string, t: string, post: string)
    requires IsNumeral(t)
    requires ',' !in pre
    requires pre == [] || !IsSpace(pre[0])
    ensures Normalized(pre + t + post) == pre + t + CommaToPoint(StripEnd(post))
  {
    StripAroundNumber(pre, t, post);
    NoCommaInNumeral(pre, t);
    CommaToPointAppend(pre + t, StripEnd(post));
  }

  /** The search finds the number between the text in front and the text behind it. */
  lemma SearchAround(pre: string, t: string, v: string)
    requires IsNumeral(t)
    requires forall k | 0 <= k < |pre| :: !IsSign(pre[k]) && !IsDigit(pre[k]) && pre[k] != '.'
    requires v == [] || !IsDigit(v[0])
    requires |v| > 0 && v[0] == '.' ==> '.' in t || |v| == 1 || !IsDigit(v[1])
    ensures Search(pre + t + v) == Some(Span(|pre|, |pre| + |t|))
    ensures (pre + t + v)[|pre|..|pre| + |t|] == t
  {
    assert pre + t + v == pre + (t + v);
    SearchNumeralThenText(t, v);
    SearchSkipsText(pre, t + v);
  }

  /** Normalising the text behind the number keeps what decides whether it carries the
      number on: its first character, read as a point if it is a comma, and whether a digit
      follows that. */
  lemma NormalizedTail(t: string, post: string)
    requires post == [] || !IsDigit(post[0])
    requires |post| > 0 && (post[0] == '.' || post[0] == ',') ==> '.' in t || |post| == 1 || !IsDigit(post[1])
    ensures var v := CommaToPoint(StripEnd(post));
            && (v == [] || !IsDigit(v[0]))
            && (|v| > 0 && v[0] == '.' ==> '.' in t || |v| == 1 || !IsDigit(v[1]))
  {
    var r := StripEnd(post);
    if |r| > 0 {
      assert r[0] == post[0];
    }
    if |r| > 1 {
      assert r[1] == post[1];
    }
  }

  /** `parse_number` returns the value of the match the search finds in the normalised text. */
  lemma ParseFound(s: string, n: string, m: Span, t: string)
    requires Normalized(s) == n
    requires Search(n) == Some(m)
    requires m.end <= |n| && n[m.start..m.end] == t
    ensures ParseNumber(s) == Ok(NumeralValue(t))
  {
  }

  /** Text around a number does not change it: "175 cm" reads as 175 and "abc-5" as -5. The
      text in front holds no sign, digit, '.' or ',' and does not begin with white space; the
      text behind does not begin with a digit, nor with a '.' or ',' that would carry the
      number on. */
  lemma ParseIgnoresText(pre: string, t: string, post: string)
    requires IsNumeral(t)
    requires forall k | 0 <= k < |pre| :: !IsSign(pre[k]) && !IsDigit(pre[k]) && pre[k] != '.'
    requires ',' !in pre
    requires pre == [] || !IsSpace(pre[0])
    requires post == [] || !IsDigit(post[0])
    requires |post| > 0 && (post[0] == '.' || post[0] == ',') ==> '.' in t || |post| == 1 || !IsDigit(post[1])
    ensures ParseNumber(pre + t + post) == Ok(NumeralValue(t))
  {
    var s := pre + t + post;
    var n := FoundAround(pre, t, post);
    ParseFound(s, n, Span(|pre|, |pre| + |t|), t);
    assert ParseNumber(s) == Ok(NumeralValue(t));
  }

  /** Under the conditions of `ParseIgnoresText`, the search in the normalised text finds
      the number, unchanged, right after the text in front. */
  lemma FoundAround(pre: string, t: string, post: string) returns (n: string)
    requires IsNumeral(t)
    requires forall k | 0 <= k < |pre| :: !IsSign(pre[k]) && !IsDigit(pre[k]) && pre[k] != '.'
    requires ',' !in pre
    requires pre == [] || !IsSpace(pre[0])
    requires post == [] || !IsDigit(post[0])
    requires |post| > 0 && (post[0] == '.' || post[0] == ',') ==> '.' in t || |post| == 1 || !IsDigit(post[1])
    ensures n == Normalized(pre + t + post)
    ensures Search(n) == Some(Span(|pre|, |pre| + |t|))
    ensures |pre| + |t| <= |n| && n[|pre|..|pre| + |t|] == t
  {
    NormalizedAround(pre, t, post);
    n := SearchAroundTail(pre, t, post);
  }

  lemma SearchAroundTail(pre: string, t: string, post: string) returns (n: string)
    requires IsNumeral(t)
    requires forall k | 0 <= k < |pre| :: !IsSign(pre[k]) && !IsDigit(pre[k]) && pre[k] != '.'
    requires post == [] || !IsDigit(post[0])
    requires |post| > 0 && (post[0] == '.' || post[0] == ',') ==> '.' in t || |post| == 1 || !IsDigit(post[1])
    ensures n == pre + t + CommaToPoint(StripEnd(post))
    ensures Search(n) == Some(Span(|pre|, |pre| + |t|))
    ensures |pre| + |t| <= |n| && n[|pre|..|pre| + |t|] == t
  {
    var v := CommaToPoint(StripEnd(post));
    n := pre + t + v;
    NormalizedTail(t, post);
    SearchAround(pre, t, v);
  }

  // ---------- Examples ----------

  lemma Value175(t: string)
    requires t == "175"
    ensures IsNumeral(t) && NumeralValue(t) == 175.0
  {
    assert PointIndex(t) == 3;
    assert WholeDigits(t) == t;
    assert "175"[..2] == "17" && "17"[..1] == "1";
    assert DigitsValue("17") == 17;
    assert DigitsValue("175") == 175;
  }

  lemma ValueMinus5(t: string)
    requires t == "-5"
    ensures IsNumeral(t) && NumeralValue(t) == -5.0
  {
    assert t[1..] == "5";
    assert PointIndex("5") == 1;
  }

  lemma Value1Point75(t: string)
    requires t == "1.75"
    ensures IsNumeral(t) && NumeralValue(t) == 1.75
  {
    assert PointIndex(t) == 1;
    assert WholeDigits(t) == "1";
    assert FractionDigits(t) == "75";
    assert "75"[..1] == "7";
    assert DigitsValue("75") == 75;
    assert Pow10(2) == 100;
  }

  lemma Value1Point2(t: string)
    requires t == "1.2"
    ensures IsNumeral(t) && NumeralValue(t) == 1.2 && '.' in t
  {
    assert PointIndex(t) == 1;
    assert WholeDigits(t) == "1";
    assert FractionDigits(t) == "2";
    assert t[1] == '.';
  }

  /** `ParseIgnoresText` for the text in front of position `i`, the number from `i` to `j`
      and the text from `j` on. */
  lemma ParseNumberAt(s: string, i: nat, j: nat)
    requires i <= j <= |s|
    requires IsNumeral(s[i..j])
    requires forall k | 0 <= k < i :: !IsSign(s[k]) && !IsDigit(s[k]) && s[k] != '.' && s[k] != ','
    requires i == 0 || !IsSpace(s[0])
    requires j == |s| || !IsDigit(s[j])
    requires j < |s| && (s[j] == '.' || s[j] == ',') ==> '.' in s[i..j] || j + 1 == |s| || !IsDigit(s[j + 1])
    ensures ParseNumber(s) == Ok(NumeralValue(s[i..j]))
  {
    Pieces(s, i, j);
    ParseIgnoresText(s[..i], s[i..j], s[j..]);
  }

  /** The conditions of `ParseNumberAt`, stated on the text in front, the number and the
      text behind. */
  lemma Pieces(s: string, i: nat, j: nat)
    requires i <= j <= |s|
    requires forall k | 0 <= k < i :: !IsSign(s[k]) && !IsDigit(s[k]) && s[k] != '.' && s[k] != ','
    requires i == 0 || !IsSpace(s[0])
    requires j == |s| || !IsDigit(s[j])
    requires j < |s| && (s[j] == '.' || s[j] == ',') ==> '.' in s[i..j] || j + 1 == |s| || !IsDigit(s[j + 1])
    ensures var pre, t, post := s[..i], s[i..j], s[j..];
            && s == pre + t + post
            && (forall k | 0 <= k < |pre| :: !IsSign(pre[k]) && !IsDigit(pre[k]) && pre[k] != '.')
            && ',' !in pre
            && (pre == [] || !IsSpace(pre[0]))
            && (post == [] || !IsDigit(post[0]))
            && (|post| > 0 && (post[0] == '.' || post[0] == ',') ==> '.' in t || |post| == 1 || !IsDigit(post[1]))
  {
    var pre, t, post := s[..i], s[i..j], s[j..];
    assert s == pre + t + post;
    assert forall k | 0 <= k < |pre| :: pre[k] == s[k];
    assert |post| > 0 ==> post[0] == s[j];
    assert |post| > 1 ==> post[1] == s[j + 1];
  }

  /** A unit after the number is ignored: "175 cm" reads as 175. */
  lemma ParseWithUnit(s: string)
    requires s == "175 cm"
    ensures ParseNumber(s) == Ok(175.0)
  {
    Value175(s[..3]);
    ParseNumberAt(s, 0, 3);
  }

  /** Text in front is skipped and the sign is kept: "abc-5" reads as -5. */
  lemma ParseAfterText(s: string)
    requires s == "abc-5"
    ensures ParseNumber(s) == Ok(-5.0)
  {
    ValueMinus5(s[3..5]);
    ParseNumberAt(s, 3, 5);
  }

  lemma ParseDecimalPoint(s: string)
    requires s == "1.75"
    ensures ParseNumber(s) == Ok(1.75)
  {
    Value1Point75(s[0..4]);
    ParseNumberAt(s, 0, 4);
  }

  /** A decimal comma reads as a decimal point: "1,75" reads as 1.75. */
  lemma ParseDecimalComma(s: string)
    requires s == "1,75"
    ensures ParseNumber(s) == Ok(1.75)
  {
    CommaAsPoint175(s);
    CommaReadsAsPoint(s);
    ParseDecimalPoint(CommaToPoint(s));
  }

  lemma CommaAsPoint175(s: string)
    requires s == "1,75"
    ensures CommaToPoint(s) == "1.75"
  {
    var c := CommaToPoint(s);
    assert c[0] == '1' && c[1] == '.' && c[2] == '7' && c[3] == '5';
  }

  /** A point with no digit after it is not part of the number: "175." reads as 175. */
  lemma ParseTrailingPoint(s: string)
    requires s == "175."
    ensures ParseNumber(s) == Ok(175.0)
  {
    Value175(s[..3]);
    ParseNumberAt(s, 0, 3);
  }

  /** A number has at most one point: "1.2.3" reads as 1.2. */
  lemma ParseStopsAtSecondPoint(s: string)
    requires s == "1.2.3"
    ensures ParseNumber(s) == Ok(1.2)
  {
    Value1Point2(s[..3]);
    ParseNumberAt(s, 0, 3);
  }

  /** Text without digits raises the error that quotes it. */
  lemma ParseNoNumber(s: string)
    requires s == "abc"
    ensures ParseNumber(s) == Err("Couldn't parse number from 'abc'")
  {
    NoDigitNoNumber(s);
    NormalizedPlain(s);
    QuotesAbc(s);
  }

  lemma QuotesAbc(n: string)
    requires n == "abc"
    ensures NoMatchMessage(n) == "Couldn't parse number from 'abc'"
  {
  }

  /** Text that neither starts nor ends with white space and holds no comma is its own
      normal form. */
  lemma NormalizedPlain(s: string)
    requires s == [] || (!IsSpace(s[0]) && !IsSpace(s[|s| - 1]))
    requires ',' !in s
    ensures Normalized(s) == s
  {
    StripStartIs(s, 0);
    StripEndIs(s, |s|);
    assert CommaToPoint(s) == s;
  }

  /** Normalising twice is normalising once. */
  lemma NormalizedIdempotent(s: string)
    ensures Normalized(Normalized(s)) == Normalized(s)
  {
    var t := Strip(s);
    var r := Normalized(s);
    assert r == [] || (r[0] != t[0] ==> r[0] == '.');
    assert r == [] || (r[|r| - 1] != t[|t| - 1] ==> r[|r| - 1] == '.');
    NormalizedPlain(r);
  }

  /** Text of white space only, the empty text included, raises the error that quotes the
      empty text. */
  lemma ParseBlank(s: string)
    requires forall k | 0 <= k < |s| :: IsSpace(s[k])
    ensures ParseNumber(s) == Err("Couldn't parse number from ''")
  {
    forall k | 0 <= k < |s|
      ensures !IsDigit(s[k])
    {
    }
    NoDigitNoNumber(s);
    StripBlank(s, 0);
    QuotesNothing(Normalized(s));
  }

  lemma QuotesNothing(n: string)
    requires n == ""
    ensures NoMatchMessage(n) == "Couldn't parse number from ''"
  {
  }
}
