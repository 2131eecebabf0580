/**
 * The size-token parser of the container-query plugin (`parseValue`).
 *
 * A token such as "42.5%" is split into a numeric magnitude, read from the
 * start of the token by the pattern ^(\d+\.\d+|\d+|\.\d+), and a unit, the
 * trailing run matched by [a-zA-Z%]+$ (default "px"). The magnitude is kept
 * exactly, as its integer digits and its fraction digits, with an exact
 * `real` value.
 */
module SizeToken {
  import opened Wrappers

  predicate IsDigit(c: char) { '0' <= c <= '9' }

  predicate IsUnitChar(c: char) { 'a' <= c <= 'z' || 'A' <= c <= 'Z' || c == '%' }

  predicate AllDigits(s: string) { forall i :: 0 <= i < |s| ==> IsDigit(s[i]) }

  predicate AllUnitChars(s: string) { forall i :: 0 <= i < |s| ==> IsUnitChar(s[i]) }

  /** A magnitude as written: the digits before the point and the digits after it. */
  datatype Decimal = Decimal(intDigits: string, fracDigits: string)

  /** A well-formed magnitude has digits only, and at least one of them. */
  predicate WellFormed(m: Decimal) {
    AllDigits(m.intDigits) && AllDigits(m.fracDigits) && |m.intDigits| + |m.fracDigits| > 0
  }

  /** The text the magnitude was read from. */
  function Text(m: Decimal): string {
    m.intDigits + (if m.fracDigits == [] then "" else "." + m.fracDigits)
  }

  /** The result of `parseValue`: `{ numeric, unit }`. */
  datatype ParsedSize = ParsedSize(magnitude: Decimal, unit: string)

  function DigitValue(c: char): nat
    requires IsDigit(c)
  {
    c as int - '0' as int
  }

  /** The value of a string of decimal digits (0 for the empty string). */
  function IntValue(ds: string): nat
    requires AllDigits(ds)
  {
    if ds == [] then 0 else 10 * IntValue(ds[..|ds| - 1]) + DigitValue(ds[|ds| - 1])
  }

  /** The value of the digits after a decimal point: 0.d1d2d3... */
  function FracValue(ds: string): real
    requires AllDigits(ds)
  {
    if ds == [] then 0.0 else (DigitValue(ds[0]) as real + FracValue(ds[1..])) / 10.0
  }

  /** A fraction lies in [0, 1), and above 0 when its last digit is not 0. */
  lemma {:induction false} FracValueBounds(ds: string)
    requires AllDigits(ds)
    ensures 0.0 <= FracValue(ds) < 1.0
    ensures ds != [] && ds[|ds| - 1] != '0' ==> 0.0 < FracValue(ds)
  {
    if ds != [] {
      FracValueBounds(ds[1..]);
    }
  }

  /**
   * The exact number `parseFloat` reads from the magnitude's text: the integer
   * digits give its whole part, the fraction digits what lies beyond it.
   */
  function Value(m: Decimal): (r: real)
    requires WellFormed(m)
    ensures IntValue(m.intDigits) as real <= r < IntValue(m.intDigits) as real + 1.0
  {
    FracValueBounds(m.fracDigits);
    IntValue(m.intDigits) as real + FracValue(m.fracDigits)
  }

  /** The number of leading decimal digits of `s`: the greedy match of `\d+`. */
  function DigitRun(s: string): (n: nat)
    ensures n <= |s|
    ensures AllDigits(s[..n])
    ensures n < |s| ==> !IsDigit(s[n])
  {
    if s == [] || !IsDigit(s[0]) then 0 else 1 + DigitRun(s[1..])
  }

  /** The number of trailing unit characters of `s`. */
  function UnitRun(s: string): (n: nat)
    ensures n <= |s|
    ensures AllUnitChars(s[|s| - n..])
    ensures n < |s| ==> !IsUnitChar(s[|s| - n - 1])
  {
    if s == [] || !IsUnitChar(s[|s| - 1]) then 0 else 1 + UnitRun(s[..|s| - 1])
  }

  /**
   * The match of ^(\d+\.\d+|\d+|\.\d+) at the start of `s`, alternatives tried
   * in order, or None when none of them matches.
   */
  function NumericPrefix(s: string): (r: Option<Decimal>)
    ensures r.Some? ==> WellFormed(r.value) && Text(r.value) <= s
    ensures r.None? <==> !(|s| > 0 && (IsDigit(s[0]) || (s[0] == '.' && |s| > 1 && IsDigit(s[1]))))
  {
    var n := DigitRun(s);
    if 0 < n < |s| && s[n] == '.' && DigitRun(s[n + 1..]) > 0 then
      var f := DigitRun(s[n + 1..]);
      DigitRunFrom(s, n + 1);
      TextIsPrefix(s, n, f);
      Some(Decimal(s[..n], s[n + 1..n + 1 + f]))
    else if n > 0 then
      Some(Decimal(s[..n], ""))
    else if |s| > 0 && s[0] == '.' && DigitRun(s[1..]) > 0 then
      var f := DigitRun(s[1..]);
      DigitRunFrom(s, 1);
      TextIsPrefix(s, 0, f);
      Some(Decimal("", s[1..1 + f]))
    else
      None
  }

  /** The digits of `s` read from index `i` on. */
  lemma DigitRunFrom(s: string, i: int)
    requires 0 <= i <= |s|
    ensures var f := DigitRun(s[i..]);
      i + f <= |s| && AllDigits(s[i..i + f]) && (i + f < |s| ==> !IsDigit(s[i + f]))
  {
    assert s[i..i + DigitRun(s[i..])] == s[i..][..DigitRun(s[i..])];
  }

  /** Digits, a point and digits read from the start of `s` form a prefix of `s`. */
  lemma TextIsPrefix(s: string, n: int, f: int)
    requires 0 <= n && 0 < f && n + 1 + f <= |s| && s[n] == '.'
    ensures Text(Decimal(s[..n], s[n + 1..n + 1 + f])) <= s
  {
    assert Text(Decimal(s[..n], s[n + 1..n + 1 + f])) == s[..n + 1 + f];
  }

  /** The match of [a-zA-Z%]+$, or "px" when the token does not end in a unit character. */
  function Unit(s: string): (u: string)
    ensures |u| > 0 && AllUnitChars(u)
  {
    var n := UnitRun(s);
    if n == 0 then
      assert IsUnitChar("px"[0]) && IsUnitChar("px"[1]);
      "px"
    else
      s[|s| - n..]
  }

  /** `parseValue`: None exactly when the token has no numeric prefix. */
  function Parse(s: string): (r: Option<ParsedSize>)
    ensures r.None? <==> NumericPrefix(s).None?
    ensures r.Some? ==> r.value.magnitude == NumericPrefix(s).value && r.value.unit == Unit(s)
    ensures r.Some? ==> WellFormed(r.value.magnitude)
  {
    match NumericPrefix(s)
    case None => None
    case Some(m) => Some(ParsedSize(m, Unit(s)))
  }

  // ---------------------------------------------------------------------
  // The regular expressions, as languages, and what the parser takes from them
  // ---------------------------------------------------------------------

  /**
   * Membership of `w` in the alternatives of (\d+\.\d+|\d+|\.\d+), numbered
   * 1, 2, 3 in the order the regular expression tries them.
   */
  ghost predicate InAlternative(alt: int, w: string) {
    if alt == 1 then
      exists k :: 0 < k < |w| - 1 && w[k] == '.' && AllDigits(w[..k]) && AllDigits(w[k + 1..])
    else if alt == 2 then
      |w| > 0 && AllDigits(w)
    else if alt == 3 then
      |w| > 1 && w[0] == '.' && AllDigits(w[1..])
    else
      false
  }

  /** The alternative a parsed magnitude was read by. */
  function AlternativeOf(m: Decimal): int {
    if m.intDigits == [] then 3 else if m.fracDigits == [] then 2 else 1
  }

  /** Every run of leading digits is at most the greedy one. */
  lemma {:induction false} DigitRunIsLongest(s: string, k: int)
    requires 0 <= k <= |s| && AllDigits(s[..k])
    ensures k <= DigitRun(s)
  {
    if k > 0 {
      assert IsDigit(s[..k][0]);
      assert s[1..][..k - 1] == s[..k][1..];
      DigitRunIsLongest(s[1..], k - 1);
    }
  }

  /** A run of leading digits followed by a non-digit, or by the end, is the greedy one. */
  lemma {:induction false} DigitRunAt(s: string, k: int)
    requires 0 <= k <= |s| && AllDigits(s[..k]) && (k == |s| || !IsDigit(s[k]))
    ensures DigitRun(s) == k
  {
    if k > 0 {
      assert IsDigit(s[..k][0]);
      assert s[1..][..k - 1] == s[..k][1..];
      DigitRunAt(s[1..], k - 1);
    }
  }

  /** The prefixes of `s` in the first alternative: `digits "." digits` with the point after the leading digits. */
  lemma FirstAlternativePrefix(s: string, j: int)
    requires 0 <= j <= |s| && InAlternative(1, s[..j])
    ensures var n := DigitRun(s);
      0 < n && n + 1 < j && s[n] == '.' && j - n - 1 <= DigitRun(s[n + 1..])
  {
    var w := s[..j];
    var k :| 0 < k < |w| - 1 && w[k] == '.' && AllDigits(w[..k]) && AllDigits(w[k + 1..]);
    FirstAlternativeSplit(s, j, k);
  }

  /** A first-alternative prefix split at its point `k`. */
  lemma FirstAlternativeSplit(s: string, j: int, k: int)
    requires 0 <= j <= |s| && 0 < k < j - 1 && s[k] == '.'
    requires AllDigits(s[..j][..k]) && AllDigits(s[..j][k + 1..])
    ensures var n := DigitRun(s);
      0 < n && n + 1 < j && s[n] == '.' && j - n - 1 <= DigitRun(s[n + 1..])
  {
    var w := s[..j];
    assert AllDigits(s[..k]) by {
      assert s[..k] == w[..k];
    }
    DigitRunAt(s, k);
    var t := s[k + 1..];
    assert AllDigits(t[..j - k - 1]) by {
      assert t[..j - k - 1] == w[k + 1..];
    }
    DigitRunIsLongest(t, j - k - 1);
  }

  /** The prefixes of `s` in the second alternative: non-empty runs of leading digits. */
  lemma SecondAlternativePrefix(s: string, j: int)
    requires 0 <= j <= |s| && InAlternative(2, s[..j])
    ensures 0 < j <= DigitRun(s)
  {
    DigitRunIsLongest(s, j);
  }

  /** The prefixes of `s` in the third alternative: a point and digits. */
  lemma ThirdAlternativePrefix(s: string, j: int)
    requires 0 <= j <= |s| && InAlternative(3, s[..j])
    ensures s[0] == '.' && 1 < j <= 1 + DigitRun(s[1..])
  {
    assert s[1..][..j - 1] == s[..j][1..];
    DigitRunIsLongest(s[1..], j - 1);
  }

  /**
   * The parser returns the regular expression's match: None when no prefix of
   * `s` lies in any alternative; otherwise a prefix in the first alternative
   * that matches any prefix, and the longest one in it (greedy `\d+`).
   */
  lemma {:induction false} NumericPrefixIsRegexMatch(s: string)
    ensures NumericPrefix(s).None? ==>
      forall alt, j :: 0 <= j <= |s| ==> !InAlternative(alt, s[..j])
    ensures NumericPrefix(s).Some? ==>
      var m := NumericPrefix(s).value;
      var alt := AlternativeOf(m);
      && Text(m) <= s
      && InAlternative(alt, Text(m))
      && (forall a, j :: 1 <= a < alt && 0 <= j <= |s| ==> !InAlternative(a, s[..j]))
      && (forall j :: 0 <= j <= |s| && InAlternative(alt, s[..j]) ==> j <= |Text(m)|)
  {
    var n := DigitRun(s);
    forall alt, j | 0 <= j <= |s| && InAlternative(alt, s[..j])
      ensures alt == 1 ==> 0 < n && n + 1 < j && s[n] == '.' && j - n - 1 <= DigitRun(s[n + 1..])
      ensures alt == 2 ==> 0 < j <= n
      ensures alt == 3 ==> s[0] == '.' && 1 < j <= 1 + DigitRun(s[1..])
      ensures 1 <= alt <= 3
    {
      if alt == 1 { FirstAlternativePrefix(s, j); }
      else if alt == 2 { SecondAlternativePrefix(s, j); }
      else if alt == 3 { ThirdAlternativePrefix(s, j); }
    }
    match NumericPrefix(s)
    case None =>
    case Some(m) =>
      var t := Text(m);
      if AlternativeOf(m) == 1 {
        assert t[n] == '.' && t[..n] == m.intDigits && t[n + 1..] == m.fracDigits;
        assert InAlternative(1, t);
      } else if AlternativeOf(m) == 3 {
        assert t[1..] == m.fracDigits;
      }
  }

  /**
   * Trying the alternatives in order gives the longest prefix matched by any of
   * them: the magnitude is the longest numeric prefix.
   */
  lemma NumericPrefixIsLongest(s: string)
    requires NumericPrefix(s).Some?
    ensures forall alt, j :: 0 <= j <= |s| && InAlternative(alt, s[..j]) ==>
      j <= |Text(NumericPrefix(s).value)|
  {
    NumericPrefixIsRegexMatch(s);
    var m := NumericPrefix(s).value;
    var n := DigitRun(s);
    forall alt, j | 0 <= j <= |s| && InAlternative(alt, s[..j])
      ensures j <= |Text(m)|
    {
      if alt == 2 { SecondAlternativePrefix(s, j); }
      else if alt == 3 { ThirdAlternativePrefix(s, j); }
    }
  }

  /** `s` ends, from index `i` on, in a non-empty run of unit characters: [a-zA-Z%]+$ matches there. */
  ghost predicate UnitSuffixAt(s: string, i: int) {
    0 <= i < |s| && AllUnitChars(s[i..])
  }

  /** Every run of trailing unit characters is at most the greedy one. */
  lemma {:induction false} UnitRunIsLongest(s: string, i: int)
    requires 0 <= i <= |s| && AllUnitChars(s[i..])
    ensures |s| - i <= UnitRun(s)
  {
    if i < |s| {
      assert IsUnitChar(s[i..][|s| - 1 - i]);
      assert s[..|s| - 1][i..] == s[i..][..|s| - 1 - i];
      UnitRunIsLongest(s[..|s| - 1], i);
    }
  }

  /**
   * The unit is the match of [a-zA-Z%]+$, which starts at the leftmost index
   * it can: the longest all-unit-character suffix of the whole token, or "px"
   * when the token has none.
   */
  lemma UnitIsLongestUnitSuffix(s: string)
    ensures (forall i :: !UnitSuffixAt(s, i)) ==> Unit(s) == "px"
    ensures (exists i :: UnitSuffixAt(s, i)) ==>
      |Unit(s)| <= |s| && UnitSuffixAt(s, |s| - |Unit(s)|) && Unit(s) == s[|s| - |Unit(s)|..]
    ensures forall i :: UnitSuffixAt(s, i) ==> |s| - |Unit(s)| <= i
  {
    var n := UnitRun(s);
    forall i | UnitSuffixAt(s, i)
      ensures |s| - n <= i
    {
      UnitRunIsLongest(s, i);
    }
    if n > 0 {
      assert UnitSuffixAt(s, |s| - n);
    }
  }
  /** A run of trailing unit characters preceded by a non-unit character, or by nothing, is the greedy one. */
  lemma {:induction false} UnitRunAt(s: string, k: int)
    requires 0 <= k <= |s| && AllUnitChars(s[|s| - k..])
    requires k == |s| || !IsUnitChar(s[|s| - k - 1])
    ensures UnitRun(s) == k
  {
    if k > 0 {
      var p := s[..|s| - 1];
      assert IsUnitChar(s[|s| - k..][k - 1]);
      assert p[|p| - (k - 1)..] == s[|s| - k..][..k - 1];
      UnitRunAt(p, k - 1);
    }
  }

  // ---------------------------------------------------------------------
  // Reading a token whose shape is known
  // ---------------------------------------------------------------------

  /** Digits not followed by `"." digit` are read by the second alternative. */
  lemma NumericPrefixInteger(s: string, k: int)
    requires 0 < k <= |s| && AllDigits(s[..k])
    requires k == |s| || (!IsDigit(s[k]) && (s[k] != '.' || k + 1 == |s| || !IsDigit(s[k + 1])))
    ensures NumericPrefix(s) == Some(Decimal(s[..k], ""))
  {
    DigitRunAt(s, k);
  }

  /** Digits, a point and digits are read by the first alternative. */
  lemma NumericPrefixDecimal(s: string, k: int, f: int)
    requires 0 < k && 0 < f && k + 1 + f <= |s| && AllDigits(s[..k]) && s[k] == '.'
    requires AllDigits(s[k + 1..k + 1 + f]) && (k + 1 + f == |s| || !IsDigit(s[k + 1 + f]))
    ensures NumericPrefix(s) == Some(Decimal(s[..k], s[k + 1..k + 1 + f]))
  {
    DigitRunAt(s, k);
    assert s[k + 1..][..f] == s[k + 1..k + 1 + f];
    DigitRunAt(s[k + 1..], f);
  }

  /** A point and digits are read by the third alternative. */
  lemma NumericPrefixFraction(s: string, f: int)
    requires 0 < f && 1 + f <= |s| && s[0] == '.'
    requires AllDigits(s[1..1 + f]) && (1 + f == |s| || !IsDigit(s[1 + f]))
    ensures NumericPrefix(s) == Some(Decimal("", s[1..1 + f]))
  {
    assert s[1..][..f] == s[1..1 + f];
    DigitRunAt(s[1..], f);
  }

  /** "1.5.3" is read by the first alternative up to its second point: 1.5. */
  lemma MagnitudeStopsAtSecondPoint()
    ensures NumericPrefix("1.5.3") == Some(Decimal("1", "5")) && Value(Decimal("1", "5")) == 1.5
  {
    NumericPrefixDecimal("1.5.3", 1, 1);
    assert "1.5.3"[..1] == "1" && "1.5.3"[2..3] == "5";
  }

  /** "1." has no fraction digits, so the second alternative reads 1. */
  lemma MagnitudeIgnoresBarePoint()
    ensures NumericPrefix("1.") == Some(Decimal("1", "")) && Value(Decimal("1", "")) == 1.0
  {
    NumericPrefixInteger("1.", 1);
    assert "1."[..1] == "1";
  }

  /** ".5vw" is read by the third alternative: 0.5. */
  lemma MagnitudeWithoutIntegerPart()
    ensures NumericPrefix(".5vw") == Some(Decimal("", "5")) && Value(Decimal("", "5")) == 0.5
  {
    NumericPrefixFraction(".5vw", 1);
    assert ".5vw"[1..2] == "5";
  }

  /** "42.5%" reads 42.5 in unit "%". */
  lemma ParsePercentage()
    ensures Parse("42.5%") == Some(ParsedSize(Decimal("42", "5"), "%")) && Value(Decimal("42", "5")) == 42.5
  {
    NumericPrefixDecimal("42.5%", 2, 1);
    assert "42.5%"[..2] == "42" && "42.5%"[3..4] == "5";
    UnitRunAt("42.5%", 1);
    assert "42"[..1] == "4";
    assert IntValue("4") == 4;
    assert IntValue("42") == 42;
    assert FracValue("5") == 0.5;
  }

  /** Tokens without a numeric prefix do not parse. */
  lemma NoMatchExamples()
    ensures Parse("") == None && Parse("abc") == None && Parse("-5px") == None
  {
  }

  /** The unit is the trailing run of letters and `%` of the whole token, else "px". */
  lemma UnitExamples()
    ensures Unit("20") == "px" && Unit("42.5%") == "%" && Unit("20xyz!") == "px"
    ensures Unit("20foo") == "foo" && Unit(".5vw") == "vw"
  {
    UnitRunAt("20", 0);
    UnitRunAt("42.5%", 1);
    UnitRunAt("20xyz!", 0);
    UnitRunAt("20foo", 3);
    UnitRunAt(".5vw", 2);
  }
}
