/**
 * How the plugin prints a parsed magnitude inside a query: JavaScript's
 * number-to-string conversion of the value `parseFloat` read. For the values
 * a size token yields this is the canonical decimal: no leading zeros in the
 * integer part (but "0" when it is zero), no trailing zeros in the fraction
 * and no point when the fraction is zero ("20.0" prints as "20", ".5" as "0.5").
 */
module NumberText {
  import opened Wrappers
  import opened SizeToken

  function StripLeadingZeros(ds: string): (r: string)
    ensures |r| <= |ds| && r == ds[|ds| - |r|..]
    ensures r == [] || r[0] != '0'
    ensures forall i :: 0 <= i < |ds| - |r| ==> ds[i] == '0'
  {
    if ds != [] && ds[0] == '0' then StripLeadingZeros(ds[1..]) else ds
  }

  function StripTrailingZeros(ds: string): (r: string)
    ensures |r| <= |ds| && r == ds[..|r|]
    ensures r == [] || r[|r| - 1] != '0'
    ensures forall i :: |r| <= i < |ds| ==> ds[i] == '0'
  {
    if ds != [] && ds[|ds| - 1] == '0' then StripTrailingZeros(ds[..|ds| - 1]) else ds
  }

  /** The shape of a printed number: an integer part without superfluous zeros and a fraction without trailing zeros. */
  predicate IsCanonical(m: Decimal) {
    && WellFormed(m)
    && |m.intDigits| > 0
    && (m.intDigits == "0" || m.intDigits[0] != '0')
    && (m.fracDigits == [] || m.fracDigits[|m.fracDigits| - 1] != '0')
  }

  /** The magnitude as JavaScript prints it, still split into its two digit strings. */
  function Canonical(m: Decimal): (c: Decimal)
    requires WellFormed(m)
    ensures IsCanonical(c)
  {
    var i := StripLeadingZeros(m.intDigits);
    Decimal(if i == [] then "0" else i, StripTrailingZeros(m.fracDigits))
  }

  /** `${parsed.numeric}`: the text of the magnitude's value. */
  function Render(m: Decimal): (r: string)
    requires WellFormed(m)
    ensures |r| > 0 && IsDigit(r[|r| - 1])
  {
    Text(Canonical(m))
  }

  function Pow10(n: nat): nat {
    if n == 0 then 1 else 10 * Pow10(n - 1)
  }

  // ---------------------------------------------------------------------
  // Value facts about digit strings
  // ---------------------------------------------------------------------

  /** A leading zero does not change an integer's value. */
  lemma {:induction false} IntValueLeadingZero(ds: string)
    requires AllDigits(ds)
    ensures IntValue("0" + ds) == IntValue(ds)
  {
    if ds != [] {
      assert ("0" + ds)[..|ds|] == "0" + ds[..|ds| - 1];
      IntValueLeadingZero(ds[..|ds| - 1]);
    }
  }

  lemma {:induction false} IntValueStripLeadingZeros(ds: string)
    requires AllDigits(ds)
    ensures IntValue(StripLeadingZeros(ds)) == IntValue(ds)
  {
    if ds != [] && ds[0] == '0' {
      IntValueStripLeadingZeros(ds[1..]);
      assert ds == "0" + ds[1..];
      IntValueLeadingZero(ds[1..]);
    }
  }

  /** A trailing zero does not change a fraction's value. */
  lemma {:induction false} FracValueTrailingZero(ds: string)
    requires AllDigits(ds)
    ensures FracValue(ds + "0") == FracValue(ds)
  {
    if ds != [] {
      assert (ds + "0")[1..] == ds[1..] + "0";
      FracValueTrailingZero(ds[1..]);
    }
  }

  lemma {:induction false} FracValueStripTrailingZeros(ds: string)
    requires AllDigits(ds)
    ensures FracValue(StripTrailingZeros(ds)) == FracValue(ds)
  {
    if ds != [] && ds[|ds| - 1] == '0' {
      var p := ds[..|ds| - 1];
      FracValueStripTrailingZeros(p);
      assert ds == p + "0";
      FracValueTrailingZero(p);
    }
  }

  /** Printing keeps the value: the canonical form denotes the number that was parsed. */
  lemma CanonicalValue(m: Decimal)
    requires WellFormed(m)
    ensures Value(Canonical(m)) == Value(m)
  {
    IntValueStripLeadingZeros(m.intDigits);
    FracValueStripTrailingZeros(m.fracDigits);
  }

  lemma {:induction false} IntValueBounds(ds: string)
    requires AllDigits(ds)
    ensures IntValue(ds) < Pow10(|ds|)
    ensures ds != [] && ds[0] != '0' ==> Pow10(|ds| - 1) <= IntValue(ds)
  {
    if ds != [] {
      var p := ds[..|ds| - 1];
      IntValueBounds(p);
      if |ds| > 1 {
        assert p[0] == ds[0];
      }
    }
  }

  lemma {:induction false} IntValueInjective(a: string, b: string)
    requires AllDigits(a) && AllDigits(b) && |a| == |b|
    requires IntValue(a) == IntValue(b)
    ensures a == b
  {
    if a != [] {
      var n := |a| - 1;
      IntValueInjective(a[..n], b[..n]);
      assert a == a[..n] + [a[n]] && b == b[..n] + [b[n]];
    }
  }

  lemma {:induction false} FracValueInjective(a: string, b: string)
    requires AllDigits(a) && AllDigits(b)
    requires a == [] || a[|a| - 1] != '0'
    requires b == [] || b[|b| - 1] != '0'
    requires FracValue(a) == FracValue(b)
    ensures a == b
  {
    FracValueBounds(a);
    FracValueBounds(b);
    if a != [] && b != [] {
      FracValueBounds(a[1..]);
      FracValueBounds(b[1..]);
      WholePart(DigitValue(a[0]), FracValue(a[1..]), DigitValue(b[0]), FracValue(b[1..]));
      FracValueInjective(a[1..], b[1..]);
      assert a == [a[0]] + a[1..] && b == [b[0]] + b[1..];
    }
  }

  /** A whole number plus a part in [0, 1) determines both. */
  lemma WholePart(d: int, x: real, e: int, y: real)
    requires 0.0 <= x < 1.0 && 0.0 <= y < 1.0
    requires d as real + x == e as real + y
    ensures d == e && x == y
  {
  }

  lemma CanonicalIntInjective(a: string, b: string)
    requires AllDigits(a) && AllDigits(b) && |a| > 0 && |b| > 0
    requires a == "0" || a[0] != '0'
    requires b == "0" || b[0] != '0'
    requires IntValue(a) == IntValue(b)
    ensures a == b
  {
    IntValueBounds(a);
    IntValueBounds(b);
    PowMonotone(|a|, |b|);
    PowMonotone(|b|, |a|);
    IntValueInjective(a, b);
  }

  /** A shorter digit string is below the least value a longer one without leading zero can have. */
  lemma {:induction false} PowMonotone(i: nat, j: nat)
    ensures i < j ==> Pow10(i) <= Pow10(j - 1)
  {
    if i + 1 < j {
      PowMonotone(i, j - 1);
    }
  }

  /**
   * The printed text depends on the value alone: two magnitudes denoting the
   * same number print the same ("20", "20.0", "020.00" all print "20"), as
   * printing a JavaScript number does.
   */
  lemma RenderDependsOnlyOnValue(m1: Decimal, m2: Decimal)
    requires WellFormed(m1) && WellFormed(m2)
    requires Value(m1) == Value(m2)
    ensures Render(m1) == Render(m2)
  {
    var c1, c2 := Canonical(m1), Canonical(m2);
    CanonicalValue(m1);
    CanonicalValue(m2);
    assert Value(c1) == Value(c2);
    assert IntValue(c1.intDigits) == IntValue(c2.intDigits);
    CanonicalIntInjective(c1.intDigits, c2.intDigits);
    assert FracValue(c1.fracDigits) == FracValue(c2.fracDigits);
    FracValueInjective(c1.fracDigits, c2.fracDigits);
  }

  // ---------------------------------------------------------------------
  // Reading a printed size back
  // ---------------------------------------------------------------------

  /** A canonical magnitude followed by a character that cannot continue a number is read back whole. */
  lemma NumericPrefixOfCanonical(c: Decimal, u: string)
    requires IsCanonical(c) && |u| > 0 && !IsDigit(u[0]) && u[0] != '.'
    ensures NumericPrefix(Text(c) + u) == Some(c)
  {
    var t := Text(c) + u;
    var k := |c.intDigits|;
    assert t[..k] == c.intDigits;
    if c.fracDigits != [] {
      var f := |c.fracDigits|;
      assert t[k] == '.';
      assert t[k + 1..k + 1 + f] == c.fracDigits;
      assert t[k + 1 + f] == u[0];
      NumericPrefixDecimal(t, k, f);
    } else {
      assert t[k] == u[0];
      NumericPrefixInteger(t, k);
    }
  }

  /** A unit written right after a character that is not a unit character is the token's unit. */
  lemma UnitAfterNonUnitChar(t: string, u: string)
    requires |t| > 0 && !IsUnitChar(t[|t| - 1]) && |u| > 0 && AllUnitChars(u)
    ensures Unit(t + u) == u
  {
    var s := t + u;
    assert s[|s| - |u|..] == u;
    assert s[|s| - |u| - 1] == t[|t| - 1];
    UnitRunAt(s, |u|);
  }

  /**
   * A printed magnitude followed by a unit parses back to the canonical
   * magnitude and that very unit: the query text round-trips.
   */
  lemma ParseRenderedSize(m: Decimal, u: string)
    requires WellFormed(m) && |u| > 0 && AllUnitChars(u)
    ensures Parse(Render(m) + u) == Some(ParsedSize(Canonical(m), u))
  {
    assert IsUnitChar(u[0]);
    NumericPrefixOfCanonical(Canonical(m), u);
    UnitAfterNonUnitChar(Render(m), u);
  }

  /** Printing a parsed size and reading it back gives the same number and the same unit. */
  lemma RenderRoundTrip(p: ParsedSize)
    requires WellFormed(p.magnitude) && |p.unit| > 0 && AllUnitChars(p.unit)
    ensures var q := Parse(Render(p.magnitude) + p.unit);
      q.Some? && q.value.unit == p.unit && Value(q.value.magnitude) == Value(p.magnitude)
  {
    ParseRenderedSize(p.magnitude, p.unit);
    CanonicalValue(p.magnitude);
  }
}
