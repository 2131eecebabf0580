/**
 * The two callbacks the plugin registers with the host: the `@container`
 * utility, which marks an element as a query container, and the `@` variant,
 * which turns a size token and a modifier into a container-query selector.
 */
module ContainerQueries {
  import opened Wrappers
  import opened SizeToken
  import opened NumberText

  // ---------------------------------------------------------------------
  // The `@container` utility
  // ---------------------------------------------------------------------

  /** The style declarations `{ "container-type": ..., "container-name": ... }`. */
  datatype ContainerDeclaration = ContainerDeclaration(containerType: string, containerName: string)

  /** The utility: the value is the container type, the modifier names the container, "default" when absent. */
  function ContainerUtility(value: string, modifier: Option<string>): (d: ContainerDeclaration)
    ensures d.containerType == value
    ensures modifier.Some? ==> d.containerName == modifier.value
    ensures modifier.None? ==> d.containerName == "default"
  {
    ContainerDeclaration(value, modifier.GetOr("default"))
  }

  // ---------------------------------------------------------------------
  // The `@` variant
  // ---------------------------------------------------------------------

  /** `s.includes(t)`, tried at each position of `s` in turn. */
  function Includes(s: string, t: string): (r: bool)
    ensures t <= s ==> r
    ensures r ==> |t| <= |s|
  {
    if t <= s then true
    else if s == [] then false
    else Includes(s[1..], t)
  }

  /** `t` occurs in `s` starting at index `i`. */
  ghost predicate OccursAt(s: string, t: string, i: int) {
    0 <= i && i + |t| <= |s| && s[i..i + |t|] == t
  }

  /** The search finds `t` exactly when it occurs somewhere in `s`. */
  lemma {:induction false} IncludesIff(s: string, t: string)
    ensures Includes(s, t) <==> exists i :: OccursAt(s, t, i)
  {
    if t <= s {
      assert OccursAt(s, t, 0);
    } else if s == [] {
      assert forall i :: !OccursAt(s, t, i);
    } else {
      IncludesIff(s[1..], t);
      if i :| OccursAt(s[1..], t, i) {
        assert s[i + 1..i + 1 + |t|] == s[1..][i..i + |t|];
        assert OccursAt(s, t, i + 1);
      }
      assert !OccursAt(s, t, 0);
      forall i | OccursAt(s, t, i) && i > 0
        ensures OccursAt(s[1..], t, i - 1)
      {
        assert s[1..][i - 1..i - 1 + |t|] == s[i..i + |t|];
      }
    }
  }

  /** `modifier?.includes("height") ? "min-height" : "min-width"`. */
  function Dimension(modifier: Option<string>): (d: string)
    ensures d == "min-height" || d == "min-width"
    ensures modifier.None? ==> d == "min-width"
  {
    if modifier.Some? && Includes(modifier.value, "height") then "min-height" else "min-width"
  }

  /**
   * The query is on the height exactly when the modifier contains "height"
   * anywhere (so "maxheight" and "heights" count too); otherwise, and with no
   * modifier, it is on the width.
   */
  lemma DimensionIsHeightIff(modifier: Option<string>)
    ensures Dimension(modifier) == "min-height" <==>
      modifier.Some? && exists i :: OccursAt(modifier.value, "height", i)
    ensures Dimension(modifier) != "min-height" ==> Dimension(modifier) == "min-width"
  {
    if modifier.Some? {
      IncludesIff(modifier.value, "height");
    }
  }

  /**
   * The variant callback. The token defaults to "" when absent; a token that
   * does not parse gives no selector (the empty list), one that does gives
   * `@container <modifier or ""> (<dimension>: <number><unit>)`.
   */
  function VariantSelector(value: Option<string>, modifier: Option<string>): (r: seq<string>)
    ensures |r| <= 1
    ensures r == [] <==> Parse(value.GetOr("")).None?
  {
    match Parse(value.GetOr(""))
    case None => []
    case Some(p) =>
      var size := Render(p.magnitude) + p.unit;
      ["@container " + modifier.GetOr("") + " (" + Dimension(modifier) + ": " + size + ")"]
  }

  /** `size` is read back as the magnitude and the unit of `p`. */
  ghost predicate ReadsBackAs(size: string, p: ParsedSize)
    requires WellFormed(p.magnitude)
  {
    var q := Parse(size);
    q.Some? && Value(q.value.magnitude) == Value(p.magnitude) && q.value.unit == p.unit
  }

  /**
   * A token that parses gives one selector whose scope is the modifier (or
   * nothing), whose dimension is the one the modifier picks, and whose size
   * text, the printed number followed by the unit, reads back as the token's
   * own magnitude and unit.
   */
  lemma VariantSelectorQueriesTokenSize(value: Option<string>, modifier: Option<string>)
    requires Parse(value.GetOr("")).Some?
    ensures var p := Parse(value.GetOr("")).value;
      var r := VariantSelector(value, modifier);
      var size := Render(p.magnitude) + p.unit;
      && |r| == 1
      && r[0] == "@container " + modifier.GetOr("") + " (" + Dimension(modifier) + ": " + size + ")"
      && ReadsBackAs(size, p)
  {
    var p := Parse(value.GetOr("")).value;
    RenderRoundTrip(p);
  }

  /** Without a token (the default "") no selector is produced. */
  lemma VariantSelectorDefaultToken(modifier: Option<string>)
    ensures VariantSelector(None, modifier) == []
  {
  }

  /** The selector text for a token that reads as `p`. */
  lemma VariantSelectorText(value: Option<string>, modifier: Option<string>, p: ParsedSize)
    requires Parse(value.GetOr("")) == Some(p)
    ensures VariantSelector(value, modifier)
      == ["@container " + modifier.GetOr("") + " (" + Dimension(modifier) + ": " + (Render(p.magnitude) + p.unit) + ")"]
  {
  }

  /** The text of a width query at 20rem without a scope. */
  lemma WidthQueryText()
    ensures "@container " + "" + " (" + "min-width" + ": " + ("20" + "rem") + ")" == "@container  (min-width: 20rem)"
  {
  }

  /** "20rem" with no modifier: an empty scope between two spaces, a width query, "20rem" as written. */
  lemma VariantSelectorExample()
    ensures VariantSelector(Some("20rem"), None) == ["@container  (min-width: 20rem)"]
  {
    var p := ParsedSize(Decimal("20", ""), "rem");
    ParseTwentyRem();
    RenderTwenty(p.magnitude);
    VariantSelectorText(Some("20rem"), None, p);
    WidthQueryText();
  }

  /** Equal numbers print alike: "20.0rem" also queries at "20rem". */
  lemma VariantSelectorTrailingZeroExample()
    ensures VariantSelector(Some("20.0rem"), None) == ["@container  (min-width: 20rem)"]
  {
    var p := ParsedSize(Decimal("20", "0"), "rem");
    ParseTwentyPointZeroRem();
    RenderTwenty(p.magnitude);
    VariantSelectorText(Some("20.0rem"), None, p);
    WidthQueryText();
  }

  lemma ParseTwentyRem()
    ensures Parse("20rem") == Some(ParsedSize(Decimal("20", ""), "rem"))
  {
    NumericPrefixInteger("20rem", 2);
    assert "20rem"[..2] == "20";
    UnitRunAt("20rem", 3);
    assert "20rem"[2..] == "rem";
  }

  lemma ParseTwentyPointZeroRem()
    ensures Parse("20.0rem") == Some(ParsedSize(Decimal("20", "0"), "rem"))
  {
    NumericPrefixDecimal("20.0rem", 2, 1);
    assert "20.0rem"[..2] == "20" && "20.0rem"[3..4] == "0";
    UnitRunAt("20.0rem", 3);
    assert "20.0rem"[4..] == "rem";
  }

  lemma RenderTwenty(m: Decimal)
    requires m == Decimal("20", "") || m == Decimal("20", "0")
    ensures Render(m) == "20"
  {
    assert StripLeadingZeros("20") == "20";
    assert StripTrailingZeros("0") == "";
  }
}
