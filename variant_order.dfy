/**
 * The `sort(aVariant, zVariant)` comparator the plugin hands to the host for
 * ordering its `@` variants. The result is a number whose sign is the order:
 * negative puts `a` first, positive puts `z` first, zero keeps them as they are.
 * The English, numeric-aware label collation (`localeCompare`) is a parameter.
 */
module VariantOrder {
  import opened Wrappers
  import opened SizeToken

  /** A registered variant: its size token and its optional modifier (label). */
  datatype Variant = Variant(value: string, modifier: Option<string>)

  /** `variant.modifier ?? ""`. */
  function Label(v: Variant): (l: string)
    ensures v.modifier.Some? ==> l == v.modifier.value
    ensures v.modifier.None? ==> l == ""
  {
    v.modifier.GetOr("")
  }

  function Sign(x: real): int {
    if x < 0.0 then -1 else if x > 0.0 then 1 else 0
  }

  /** The comparator: magnitudes first (units ignored), then non-empty labels before empty ones, then the collation. */
  function Compare(a: Variant, z: Variant, localeCompare: (string, string) -> int): (r: real)
    ensures Parse(a.value).None? || Parse(z.value).None? ==> r == 0.0
  {
    match (Parse(a.value), Parse(z.value))
    case (Some(pa), Some(pz)) => CompareParsed(Value(pa.magnitude), Label(a), Value(pz.magnitude), Label(z), localeCompare)
    case _ => 0.0
  }

  /** The comparator once both tokens have parsed, on their numbers and labels. */
  function CompareParsed(aNumeric: real, aLabel: string, zNumeric: real, zLabel: string,
                         localeCompare: (string, string) -> int): (r: real)
    ensures aNumeric < zNumeric ==> r < 0.0
    ensures aNumeric > zNumeric ==> r > 0.0
    ensures aNumeric == zNumeric && aLabel == "" && zLabel != "" ==> r > 0.0
    ensures aNumeric == zNumeric && aLabel != "" && zLabel == "" ==> r < 0.0
    ensures aNumeric == zNumeric && aLabel != "" && zLabel != "" ==> r == localeCompare(aLabel, zLabel) as real
  {
    var d := aNumeric - zNumeric;
    if d != 0.0 then d
    else if aLabel == "" && zLabel != "" then 1.0
    else if aLabel != "" && zLabel == "" then -1.0
    else localeCompare(aLabel, zLabel) as real
  }

  /** The collation orders every pair in opposite directions when the arguments are swapped. */
  ghost predicate Antisymmetric(localeCompare: (string, string) -> int) {
    forall x, y :: (localeCompare(x, y) < 0 <==> localeCompare(y, x) > 0)
  }

  /** The collation's "not after" is transitive. */
  ghost predicate Transitive(localeCompare: (string, string) -> int) {
    forall x, y, w :: localeCompare(x, y) <= 0 && localeCompare(y, w) <= 0 ==> localeCompare(x, w) <= 0
  }

  /** An entry whose token does not parse is equal to everything, whatever the labels. */
  lemma CompareUnparseable(a: Variant, z: Variant, localeCompare: (string, string) -> int)
    requires Parse(a.value).None? || Parse(z.value).None?
    ensures Compare(a, z, localeCompare) == 0.0
  {
  }

  /** Different magnitudes decide the order by their difference alone; units and labels play no part. */
  lemma CompareByMagnitude(a: Variant, z: Variant, localeCompare: (string, string) -> int)
    requires Parse(a.value).Some? && Parse(z.value).Some?
    requires Value(Parse(a.value).value.magnitude) != Value(Parse(z.value).value.magnitude)
    ensures Sign(Compare(a, z, localeCompare)) ==
      Sign(Value(Parse(a.value).value.magnitude) - Value(Parse(z.value).value.magnitude))
  {
  }

  /** Swapping a token for another of the same magnitude, in any unit, leaves every comparison unchanged. */
  lemma CompareIgnoresUnits(a: Variant, a': Variant, z: Variant, localeCompare: (string, string) -> int)
    requires Parse(a.value).Some? && Parse(a'.value).Some?
    requires Value(Parse(a.value).value.magnitude) == Value(Parse(a'.value).value.magnitude)
    requires a.modifier == a'.modifier
    ensures Compare(a, z, localeCompare) == Compare(a', z, localeCompare)
    ensures Compare(z, a, localeCompare) == Compare(z, a', localeCompare)
  {
    if Parse(z.value).Some? {
      CompareWhenParsed(a, z, localeCompare);
      CompareWhenParsed(a', z, localeCompare);
      CompareWhenParsed(z, a, localeCompare);
      CompareWhenParsed(z, a', localeCompare);
    }
  }

  /** The comparison of two entries whose tokens parse. */
  lemma CompareWhenParsed(a: Variant, z: Variant, localeCompare: (string, string) -> int)
    requires Parse(a.value).Some? && Parse(z.value).Some?
    ensures Compare(a, z, localeCompare)
         == CompareParsed(Value(Parse(a.value).value.magnitude), Label(a),
                          Value(Parse(z.value).value.magnitude), Label(z), localeCompare)
  {
  }

  /**
   * On equal magnitudes an empty or absent label goes last, two empty labels
   * are equal (given a collation that finds equal strings equal), and two
   * non-empty labels follow the collation.
   */
  lemma CompareTieBreak(a: Variant, z: Variant, localeCompare: (string, string) -> int)
    requires Parse(a.value).Some? && Parse(z.value).Some?
    requires Value(Parse(a.value).value.magnitude) == Value(Parse(z.value).value.magnitude)
    ensures Label(a) == "" && Label(z) != "" ==> Compare(a, z, localeCompare) == 1.0
    ensures Label(a) != "" && Label(z) == "" ==> Compare(a, z, localeCompare) == -1.0
    ensures Label(a) == "" && Label(z) == "" && Antisymmetric(localeCompare) ==> Compare(a, z, localeCompare) == 0.0
    ensures Label(a) != "" && Label(z) != "" ==> Compare(a, z, localeCompare) == localeCompare(Label(a), Label(z)) as real
  {
  }

  /** Swapping the arguments flips the sign of the comparison (or both are zero). */
  lemma CompareAntisymmetric(a: Variant, z: Variant, localeCompare: (string, string) -> int)
    requires Antisymmetric(localeCompare)
    ensures Sign(Compare(a, z, localeCompare)) == -Sign(Compare(z, a, localeCompare))
  {
    match (Parse(a.value), Parse(z.value))
    case (Some(pa), Some(pz)) =>
      CompareParsedAntisymmetric(Value(pa.magnitude), Label(a), Value(pz.magnitude), Label(z), localeCompare);
    case _ =>
  }

  lemma CompareParsedAntisymmetric(pa: real, aLabel: string, pz: real, zLabel: string,
                                   localeCompare: (string, string) -> int)
    requires Antisymmetric(localeCompare)
    ensures Sign(CompareParsed(pa, aLabel, pz, zLabel, localeCompare))
         == -Sign(CompareParsed(pz, zLabel, pa, aLabel, localeCompare))
  {
    assert localeCompare(aLabel, zLabel) < 0 <==> localeCompare(zLabel, aLabel) > 0;
    assert localeCompare(zLabel, aLabel) < 0 <==> localeCompare(aLabel, zLabel) > 0;
  }

  /**
   * Among entries whose tokens all parse, the comparator is a consistent
   * ordering: "not after" is transitive when the collation's is.
   */
  lemma CompareTransitiveOnParsed(a: Variant, b: Variant, c: Variant, localeCompare: (string, string) -> int)
    requires Parse(a.value).Some? && Parse(b.value).Some? && Parse(c.value).Some?
    requires Transitive(localeCompare)
    requires Compare(a, b, localeCompare) <= 0.0 && Compare(b, c, localeCompare) <= 0.0
    ensures Compare(a, c, localeCompare) <= 0.0
  {
    var pa, pb, pc := Parse(a.value).value, Parse(b.value).value, Parse(c.value).value;
    CompareWhenParsed(a, b, localeCompare);
    CompareWhenParsed(b, c, localeCompare);
    CompareWhenParsed(a, c, localeCompare);
    CompareParsedTransitive(Value(pa.magnitude), Label(a), Value(pb.magnitude), Label(b),
                            Value(pc.magnitude), Label(c), localeCompare);
  }

  lemma CompareParsedTransitive(pa: real, la: string, pb: real, lb: string, pc: real, lc: string,
                                localeCompare: (string, string) -> int)
    requires Transitive(localeCompare)
    requires CompareParsed(pa, la, pb, lb, localeCompare) <= 0.0
    requires CompareParsed(pb, lb, pc, lc, localeCompare) <= 0.0
    ensures CompareParsed(pa, la, pc, lc, localeCompare) <= 0.0
  {
    if la != "" && lb != "" && lc != "" {
      assert localeCompare(la, lb) <= 0 && localeCompare(lb, lc) <= 0 ==> localeCompare(la, lc) <= 0;
    }
  }

  /**
   * Once an unparseable token is among them, "equal" is not transitive: "10"
   * equals "auto" and "auto" equals "5", yet "5" goes before "10". The
   * comparator then is no consistent ordering, and what a sort makes of such a
   * list is up to the host's sorting algorithm.
   */
  lemma CompareNotConsistentWithUnparseable(localeCompare: (string, string) -> int)
    ensures var ten, auto, five := Variant("10", None), Variant("auto", None), Variant("5", None);
      && Compare(ten, auto, localeCompare) == 0.0
      && Compare(auto, five, localeCompare) == 0.0
      && Compare(five, ten, localeCompare) < 0.0
  {
    NumericPrefixInteger("10", 2);
    NumericPrefixInteger("5", 1);
    assert "10"[..2] == "10" && "5"[..1] == "5";
    assert "10"[..1] == "1";
    assert IntValue("10") == 10;
    assert Parse("auto").None?;
  }

  /** Tokens in different units still order by magnitude alone: "24rem" before "320px". */
  lemma CompareAcrossUnits(localeCompare: (string, string) -> int)
    ensures Compare(Variant("24rem", None), Variant("320px", None), localeCompare) < 0.0
  {
    NumericPrefixInteger("24rem", 2);
    NumericPrefixInteger("320px", 3);
    assert "24rem"[..2] == "24" && "320px"[..3] == "320";
    assert "24"[..1] == "2" && "320"[..2] == "32" && "32"[..1] == "3";
    assert IntValue("24") == 24;
    assert IntValue("320") == 320;
  }
}
