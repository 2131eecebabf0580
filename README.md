# Container queries for a utility-class toolkit — a Dafny model

The plugin in `src/index.ts` adds container queries to Tailwind CSS. This
project models its four pieces of logic as pure Dafny functions and proves
what they do:

- **`parseValue`** (`SizeToken`). It splits a size token such as `"42.5%"`
  into a magnitude and a unit. The magnitude is the match of
  `^(\d+\.\d+|\d+|\.\d+)`, and the token is rejected when there is none. The
  unit is the match of `[a-zA-Z%]+$`, or `"px"` when there is none. The
  magnitude is kept exactly: its integer digits and its fraction digits, with
  an exact `real` value.
- **Printing the magnitude** (`NumberText`). The selector prints
  `${parsed.numeric}`. This is modelled as the canonical decimal of the
  parsed value: no leading zeros, no trailing fraction zeros, and `"0"` before
  a bare fraction.
- **The variant `sort` comparator** (`VariantOrder`). It orders
  `(value, modifier)` entries. Entries whose token does not parse are equal to
  everything. Otherwise magnitudes decide, and units are ignored. On equal
  magnitudes an empty label goes last, and then the label collation decides.
  The collation (`localeCompare` with `"en"` and numeric ordering) is a
  parameter.
- **The `@` variant and the `@container` utility** (`ContainerQueries`). The
  variant builds `@container <modifier or ""> (<min-height|min-width>: <size>)`,
  or no selector when the token does not parse. The utility builds
  `{ container-type: value, container-name: modifier ?? "default" }`.

`wrappers.dfy` holds the `Option` type that stands for JavaScript's
`null`/`undefined`.

Two points of the code are easy to misread, and the model follows the code:

- "The numeric prefix" could be read as the longest prefix that any of the
  three alternatives matches. The code takes the first alternative that
  matches. `SizeToken.NumericPrefixIsLongest` proves that the two readings
  agree.
- The selector uses its one `modifier` twice: as the scope after
  `@container`, and to choose between `min-height` and `min-width`.

## Model

| member | source | states |
|---|---|---|
| `SizeToken.DigitRun` | src/index.ts:10 | the greedy `\d+`: the leading digits of the string, followed by a non-digit or by the end |
| `SizeToken.UnitRun` | src/index.ts:11 | the trailing run of letters and `%`, preceded by a character outside that class or by nothing |
| `SizeToken.NumericPrefix` | src/index.ts:10 | a match is well-formed digits and a prefix of the token; there is no match exactly when the token starts neither with a digit nor with `.` and a digit |
| `SizeToken.Unit` | src/index.ts:11 | the unit is never empty and is made only of letters and `%` |
| `SizeToken.Parse` | src/index.ts:9-16 | the result is null exactly when there is no numeric prefix; otherwise its magnitude is the numeric prefix's match, well-formed, and its unit is the token's unit |
| `SizeToken.Value` | src/index.ts:15 | `parseFloat` of the match, exactly: the value lies between the integer digits' value and that value plus 1, so the integer digits give the whole part |
| `SizeToken.NumericPrefixIsRegexMatch` | src/index.ts:10 | the parser returns the regular expression's match: null when no prefix is in any alternative; otherwise a prefix in the first alternative that matches anything, and the longest prefix in it |
| `SizeToken.NumericPrefixIsLongest` | src/index.ts:10 | the first alternative that matches also gives the longest numeric prefix of the token |
| `SizeToken.UnitIsLongestUnitSuffix` | src/index.ts:11 | the unit is the longest suffix made of letters and `%`, computed over the whole token; it is `"px"` when no such suffix exists |
| `SizeToken.MagnitudeStopsAtSecondPoint` | src/index.ts:10 | `"1.5.3"` reads 1.5 |
| `SizeToken.MagnitudeIgnoresBarePoint` | src/index.ts:10 | `"1."` reads 1 |
| `SizeToken.MagnitudeWithoutIntegerPart` | src/index.ts:10 | `".5vw"` reads 0.5 |
| `SizeToken.ParsePercentage` | src/index.ts:9-16 | `"42.5%"` parses to 42.5 in `"%"` |
| `SizeToken.NoMatchExamples` | src/index.ts:10-13 | `""`, `"abc"` and `"-5px"` give null |
| `SizeToken.UnitExamples` | src/index.ts:11 | `"20"` gives `"px"`, `"42.5%"` gives `"%"`, `"20xyz!"` gives `"px"`, `"20foo"` gives `"foo"` and `".5vw"` gives `"vw"` |
| `NumberText.Canonical` | src/index.ts:51 | the printed form has digits only, no superfluous leading zero and no trailing fraction zero |
| `NumberText.Render` | src/index.ts:51 | the printed number is non-empty and ends in a digit |
| `NumberText.CanonicalValue` | src/index.ts:15 | printing keeps the value `parseFloat` read |
| `NumberText.RenderDependsOnlyOnValue` | src/index.ts:51 | two magnitudes with the same value print alike, so `"20.0"` and `"020"` both print `"20"` |
| `NumberText.ParseRenderedSize` | src/index.ts:51 | a printed number followed by a unit parses back to the canonical magnitude and the same unit |
| `NumberText.RenderRoundTrip` | src/index.ts:51 | printing a parsed size and parsing it again gives the same number and the same unit |
| `VariantOrder.Label` | src/index.ts:64-65 | `modifier ?? ""`: the modifier when present, the empty string when absent |
| `VariantOrder.CompareParsed` | src/index.ts:61-75 | on two parsed magnitudes: the sign is that of their difference; on a tie an empty label goes after a non-empty one, and two non-empty labels give the collation's result |
| `VariantOrder.Compare` | src/index.ts:55-76 | the result is 0 when either token fails to parse; what it gives when both parse is stated by `CompareByMagnitude` and `CompareTieBreak` below, its ordering laws by `CompareAntisymmetric` and `CompareTransitiveOnParsed` |
| `VariantOrder.CompareUnparseable` | src/index.ts:56-59 | the result is 0 when either token fails to parse, whatever the labels |
| `VariantOrder.CompareByMagnitude` | src/index.ts:61-62 | when the magnitudes differ, the result has the sign of their difference |
| `VariantOrder.CompareIgnoresUnits` | src/index.ts:61-62 | replacing a token by one with the same magnitude in another unit changes no comparison |
| `VariantOrder.CompareAcrossUnits` | src/index.ts:61-62 | `"24rem"` sorts before `"320px"` |
| `VariantOrder.CompareTieBreak` | src/index.ts:64-75 | on equal magnitudes: an empty or absent label against a non-empty one gives +1, and the reverse gives -1; two empty labels give 0; two non-empty labels give the collation's result |
| `VariantOrder.CompareAntisymmetric` | src/index.ts:55-76 | with an antisymmetric collation, swapping the arguments flips the sign, or both results are 0 |
| `VariantOrder.CompareTransitiveOnParsed` | src/index.ts:55-76 | when all tokens parse and the collation is transitive, "not after" is transitive |
| `VariantOrder.CompareNotConsistentWithUnparseable` | src/index.ts:56-62 | with an unparseable token involved, "equal" is not transitive: `"10"` equals `"auto"`, `"auto"` equals `"5"`, yet `"5"` sorts before `"10"` |
| `ContainerQueries.ContainerUtility` | src/index.ts:21-26 | `container-type` is the value; `container-name` is the modifier, or `"default"` when it is absent |
| `ContainerQueries.Includes` | src/index.ts:48 | `String.prototype.includes`: a text that starts the string is found, and a found text is no longer than the string |
| `ContainerQueries.IncludesIff` | src/index.ts:48 | the substring search succeeds exactly when the text occurs at some index |
| `ContainerQueries.Dimension` | src/index.ts:48-50 | the query is always `min-height` or `min-width`, and `min-width` when there is no modifier |
| `ContainerQueries.DimensionIsHeightIff` | src/index.ts:48-50 | the query is `min-height` exactly when the modifier is present and contains `"height"`; otherwise it is `min-width` |
| `ContainerQueries.VariantSelector` | src/index.ts:42-52 | at most one selector; none exactly when the token (default `""`) does not parse |
| `ContainerQueries.VariantSelectorQueriesTokenSize` | src/index.ts:42-52 | a token that parses gives one selector made of `@container `, the modifier or nothing, the chosen dimension, and a size text that parses back to the token's magnitude and unit |
| `ContainerQueries.VariantSelectorDefaultToken` | src/index.ts:42-45 | with no token, the default `""` gives no selector |
| `ContainerQueries.VariantSelectorExample` | src/index.ts:42-51 | `"20rem"` with no modifier gives `"@container  (min-width: 20rem)"`, with two spaces |
| `ContainerQueries.VariantSelectorTrailingZeroExample` | src/index.ts:51 | `"20.0rem"` gives the same selector as `"20rem"` |

## Left out

- Host machinery is not modelled: `plugin(...)`, `matchUtilities`, `matchVariant`, `theme("containers")`, and the option `modifiers: "any"`. The callbacks are standalone functions here. The host's sort that uses the comparator is also left out, so the promise that unparseable entries keep their order is not modelled. `VariantOrder.CompareNotConsistentWithUnparseable` shows the comparator is no consistent ordering once such entries are mixed in.
- The static theme tables (`containers`, `units`) and the utility's `values` map are configuration data and are not modelled. The `units` table is never read.
- Floating point is not modelled. `parseFloat` is modelled as the exact decimal value. Rounding of long digit strings to the nearest double is not modelled. Nor is overflow: a token whose integer part has about 309 or more digits reads as `Infinity` in JavaScript, so the selector prints `Infinity`, and for two such tokens `a.numeric - z.numeric` (src/index.ts:62) is `NaN`.
- NumberText.Render: this is JavaScript's number-to-string only where JavaScript uses plain decimal notation. Values from 1e21 up, and non-zero values below 1e-6, print in exponent notation in JavaScript. Such values are not modelled.
- The label collation (`localeCompare(zLabel, "en", { numeric: true })`) is ICU collation. It is a parameter of `VariantOrder.Compare`. The lemmas that need it to be antisymmetric or transitive say so in their preconditions.
- The selector callback returns either `[]` or a string. The model returns a sequence of zero or one strings.
- There is no I/O and no concurrency in the modelled code.
