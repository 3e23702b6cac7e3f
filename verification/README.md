# covert-color colour normalisation, modelled in Dafny

This project models `src/color.ts` of covert-color. That file turns free-form
colour text into text that the colord colour library accepts, and it lists five
renderings of the resulting colour. The model has three parts, plus the string
operations they are built from.

- **Notation detection** (`Detection`, `detection.dfy`). This is `getColorType`
  with its ordered `typeMatcher` table. Each regular expression is modelled as the
  character test it performs: a case-sensitive or ASCII case-insensitive prefix, or
  "a first character that is not a line terminator" for the `named` catch-all.
  `Array.prototype.find` is `Find`, which returns the first rule that accepts the
  text. When no rule accepts it, `getColorType` dereferences `undefined` and throws.
  The model returns `None` in that case. This happens exactly for the empty string
  and for text that begins with `\n`, `\r`, U+2028 or U+2029.
  `DealWithOthers` also reads `None` as its falsy tag, so composing the two gives
  `[]` for such text; the program instead throws in `getColorType` before
  `dealWithOthers` runs, and that throw is not modelled in the composition.
- **Per-notation correction** (`Correction`, `correction.dfy`). This is
  `colorCorrection.hex`, `.rgb`, `.hsl` and `.cmyk`.
  - Hex removes one leading `#`. A body of one to four characters has each
    character doubled, which for three and four characters is the CSS shorthand
    expansion (section 5.2 of CSS Color Module Level 4). The result is padded to
    six with `0` and then to eight with `f`.
  - rgb and hsl keep only `[0-9,.]`, split on `,`, and fill `rgba(…)` or `hsla(…)`
    from the first four fields. A default is used only when a field is missing.
  - cmyk returns a `{c, m, y, k}` record. A missing field is the number `0`,
    modelled as the `Zero` value.
- **Result assembly** (`Assembly`, `assembly.dfy`). This is `dealWithOthers`. The
  colour library is a `ColorLibrary` record of functions that the caller supplies:
  `colord`, the colour's `toHex`, `toRgbString`, `toHslString`, `toCmyk` and
  `toCmykString`, and `JSON.stringify`. The model states which argument reaches
  `colord` and how the five entries are formed from the one parsed colour.
- **String operations** (`Strings`, `strings.dfy`). These are the JavaScript
  operations the corrections rely on: `padEnd`, character doubling, the
  `[^\d,.]` filter, and `split` on one character. The partner of `split` is
  `join`, and `Join` is its inverse.

Three behaviours of `src/color.ts` are easy to misread:

- Hex correction removes only the first `#`. The pattern `/^#/g` is anchored, so the
  `g` flag has no effect. For example, `"##ab"` keeps its second `#` and becomes
  `"###aabbff"`.
- The doc comment at `src/color.ts:20-23` lists `a => aa0000`, but lines 32-33 also
  pad with `f`. So `"a"` becomes `"#aa0000ff"`.
- Detection is not total. The empty string matches no rule, because `/^.+/` needs a
  character.

## Model

| member | source | states |
|---|---|---|
| Strings.PadEnd | src/color.ts:32-33 | `padEnd` keeps the string and, when it is shorter than the width, fills up to the width with the filler; it never truncates |
| Strings.Doubled | src/color.ts:26-29 | `split("").map(s => s.repeat(2)).join("")` has twice the length, and position i holds input character i/2 |
| Strings.EvenPositionsOfDoubled | src/color.ts:26-29 | doubling loses nothing: the even positions give back the input |
| Strings.KeepNumeric | src/color.ts:39 | the `[^\d,.]` filter leaves only digits, commas and periods, and never lengthens the text |
| Strings.KeepNumericIdentity | src/color.ts:39 | the filter leaves text unchanged exactly when every character is a digit, comma or period |
| Strings.KeepNumericConcat | src/color.ts:39 | the filter works character by character, so it distributes over concatenation |
| Strings.KeepNumericIdempotent | src/color.ts:39 | filtering twice is the same as filtering once |
| Strings.Split | src/color.ts:40 | `split(",")` gives one more field than there are commas (so `""` gives `[""]`), and no field contains a comma |
| Strings.JoinSplit | src/color.ts:40 | joining the fields of a split with the separator gives back the original text |
| Strings.SplitJoin | src/color.ts:40 | splitting a join of separator-free fields gives back those fields |
| Strings.SplitAtSeparator | src/color.ts:40 | a separator between two texts splits them independently |
| Strings.SplitNumericFields | src/color.ts:39-40 | after the filter, every field holds only digits and periods |
| Correction.StripLeadingHash | src/color.ts:16 | the anchored `/^#/g` removes at most one character, and removes one exactly when the text starts with `#`; what remains is a suffix of the input |
| Correction.CorrectHex | src/color.ts:15-36 | the result starts with `#`, and it is the bare `"#"` exactly when nothing is left after removing the leading `#` |
| Correction.HexPadding | src/color.ts:32-33 | padding to 6 with `0` and then to 8 with `f` gives max(8, n) characters: the content, then `0` below position 6 and `f` at positions 6 and 7 |
| Correction.HexShorthand | src/color.ts:25-35 | a body of 1 to 4 characters gives `#` and exactly 8 characters: each body character doubled in order, then `0` up to position 6 and `f` up to 8; `Expand` doubles exactly the bodies of at most four characters (lines 25-30) |
| Correction.HexLongBody | src/color.ts:25-35 | a body of 5 or more characters is kept as a prefix after `#`; the length is 1 + max(8, n), with `0` padding below position 6 and `f` at 6 and 7; `Expand` leaves such a body alone |
| Correction.HexFullBody | src/color.ts:32-35 | a body of 8 or more characters comes back unchanged after `#` |
| Correction.HexIdempotent | src/color.ts:15-36 | correcting a hex correction's output changes nothing |
| Correction.HexWellFormed | src/color.ts:15-36 | the result is `#` and exactly 8 hex digits if and only if the body after the `#` is 1 to 8 hex digits |
| Correction.HexExampleEmpty | src/color.ts:16-18 | `""` and `"#"` both give `"#"` |
| Correction.HexExampleShorthand | src/color.ts:25-33 | `"a"` gives `"#aa0000ff"` and `"ab"` gives `"#aabb00ff"`, with the `ff` alpha that the doc comment leaves out |
| Correction.HexExampleThree | src/color.ts:25-35 | `"abc"` gives `"#aabbccff"` |
| Correction.HexExampleFour | src/color.ts:25-35 | `"abcd"` gives `"#aabbccdd"` |
| Correction.HexExampleHash | src/color.ts:16-35 | `"#f00"` gives `"#ff0000ff"` |
| Correction.HexExampleInnerHash | src/color.ts:16-35 | `"##ab"` keeps its inner `#` and gives `"###aabbff"` |
| Correction.HexExamplePadded | src/color.ts:32-35 | `"abcde"` is padded to `"#abcde0ff"` |
| Correction.HexExampleKept | src/color.ts:32-35 | a 10-character body comes back unchanged |
| Correction.Fields | src/color.ts:39-40 | filter then split gives at least one field, and every field has only digits and periods |
| Correction.CorrectRgb | src/color.ts:38-43 | the rgb correction is `rgba(…)` text ending in `)` |
| Correction.CorrectHsl | src/color.ts:45-50 | the hsl correction is `hsla(…)` text ending in `)` |
| Correction.FunctionalNested | src/color.ts:42 | the flat template `${name}(${a}, ${b}, ${c}, ${d})` equals its regrouping from the right |
| Correction.FunctionalKeepsArguments | src/color.ts:42 | filtering the filled template leaves its four arguments joined by commas |
| Correction.TemplateReadBack | src/color.ts:40-49 | filtering and splitting a filled template gives exactly four fields: the input's first field, then each later field if present, otherwise its default |
| Correction.TemplateIdempotent | src/color.ts:38-49 | filling a template from an already-filled template gives the same text |
| Correction.FieldsAtComma | src/color.ts:39-40 | a comma in the input separates its fields: the fields of the two sides, in order |
| Correction.RgbReadBack | src/color.ts:40-42 | rgb keeps r; g and b default to `0` and a to `1` only when the split gave fewer fields; an empty field stays empty; `Slot` is the destructuring default of line 40 |
| Correction.HslReadBack | src/color.ts:47-49 | hsl keeps h; s, l and a default to `100`, `50` and `1` only when the field is missing; `Slot` is the destructuring default of line 47 |
| Correction.RgbIdempotent | src/color.ts:38-43 | correcting rgb output again changes nothing |
| Correction.HslIdempotent | src/color.ts:45-50 | correcting hsl output again changes nothing |
| Correction.TemplatesIgnoreExtraFields | src/color.ts:40-47 | once there are four fields, anything after another comma does not change the rgb or hsl result |
| Correction.RgbNotation | src/color.ts:38-43 | `rgb(r, g, b)` with numeric components becomes `rgba(r, g, b, 1)` |
| Correction.HslNotation | src/color.ts:45-50 | `hsl(h)` becomes `hsla(h, 100, 50, 1)` |
| Correction.FieldOfNumeric | src/color.ts:39-40 | text of digits and periods without a comma is one field, itself |
| Correction.RgbExampleOneField | src/color.ts:38-43 | `"5"` gives `"rgba(5, 0, 0, 1)"` |
| Correction.RgbExampleEmptyField | src/color.ts:38-43 | `"1,,3"` gives `"rgba(1, , 3, 1)"`: the empty middle field is kept, not defaulted |
| Correction.RgbExampleEmpty | src/color.ts:38-43 | `""` gives `"rgba(, 0, 0, 1)"` |
| Correction.HslExampleDefaults | src/color.ts:45-50 | `"hsl(200)"` gives `"hsla(200, 100, 50, 1)"` |
| Correction.CorrectCmyk | src/color.ts:51-60 | c is always a text field, because the split never returns an empty list |
| Correction.CmykFields | src/color.ts:52-59 | each of c, m, y and k is the input's field at that position (digits and periods only), and is the number 0 exactly when the split gave fewer fields; `CmykSlot` is the destructuring default of line 53 |
| Correction.CmykKeepsInput | src/color.ts:52-59 | with at most four fields nothing is lost: the record's text values joined by commas are exactly the filtered input |
| Correction.CmykIgnoresExtraFields | src/color.ts:53 | fields after the fourth do not change the record |
| Correction.CmykOfFourFields | src/color.ts:51-60 | four numeric components separated by commas fill c, m, y and k in order, all as text |
| Correction.CmykExampleFull | src/color.ts:51-60 | `"10,20,30,40"` gives `{c:"10", m:"20", y:"30", k:"40"}` |
| Correction.CmykExampleDefaults | src/color.ts:51-60 | `"cmyk(5)"` gives `{c:"5", m:0, y:0, k:0}`, and `""` gives `{c:"", m:0, y:0, k:0}` |
| Detection.Find | src/color.ts:72 | `find` returns nothing exactly when no rule accepts the text; otherwise it returns a rule that accepts the text, and no earlier rule does |
| Detection.FindInTable | src/color.ts:63-72 | on the five-rule table, `find` tries the rules in order hex, rgb, hsl, cmyk, named |
| Detection.TestIgnoringCase | src/color.ts:65-67 | an `/i` prefix pattern for a lower-case word accepts exactly the text that starts with that word in any mix of ASCII case |
| Detection.TableTests | src/color.ts:63-69 | the patterns of the table test for a leading `#`, for `rgb`, `hsl` or `cmyk` in any case, and for a first character that is not a line terminator; `Test` is `reg.test` for these patterns, as called at line 72 |
| Detection.ClassifyNone | src/color.ts:68-72 | no rule applies exactly to the empty text and to text that starts with a line terminator |
| Detection.GetColorType | src/color.ts:71-73 | the result is missing exactly for the empty text or a leading line terminator; otherwise it is the decision list's answer |
| Detection.GetColorTypeIsClassify | src/color.ts:63-72 | the table lookup agrees on every text with the decision list `#`, then rgb, hsl, cmyk, then named |
| Detection.GetColorTypeCharacterised | src/color.ts:63-72 | for each tag, the exact condition (both directions) under which it is detected; a leading `#` wins over any notation name |
| Detection.GetColorTypeExampleHex | src/color.ts:63-72 | `"#rgb(1,2,3)"` is hex |
| Detection.GetColorTypeExampleUpper | src/color.ts:65 | `"RGB(1, 2, 3)"` is rgb |
| Detection.GetColorTypeExampleMixed | src/color.ts:66 | `"hSl(200)"` is hsl |
| Detection.GetColorTypeExampleName | src/color.ts:68-72 | `"red"` is named |
| Detection.GetColorTypeExamplePrefix | src/color.ts:65-72 | `"rg"`, a prefix of `rgb`, is named |
| Detection.GetColorTypeExampleNone | src/color.ts:68-72 | `""` and `"\nred"` have no tag |
| Assembly.Correct | src/color.ts:83 | `colorCorrection[type]` gives the structured record exactly for cmyk; hex gives `#…` text, rgb gives `rgba(…` text and hsl gives `hsla(…` text |
| Assembly.CorrectIdempotent | src/color.ts:83 | correcting the corrected text of hex, rgb or hsl again changes nothing |
| Assembly.DealWithOthers | src/color.ts:75-101 | empty exactly when the tag is missing; otherwise five entries with the fixed labels in order; all share one icon colour, which equals the first title; titles are the hex, rgb, hsl, stringified cmyk and cmyk forms of one parsed colour; `named` parses the raw input and the other tags parse the corrected value; `ColordArgument` is the value of lines 79-84 that reaches `colord` |
| Assembly.SameColorSameResult | src/color.ts:79-100 | two inputs whose arguments parse to the same colour get identical results |
| Assembly.CorrectedInputSameResult | src/color.ts:80-84 | for hex, rgb and hsl, giving the corrected text as input again produces the same result |
| Assembly.ShorthandHexDescribedAsFullHex | src/color.ts:80-84 | `"#f00"` as hex is described exactly like the raw text `"#ff0000ff"` as named |
| Assembly.DetectedInputDescribed | src/color.ts:71-100 | any text that gets a tag is described by five entries with the fixed labels |

## Left out

- The colord library is not modelled. This covers parsing, colour-space conversion,
  named-colour lookup and the plugin registration at lines 1-3 and 7. It is a foreign
  library with floating-point colour maths, so it is a caller-supplied
  `ColorLibrary` of functions. `JSON.stringify` of `toCmyk()` is one of those
  functions too.
- Parse failures inside colord are not modelled. colord's treatment of unparseable
  input belongs to the library, and each library function here is total.
- A general regular-expression engine is not modelled. Each of the program's
  patterns is written as the character test it performs.
- UTF-16 code units are not modelled. Strings are sequences of Unicode scalar
  values, so `length`, `split("")` and `.` count characters rather than UTF-16 code
  units. The two differ only for characters outside the Basic Multilingual Plane.
- The `ColorDescribe` type from `./type` is not part of this model. A plain
  `{title, subtitle, iconColor}` record stands in for it.
- The falsy tag of `dealWithOthers` is modelled as `None`. It stands for any
  falsy value (`undefined`, `null` or `""`) a JavaScript caller could pass despite
  the `ColorType` type.
