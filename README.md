# jsNumberFormatter, modelled in Dafny

This project models the number parser and formatter `JsNumberFormatter`
(`js/jsnumberformatter.js`), which the satellite map application uses to
display numbers. It covers:

- **Masks** (`formatMaskCompiled`, module `Masks`). A mask is a string of `0`
  (a digit that must be present), `#` (an optional digit) and literal
  characters. `compile` counts the placeholders. `apply` walks the mask
  left-to-right for the decimal part (`_applyMask`). It walks right-to-left
  for the integer part (`_applyReverseMask`), holding literals until a digit
  or a zero pad follows them. For a repeating mask it walks chunks of
  `maskDigitSize` digits from the right, which is how `,###` turns
  `1234567` into `1,234,567`. Each walk is a method with its loop, proved
  equal to a closed-form function (`ForwardText`, `ReverseText`,
  `GroupFrom`). Module `MaskLemmas` proves what these functions mean: the
  grouping theorem against a plain reference definition (`GroupDigits`),
  zero padding on digit-only masks, the error cases and worked
  examples.
- **Formatting** (`formatNumberOptions`, `formatNumber`, module
  `Formatting`). This covers the options object, with its setters and the
  mask validation of `specifyAll` and `specifyDecimalMask`, and the format
  call. The call compiles fresh masks on every call, because the options'
  `compiled` flag is never set. It groups the integer digits, masks the
  fraction digits, adds the separator only when the masked fraction is not
  empty, and wraps the result in the prefix and postfix.
- **Parsing** (`parseNumberSimple`, modules `ParseStages` and `Parsing`).
  This covers the five modules Trim, NegativeNumber, FormattedNumber,
  Percentage and BadChars as string rewrites, and the operator list that
  `compileOperators` builds and caches. It also covers the per-call context
  and its flags, and the engine. The engine runs every pre-pass in order,
  marks the context as post-pass, then runs every post-pass in the same
  order. Lemma `ParseIsPipeline` proves that the engine, run on the list
  built from the same options, is the straight-line pipeline
  trim → strip `-` → clean separators → strip `%` → drop bad characters →
  put `-` back.
- **Rounding** (`util.round`, module `Rounding`), over exact reals.
- **`util.HashMap`** (module `HashMaps`), with string keys.
- **Format then parse** (module `RoundTrip`). Text written with the default
  format options and read back with the default parse options gives the
  number's digits without the group separators.

The model follows the source where it departs from what a reader might
expect. All of the following are stated and proved:

- Strict mode reads `.length` of a `match` result that is `null` when
  nothing matches. So a strict parse throws on text without a `.`, and
  without `removeBadCh` it throws on every input (`StrictAlwaysThrows`).
- The rounding trigger of `formatNumber` compares the fraction length with
  the decimal mask's length, literals included, not with its number of
  placeholders (`RoundingCountsLiterals`).
- An integer part of `"0"` formats as the empty string under `,###`
  (`GroupingZero`).
- A repeating mask that is not reversed yields `""` (`ApplyFails`).
- `specifyAll` stores the new masks before it validates them, and it
  validates its parameters, not the fields. An omitted mask therefore
  throws a TypeError (`FormatOptions.SpecifyAll`).
- `specifyFixes` stores an omitted prefix as `undefined`, which then prints
  as `"undefined"` (`FormatOptions.SpecifyFixes`).

## Model

| member | source | states |
|---|---|---|
| Masks.DigitSlots | js/jsnumberformatter.js:575-582 | a mask has a digit size exactly when it holds a `0` or `#`; the size is between 1 and the mask's length; no placeholder is the TypeError of `null.length` |
| Masks.FormatMask.constructor | js/jsnumberformatter.js:523-531 | a new mask is neither repeating, reversed nor compiled, and its digit size is -1 |
| Masks.FormatMask.Compile | js/jsnumberformatter.js:575-582 | on success the mask is compiled and its digit size is the placeholder count; otherwise it throws and changes nothing |
| Masks.FormatMask.Apply | js/jsnumberformatter.js:533-573 | dispatches on the mask's state: throws when not compiled, walks repeating+reversed masks in chunks, yields `""` for repeating forward masks, otherwise does a single reverse or forward walk |
| Masks.FormatMask.ApplyRepeatingReversed | js/jsnumberformatter.js:544-568 | the chunk loop (`pos` stepping down by `maskDigitSize`, `areMore` when digits remain left of the chunk, each result put in front, stop at the first empty chunk) equals `GroupFrom` |
| Masks.FormatMask.ApplyMask | js/jsnumberformatter.js:584-639 | the left-to-right walk equals `ForwardText`: overlaid digits, then zero pads up to a `#` or a literal (written once), with a lone `"0"` dropped when the mask ends in `#`; throws when the mask is shorter than the digits |
| Masks.FormatMask.ApplyReverseMask | js/jsnumberformatter.js:641-728 | the right-to-left walk with held literals equals `ReverseText`: held literals are written only before a later digit or zero pad, or at the end when `areMore`; throws when the mask is shorter than the digits |
| MaskLemmas.SepMaskChunk | js/jsnumberformatter.js:651-722 | one chunk of at most `g` digits under `sep` followed by `g` `#`s is the digits, with the separator in front only for a full chunk with more digits to its left |
| MaskLemmas.Grouping | js/jsnumberformatter.js:544-568 | the repeating reversed walk of a separator mask on a number without leading zeros equals the reference grouping of its digits in `g`s from the right |
| MaskLemmas.GroupingZero | js/jsnumberformatter.js:558-561 | the integer part `"0"` is written as `""` under a separator mask |
| MaskLemmas.GroupingExamples | js/jsnumberformatter.js:544-568 | `"1234567"` gives `"1,234,567"`, `"123456"` gives `"123,456"` and `"0"` gives `""` under `,###` |
| MaskLemmas.GroupDigitsShape | js/jsnumberformatter.js:544-568 | grouping starts with the first digit and ends with the last |
| MaskLemmas.ApplyFails | js/jsnumberformatter.js:533-573 | `apply` throws exactly when the mask is not compiled or a single walk is given more digits than mask characters; a repeating forward mask yields `""` |
| MaskLemmas.ForwardDigitMask | js/jsnumberformatter.js:593-633 | on a mask of only `0`/`#`, the forward walk writes the digits, then zeros up to the next `#`, and drops a lone `"0"` under a trailing `#` |
| MaskLemmas.ForwardOptionalPair | js/jsnumberformatter.js:593-633 | the decimal mask `##` keeps one or two digits, except that `"0"` becomes `""` |
| MaskLemmas.ForwardLiteralDropsDigit | js/jsnumberformatter.js:596-607 | while digits remain, a literal is written in place of the digit at its position |
| MaskLemmas.ForwardExamples | js/jsnumberformatter.js:584-639 | `""` on `00` gives `"00"`, `"5"` on `##` gives `"5"`, `"123"` on `#-#` gives `"1-3"`, and `"123"` on `##` throws |
| MaskLemmas.ReverseStartsWithDigitOrPad | js/jsnumberformatter.js:654-717 | without `areMore`, the reverse walk's output is empty or starts with a digit or a zero pad: held literals left of the first digit are dropped |
| MaskLemmas.ReverseAreMoreAddsHeld | js/jsnumberformatter.js:715-722 | with `areMore`, the output is the held literals in front of the output without it, except when the walk renders a lone `"0"` under a trailing `#`: then it is `""` without `areMore` and the held literals and `"0"` with it |
| MaskLemmas.ReverseExamples | js/jsnumberformatter.js:641-728 | `"5"` on `#,##0` gives `"5"`, `""` gives `"0"`, `"123"` on `,###` with `areMore` gives `",123"`, and `"12"` on `0` throws |
| Formatting.CheckMasksAccepts | js/jsnumberformatter.js:455-464 | `specifyAll` accepts exactly when both masks are given and each holds a `0` or `#`; the group mask is reported first |
| Formatting.FormatFails | js/jsnumberformatter.js:333-386 | once the rounding step has left no more fraction digits than the decimal mask has characters, formatting throws exactly when a mask has no placeholder |
| Formatting.AssembleSeparator | js/jsnumberformatter.js:388-395 | the decimal separator is written exactly when the masked fraction is not empty |
| Formatting.FormatSepMask | js/jsnumberformatter.js:376-403 | under a separator group mask, the integer digits are grouped (`"0"` dropped) and the decimal mask is applied to the fraction |
| Formatting.FormatDefaults | js/jsnumberformatter.js:411-426 | under the default options, integer digits are grouped in threes and at most two fraction digits follow a `.`; zero parts are dropped |
| Formatting.FormatDefaultsGrouped | js/jsnumberformatter.js:316-409 | under the defaults, an integer part without a leading zero and a one- or two-digit fraction other than `"0"` give the grouped digits, a `.` and the fraction |
| Formatting.RoundingCountsLiterals | js/jsnumberformatter.js:349 | the rounding trigger counts mask characters: under `#-#`, three fraction digits are not rounded and format as `"1-3"` |
| Formatting.FormatExample | js/jsnumberformatter.js:316-409 | 1234567.5 formats as `"1,234,567.5"` under the defaults |
| Formatting.FormatOptions.constructor | js/jsnumberformatter.js:411-426 | the defaults `,###`, `.`, `##`, `-(.+)`, no fixes, no masks, not compiled, half-up |
| Formatting.FormatOptions.SpecifyAll | js/jsnumberformatter.js:428-467 | each given string replaces its field; then the mask parameters are validated, so an invalid mask is stored before the Error |
| Formatting.FormatOptions.SpecifyDecimalMask | js/jsnumberformatter.js:469-476 | a decimal mask without placeholder is rejected and nothing changes; otherwise it is stored |
| Formatting.FormatOptions.SpecifyFixes | js/jsnumberformatter.js:478-487 | the prefix is always replaced (even by `undefined`); the postfix only when given |
| Formatting.FormatOptions.SpecifyRounding | js/jsnumberformatter.js:489-498 | the rounding mode is replaced |
| Formatting.FormatOptions.Compile | js/jsnumberformatter.js:508-520 | the group mask is stored as repeating+reversed and compiled; only then is the decimal mask stored as forward, non-repeating and compiled; `compiled` stays false |
| Formatting.FormatNumber | js/jsnumberformatter.js:316-409 | on fraction digits already cut by the rounding step, stores two fresh masks built from the option strings on every call (group mask repeating+reversed, decimal mask forward and stored only when the group mask compiles, each compiled iff it has a placeholder), then returns the grouped integer text, the separator and masked fraction when that is not empty, wrapped in the non-null fixes, or the error |
| ParseStages.TrimShape | js/jsnumberformatter.js:899-911 | the trimmed text is a slice of the input; everything cut off is white space; the result neither starts nor ends with white space |
| ParseStages.TrimIdempotent | js/jsnumberformatter.js:899-911 | trimming twice is trimming once |
| ParseStages.NegativeRoundTrip | js/jsnumberformatter.js:913-931 | on one line, `^-(.+)` matches exactly a `-` followed by at least one character, and the capture is the rest |
| ParseStages.PercentCapture | js/jsnumberformatter.js:945-958 | on one line, `^(.+)%` matches exactly when a `%` follows at least one character, and the capture is everything before the last `%` |
| ParseStages.PercentPlaces | js/jsnumberformatter.js:962-968 | the places are two more than the characters after the first decimal separator, and 2 when there is none |
| ParseStages.RemoveCharLength | js/jsnumberformatter.js:836 | removing the group separator shortens the text by exactly the number of separators in it |
| ParseStages.KeepNumeric | js/jsnumberformatter.js:878-893 | after BadChars only `[0-9.]` remain |
| ParseStages.BadCharsIdempotent | js/jsnumberformatter.js:878-893 | removing bad characters twice is removing them once |
| ParseStages.KeepNumericDigits | js/jsnumberformatter.js:878-893 | BadChars keeps every digit, in order |
| ParseStages.FormattedKeepsDigits | js/jsnumberformatter.js:825-873 | on success no group separator and no non-`.` decimal separator is left, and the digits are the input's, in order |
| ParseStages.StrictMode | js/jsnumberformatter.js:849-870 | strict without `removeBadCh` always throws; with it, the parse succeeds exactly when one `.` remains, and more than one throws with their count |
| ParseStages.ParseStage | js/jsnumberformatter.js:826-958 | a pre-pass raises `isNegative` only for NegativeNumber on a match and `isPerc` only for Percentage on a match, and only FormattedNumber in strict mode throws |
| ParseStages.PostStage | js/jsnumberformatter.js:875-982 | only NegativeNumber's post-pass changes the text and only Percentage's sets the places |
| ParseStages.PostStageIdentity | js/jsnumberformatter.js:933-939 | Trim, FormattedNumber and BadChars post-passes are the identity; NegativeNumber's prepends exactly one `-` iff `isNegative` |
| ParseStages.NegativeStageRoundTrip | js/jsnumberformatter.js:913-939 | a negative text survives the NegativeNumber pre-pass and post-pass unchanged |
| Parsing.OperatorListShape | js/jsnumberformatter.js:286-306 | the list holds each optional module iff its flag is set, always holds FormattedNumber, and keeps the order Trim, NegativeNumber, FormattedNumber, Percentage, BadChars |
| Parsing.PreFoldFailure | js/jsnumberformatter.js:91-94 | once a pre-pass throws, the parse throws that error |
| Parsing.ParseIsPipeline | js/jsnumberformatter.js:66-105 | the engine on the list built from the options is the stage-by-stage pipeline |
| Parsing.ParseDefaults | js/jsnumberformatter.js:159-178 | with the default options a parse never throws: trim, move a leading `-` out and back in, drop the commas |
| Parsing.StrictAlwaysThrows | js/jsnumberformatter.js:855-867 | a strict parse without `removeBadCh` throws on every input |
| Parsing.ParseNegative | js/jsnumberformatter.js:913-939 | with the negative pattern set (percentages on or off), for `x` on one line and not starting with `-`, the parse of `-x` succeeds iff the parse of `x` does, and is its text with one `-` in front; when trimming is on, `x` must neither start nor end with white space |
| Parsing.ParseNegativeSpaced | js/jsnumberformatter.js:899-931 | under the defaults `"- 5"` parses to `"- 5"` while `" 5"` parses to `"5"`: trimming runs before the `-` is taken off |
| Parsing.ParseOperators.constructor | js/jsnumberformatter.js:137-138 | a new operator list is empty |
| Parsing.ParseOperators.Add | js/jsnumberformatter.js:140-142 | `add` appends the operator |
| Parsing.ParseOptions.constructor | js/jsnumberformatter.js:159-178 | the defaults `.`, `,`, not strict, trim, keep bad characters, negative pattern set, no percentages, no cached list, unlimited places, half-up |
| Parsing.ParseOptions.SpecifyAll | js/jsnumberformatter.js:183-233 | each given value replaces its field; the cached list is untouched |
| Parsing.ParseOptions.SpecifyPerc | js/jsnumberformatter.js:248-249 | percentage handling is switched on or off |
| Parsing.ParseOptions.SpecifyRounding | js/jsnumberformatter.js:259-274 | the mode is replaced, and the places when given |
| Parsing.ParseOptions.CompileOperators | js/jsnumberformatter.js:286-306 | the cached list is returned unchanged unless there is none or a rebuild is asked for; then a fresh list is built from the flags and cached |
| Parsing.ParseContext.constructor | js/jsnumberformatter.js:146-156 | a new context has all three flags false |
| Parsing.ParseContext.Parse | js/jsnumberformatter.js:826-958 | one module's `parse`: the new text or its error, and the flags the pre-pass specification gives |
| Parsing.ParseContext.PostParse | js/jsnumberformatter.js:875-982 | one module's `postParse` is the post-pass specification |
| Parsing.ParseAll | js/jsnumberformatter.js:91-94 | the pre-pass loop threads the text through every operator in order and stops at the first error |
| Parsing.PostParseAll | js/jsnumberformatter.js:102-105 | the post-pass loop threads the text through every operator in the same order |
| Parsing.ParseNumberSimple | js/jsnumberformatter.js:66-111 | builds or reuses the cached list, runs all pre-passes, sets `isPost`, runs all post-passes; the result is the parse specification on the cached list |
| RoundTrip.Ungroup | js/jsnumberformatter.js:836 | removing the group separators undoes the grouping |
| RoundTrip.FormatThenParse | js/jsnumberformatter.js:316-409 | default formatting succeeds, and default parsing of its text gives the digits back with a `.` before the fraction, zero parts dropped |
| Rounding.RoundScaled | js/jsnumberformatter.js:741-781 | half-up and half-down land within half a unit, with ties going up or down; away-from-zero and towards-zero take the ceiling or floor by the sign flag; an unknown mode throws |
| Rounding.Round | js/jsnumberformatter.js:741-781 | the result is the scaled integer shifted back by the places |
| Rounding.RoundExact | js/jsnumberformatter.js:741-781 | a value that already has that many places is unchanged by every mode |
| Rounding.HalfModesAgree | js/jsnumberformatter.js:751-758 | half-up and half-down agree except on an exact half |
| Rounding.HalfModesOnTie | js/jsnumberformatter.js:751-758 | on an exact half, half-up rounds up and half-down rounds down |
| HashMaps.HashMap.constructor | js/jsnumberformatter.js:783-786 | a new map is empty with size 0 |
| HashMaps.HashMap.Put | js/jsnumberformatter.js:787-803 | the size goes up iff the old value was `undefined`; the key maps to the new value and nothing else changes; storing a defined value keeps the size equal to the number of defined keys |
| HashMaps.HashMap.Get | js/jsnumberformatter.js:805-810 | the stored value, or `undefined` for a key never stored |
| HashMaps.HashMap.Size | js/jsnumberformatter.js:812-814 | the size counter |

## Left out

- `index.js`, `renderer.js` and `worker.js` are not part of this model. They hold UI wiring, WebGL rendering and a web worker that calls a foreign orbit propagator.
- Formatting.FormatNumber: takes the integer and fraction digit strings, not a JavaScript number. The number-to-string conversion, the `numberRegex` split, negative values and exponent notation are left out (lines 341-370). The rounding trigger is modelled as `NeedsRounding`. The rounding itself is `Rounding.Round` over exact reals, so the digits are passed in after rounding, and `FormatNumber` requires that the trigger no longer fires.
- Rounding.Round: works on exact reals. It does not capture the IEEE double effects of the `'e'`-exponent string round trip.
- Parsing.ParseNumberSimple: stops at the final text. The conversion to `Number`, the `NaNError` and the final rounding (lines 112-127) are left out.
- ParseStages.PostStage: the Percentage post-pass records the places it would round to. Its division by 100 and re-rounding on doubles (lines 970-975) are left out.
- Only the default negative pattern `^-(.+)` and percent pattern `^(.+)%` are modelled. The pattern arguments of `specifyNegativeMatch` and `specifyPerc` are left out, because they would need general regular expressions.
- Separators are single characters matched literally. The source builds regular expressions from both `decimalStr` and `groupStr` (lines 832 and 836), escaping only `.`, so a separator that is another regex metacharacter (such as `$` or `*`), an empty separator or a longer one behaves differently there.
- The `extraModules` loops (lines 95-99, 106-110) are left out. They index the operator list instead of the extra modules.
- Logging, the `print` methods, the `log` and `nf` fields of the context, the unused `roundingMode` field of a mask and `numberMaskValidRegex` are left out.
- The `typeof` TypeError checks of the `specify*` setters, of `parseNumberSimple` (line 74) and of `formatNumber` (line 324) are left out. The model's types already rule those inputs out.
- Parsing.ParseNumberSimple, Formatting.FormatNumber: the `options` argument is required. The source's fallback to fresh default options when it is omitted (lines 77 and 327) is left out; passing a newly constructed options object has the same effect.
- HashMaps.HashMap.Put: object keys, and the `hasOwnProperty` patching they trigger (lines 788-796), are left out. Keys are strings, and properties inherited from `Object.prototype` (such as `toString`) are treated as absent.
- Concurrency: none. The library is synchronous.
- Strings are sequences of Unicode characters. The source's `.length`, `charAt` and index arithmetic count UTF-16 code units, so a mask literal or separator outside the Basic Multilingual Plane, and the lengths behind `ParseStages.PercentPlaces`, would differ there.
