# Subtitle timestamps: `toSeconds` and `formatTime`

This project models the two timestamp converters of `utils/time.ts` and
proves what they promise about each other.

- `toSeconds(timeString)` reads a subtitle timestamp (`HH:MM:SS`, where the
  seconds may carry a fraction after `.` or after the SubRip decimal `,`). It
  replaces the first `,` with `.`, splits on `:`, reads the first three parts
  with `parseFloat`, and answers `h * 3600 + m * 60 + s`.
- `formatTime(seconds)` takes hours with `Math.floor(seconds / 3600)`, and
  minutes and seconds with `Math.floor` of JavaScript's `%`. It prints each
  one with `toString().padStart(2, '0')`, joined by `:`.

The model is made of pure functions over exact reals and strings, in four
modules:

- `Wrappers`: `Option`.
- `JsString`: the search for the first occurrence of a character that
  `replace` and `split` perform, `replace` of the first occurrence of one
  character, `split` on one character with its inverse `Join`, and
  `padStart`.
- `JsNumber`:
  - `Math.floor`;
  - the `%` operator, whose remainder keeps the sign of the dividend;
  - `Number.prototype.toString` on integers;
  - `parseFloat` on unsigned decimal literals.
- `Time`: the two converters and the lemmas about them.

`formatTime` is defined for every real, negative ones included. Its
guarantees for non-negative input are lemmas. `toSeconds` answers
`Option<real>`: `None` stands for the inputs where the model gives no number
(see "Left out").

The main results:

- Formatting, then reading back, gives the whole number of seconds:
  - `ToSecondsOfFormatTime` for every non-negative real, which comes back
    truncated;
  - `RoundTrip` for every whole number, with no bound on the hours.
- A timestamp written as `formatTime` writes one reads as its seconds, and
  formatting those seconds gives the same text (`FormatTimeOfToSeconds`).
- The fields recombine to `floor(seconds)`. Minutes and seconds stay in
  `0..59`, and a fraction of a second is dropped, never rounded.
- Padding only adds leading zeros: 100 hours print as `100`.
- `,` reads exactly as `.` would when it is the only `,` in the string.
  The code replaces only the first `,`.
- With fewer than two `:` there is no number.

The truncation law `formatTime(s) == formatTime(floor(s))` holds for
non-negative `s` only, and the model follows the code here. With `%` keeping
the sign of the dividend, `-3599.5` formats as `-1:-60:-60`, while `-3600`
formats as `-1:00:00` (`NegativeTruncationDiffers`). The code does not guard
against negative input.

## Model

| member | source | states |
|---|---|---|
| JsNumber.Floor | utils/time.ts:8 | `Math.floor` answers the integer `r` with `r <= x < r + 1` |
| JsNumber.Remainder | utils/time.ts:9-10 | `x % m` differs from `x` by a whole multiple of `m`; it lies in `[0, m)` for non-negative `x` and in `(-m, 0]` for negative `x` |
| JsNumber.NatToString | utils/time.ts:12 | `toString` of a natural number is non-empty and starts with `0` only for zero |
| JsNumber.IntToString | utils/time.ts:12 | `toString` of an integer is never empty |
| JsNumber.IntToStringReadsBack | utils/time.ts:12 | after the `-` of a negative integer, if any, the digits read back as its absolute value |
| JsNumber.IntToStringSign | utils/time.ts:12 | `toString` of an integer is all digits exactly when the integer is not negative, and starts with `-` exactly when it is negative |
| JsNumber.ParseNat | utils/time.ts:3 | a string of `k` digits reads as a value below ten to the `k` |
| JsNumber.ParseNatCons | utils/time.ts:3 | reading left to right: a digit `d` in front of `t` adds `d` times ten to the length of `t` |
| JsNumber.ParseNatToString | utils/time.ts:3 | reading back the digits `toString` writes gives the number written |
| JsNumber.NatToStringOfParse | utils/time.ts:12 | every digit string without a leading zero is the `toString` of its value |
| JsNumber.NatToStringLength | utils/time.ts:12 | `toString(n)` has more than `k` digits exactly when `n >= 10^k` |
| JsNumber.ParseNatLeadingZeros | utils/time.ts:3 | leading zeros do not change the value read, so `"05"` reads as 5 |
| JsNumber.ParseDecimal | utils/time.ts:3 | `parseFloat` of an unsigned decimal is a non-negative number |
| JsNumber.Fraction | utils/time.ts:3 | the digits after the decimal point add a value in `[0, 1)`; FractionValue gives that value exactly |
| JsNumber.FractionValue | utils/time.ts:3 | moving the point of `0.d1...dk` `k` places to the right gives the integer `d1...dk` |
| JsNumber.Shift | utils/time.ts:3 | moving the point of a non-negative number to the right never makes it smaller |
| JsNumber.ShiftIsProduct | utils/time.ts:3 | moving the point `k` places is multiplying by ten to the `k`, so with FractionValue `0.d1...dk` is `d1...dk` over ten to the `k` |
| JsNumber.ShiftAdd | utils/time.ts:3 | moving the point distributes over a sum |
| JsNumber.ShiftWhole | utils/time.ts:3 | moving the point of a whole number `d` by `k` places gives `d` times ten to the `k` |
| JsNumber.DecimalReads | utils/time.ts:3 | `w.f` reads as `w` plus the fraction; the whole part may be empty, as in `.5` |
| JsNumber.DecimalBounds | utils/time.ts:3 | `w.f` reads as `w` plus the fraction, and its floor is `w`; the whole part may be empty |
| JsNumber.ParseDecimalOfDigits | utils/time.ts:3 | a digit string without a point reads as its whole value |
| JsNumber.FractionTrailingZero | utils/time.ts:3 | a trailing zero after the point does not change the value read |
| JsString.Find | utils/time.ts:3 | the first-occurrence search of `replace` and `split`: the position found is in range and holds the character searched for |
| JsString.FindFirst | utils/time.ts:3 | no earlier position holds the character, and the search runs off the end exactly when the character is absent |
| JsString.ReplaceFirst | utils/time.ts:3 | `replace` of one character keeps the length |
| JsString.ReplaceFirstAbsent | utils/time.ts:3 | a string without the pattern comes back unchanged |
| JsString.ReplaceFirstAt | utils/time.ts:3 | only the first occurrence is replaced; the text before and after it is kept |
| JsString.ReplaceFirstKeeps | utils/time.ts:3 | the replacement leaves the count of every other character alone |
| JsString.Split | utils/time.ts:3 | `split` always gives at least one part |
| JsString.JoinSplit | utils/time.ts:3 | joining the parts with the separator gives the string back, and no part holds the separator |
| JsString.SplitJoin | utils/time.ts:3 | splitting separator-free parts joined by the separator gives the parts back |
| JsString.SplitCount | utils/time.ts:3 | there is one part more than there are separators |
| JsString.PadStart | utils/time.ts:12 | `padStart` reaches the width, and a longer string keeps its length |
| JsString.PadStartShape | utils/time.ts:12 | padding is a run of the fill character in front of the unchanged string |
| Time.Decompose | utils/time.ts:8-10 | for non-negative input, hours are non-negative and minutes and seconds lie in `0..59`; for negative input, hours are negative |
| Time.DecomposeTruncates | utils/time.ts:8-10 | for non-negative input, the fields are `n / 3600`, `n % 3600 / 60` and `n % 60` of `n = floor(seconds)` |
| Time.DecomposeRecombines | utils/time.ts:8-10 | `hours * 3600 + minutes * 60 + secondsPart == floor(seconds)` for non-negative input |
| Time.DecomposeOfFields | utils/time.ts:8-10 | hours, minutes under 60 and seconds under 60 are recovered from their weighted sum |
| Time.Field | utils/time.ts:12 | a padded field is at least two characters long |
| Time.FieldDigits | utils/time.ts:12 | a field is all digits exactly when its value is not negative |
| Time.FieldPadding | utils/time.ts:12 | values under 10 get one leading zero; 10 and above keep all their digits, untruncated; the field reads back as its value |
| Time.Render | utils/time.ts:12 | the three fields and two colons make at least eight characters |
| Time.FormatTime | utils/time.ts:7-13 | the output is at least eight characters long |
| Time.FormatTimeShape | utils/time.ts:12 | for non-negative input there are exactly two colons, and splitting on them gives the three all-digit fields |
| Time.FormatTimeTruncates | utils/time.ts:8-10 | a non-negative time formats as its floor does |
| Time.FormatTimeOfFields | utils/time.ts:8-12 | whole seconds given as hours, minutes under 60 and seconds under 60 format as those three fields |
| Time.FormatTimeNegative | utils/time.ts:8-12 | a negative input formats with a leading minus sign |
| Time.NegativeTruncationDiffers | utils/time.ts:8-12 | for `-3599.5` the fields are `-1, -60, -60`, for its floor `-3600` they are `-1, 0, 0`, and the texts differ |
| Time.FormatTimeExamples | utils/time.ts:7-13 | `0` gives `00:00:00`, `3661` gives `01:01:01`, `59.9` gives `00:00:59` and `360000` gives `100:00:00` |
| Time.ToSeconds | utils/time.ts:2-5 | a number read is never negative |
| Time.Weigh | utils/time.ts:4 | there is a sum exactly when all three parts are numbers, and a sum of non-negative parts is non-negative |
| Time.ToSecondsOfFields | utils/time.ts:3-4 | three colon-free, comma-free decimal fields joined by `:` read as `h * 3600 + m * 60 + s` |
| Time.ToSecondsOfDecimal | utils/time.ts:3-4 | digit fields whose seconds carry a fraction read as hours, minutes and seconds with that fraction, also when the whole seconds are left out (`.5`) |
| Time.ToSecondsNeedsThreeFields | utils/time.ts:3 | a string with fewer than two `:` has fewer than three parts and gives no number |
| Time.CommaAsDecimalPoint | utils/time.ts:3 | when `,` is the only comma, the string reads as it would with `.` in its place |
| Time.ToSecondsOfFormatTime | utils/time.ts:2-13 | reading back a formatted non-negative time gives its floor |
| Time.RoundTrip | utils/time.ts:2-13 | every whole number of seconds, however many hours, survives formatting and reading back |
| Time.FormatTimeOfToSeconds | utils/time.ts:2-13 | a timestamp written as `formatTime` writes one reads as its seconds, which format back to the same timestamp |
| Time.ToSecondsExamples | utils/time.ts:2-5 | `00:00:00` reads as 0, `01:00:00` as 3600 and `00:01:30.250` as 90.25, and `01:02:03,500` and `01:02:03.500` both read as 3723.5, and `00:00:.5` reads as 0.5 |

## Left out

- Numbers are exact reals, not IEEE-754 doubles. The rounding of `/`, `*` and `+` and the loss of precision above 2^53 are not modelled.
- JsNumber.ParseDecimal: it reads only unsigned decimals, that is digits with an optional `.` and more digits. Any other string gives `None`. So the model covers none of these `parseFloat` behaviours:
  - skipping leading whitespace;
  - a sign, an exponent or `Infinity`;
  - reading the longest valid prefix of a malformed field;
  - answering `NaN`.
- Time.ToSeconds: it answers `None` where JavaScript answers `NaN`, or a number read from a prefix. This covers fewer than three `:`-separated parts and any part outside the decimal grammar above. With more than three parts, the first three are used, as in the code.
- `Number.prototype.toString` is modelled for integers only. The exponent form it uses from 1e21 upward is left out. `formatTime` only prints results of `Math.floor`.
- JavaScript's `-0`: `-3600 % 3600` is `-0`, which prints as `0`. The model's `0` prints the same way.
- The `export` block at utils/time.ts:15-18 only publishes the two functions, and has nothing to model.
