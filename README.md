# Row normalisation of the spreadsheet upload server

This project models in Dafny the row normalisation done by the server's `POST /upload` handler (`server.js`). An uploaded workbook arrives as a list of sheet names and, for each sheet, a sequence of rows. Each row maps column headers to cell values. The handler:

1. rebuilds each row with `trimRowValues`, trimming every property name and every string value, where a later property overwrites an earlier one whose name trims the same;
2. builds a fixed eleven-field record from the trimmed row. Text columns use JavaScript's `value || default`. The four counts use `value ? parseInt(value, 10) : 0`. The pass rate is `null` for a missing cell, and is otherwise multiplied by 100 when it reads below 1;
3. returns one `{ sheet, rows }` entry per sheet name, in sheet order, with one record per row, in row order.

Modules, one per layer:

- `JsString` (`js_string.dfy`): `String.prototype.trim` per section 22.1.3.30 of ECMA-262 (2022 edition). It covers the white-space and line-terminator code points of sections 12.2 and 12.3.
- `JsNumber` (`js_number.dfy`): `parseInt(s, 10)` per section 19.2.5 and `parseFloat(s)` per section 19.2.4. Both skip leading white space, accept an optional sign, read the longest numeric prefix and ignore what follows.
- `Rows` (`rows.dfy`): cell values (`Str | Num | Bool | Null`) and JavaScript truthiness. A raw row is a sequence of (name, value) pairs in `for...in` enumeration order. `TrimmedRow` specifies the trimmed object as a map. `TrimRowValues` is the loop, as a method proved equal to it.
- `Records` (`records.dfy`): the record builder and the pass-rate branch.
- `Upload` (`upload.dfy`): the per-sheet and per-row mapping.
- `Wrappers` (`wrappers.dfy`): `Option`. In a count, `None` stands for JavaScript's NaN. In the pass rate, `None` stands for `null`.

## Behaviour worth knowing

- A truthy text cell goes into the record trimmed, and is not converted otherwise. A numeric `Release` cell stays a number; nothing converts it to a string.
- A count whose text has no leading digits is NaN (`None`), not an integer.
- A `Pass Rate` that is present but is not a number yields NaN in the record before serialisation, not `null` and not an error. The condition `NaN < 1` is false, so the value reaches the `else` branch unchanged.
- A `Pass Rate` cell holding `""` or `0` is present and not null, so it yields a number (or NaN), not `null`.

## Model

| member | source | states |
|---|---|---|
| JsString.Trim | server.js:20-23 | the trimmed name or value neither starts nor ends with white space |
| JsString.TrimIsBothEnds | server.js:20-23 | trim is the trailing trim of the leading trim, as the standard defines it |
| JsString.TrimPadding | server.js:20-23 | the trimmed text occurs in the input with nothing but white space on either side of it |
| JsString.TrimUnique | server.js:20-23 | any unpadded core surrounded only by white space is exactly what trim returns |
| JsString.TrimFixpoint | server.js:20-23 | trim returns its input unchanged if and only if the input has no leading or trailing white space |
| JsString.TrimIdempotent | server.js:20-23 | trimming twice gives the same as trimming once |
| JsString.TrimIgnoresPadding | server.js:20 | white space added on either side of a header does not change its trimmed form |
| JsNumber.ParseInt | server.js:57-60 | parseInt gives NaN exactly when no digit follows the leading white space and the optional sign |
| JsNumber.LeadingInteger | server.js:57-60 | after an optional sign, NaN exactly when no digit follows |
| JsNumber.ParseIntShow | server.js:57-60 | parseInt reads back any integer written in decimal, whatever non-digit text follows it |
| JsNumber.ParseIntStopsAtPoint | server.js:57-60 | parseInt stops at a decimal point: the text k.d reads as k, for any text d |
| JsNumber.ParseIntBeforePoint | server.js:57-60 | digits, a point and any text read as the value of the digits |
| JsNumber.ParseIntSkipsBlank | server.js:57-60 | leading white space does not change what parseInt reads |
| JsNumber.ParseFloat | server.js:48-51 | parseFloat gives an infinity exactly when "Infinity" follows the leading white space and the optional sign, and NaN exactly when neither that nor a decimal literal does |
| JsNumber.ParseDecimal | server.js:48-51 | a decimal literal is read exactly when the text starts with a digit or with a point followed by a digit |
| JsNumber.ParseIntNoDigit | server.js:57-60 | text that starts with no white space and has no digit after its optional sign parses to NaN ("abc", "-abc", "-", "+") |
| JsNumber.TrimStartSkipsBlank | server.js:48-60 | both parsers skip the same leading white space that trim removes |
| JsNumber.ParseFloatDecimal | server.js:48-51 | parseFloat of a literal of the form digits, point, digits is its exact decimal value, whatever non-digit, non-exponent text follows |
| JsNumber.ParseFloatShow | server.js:48-51 | parseFloat reads back a whole number written in decimal |
| JsNumber.ParseFloatExponent | server.js:48-51 | digits, an "e" or "E", "-" and k read as the digits' value divided by 10^k, whatever non-digit text follows |
| JsNumber.DecimalValueBounds | server.js:57-60 | the decimal k.d lies in [k, k + 1) for any digits d |
| JsNumber.ParseFloatFraction | server.js:48 | the text "0.8532" reads as 0.8532 |
| JsNumber.ParseFloatPercentage | server.js:50-51 | the text "85.32" reads as 85.32 |
| JsNumber.ParseFloatNoNumber | server.js:48-51 | text whose first character is no white space, sign, digit, point or the "I" of "Infinity" reads as NaN |
| Rows.TrimRowValues | server.js:17-28 | the loop builds exactly the object `TrimmedRow` describes: each property stored under its trimmed name, a later one replacing an earlier one |
| Rows.TrimValue | server.js:22-24 | a string value comes out unpadded and still a string; any other value is unchanged |
| Rows.TrimValueRemovesPadding | server.js:22-24 | what trimming a string value removes is white space on either side of the result, and nothing else |
| Rows.TrimmedRow | server.js:17-28 | the trimmed object has at most one entry per property of the row, and is empty exactly when the row is |
| Rows.TrimmedRowExtend | server.js:19-25 | one more pass of the loop stores the next property's value, a string trimmed, under its trimmed name over the object built so far |
| Rows.TrimmedRowKeys | server.js:19-25 | a name is in the trimmed row if and only if it is the trimmed name of some property of the input row |
| Rows.KeyFromProperty | server.js:19-25 | every name in the trimmed row is the trimmed name of some property of the input row |
| Rows.PropertyKeyStored | server.js:19-25 | every property's trimmed name is a name in the trimmed row |
| Rows.LastWriteWins | server.js:19-25 | when several properties trim to one name, the last one enumerated supplies the value: a string trimmed, any other value unchanged |
| Rows.TrimmedRowIsTrimmed | server.js:20-25 | every name and every string value in the trimmed row is free of leading and trailing white space |
| Rows.TrimmedRowOfTrimmed | server.js:19-25 | a row whose names are distinct and trimmed, and whose string values are trimmed, is stored entry for entry |
| Rows.TrimRowValuesIdempotent | server.js:17-28 | running trimRowValues again over its own result, in any enumeration order, returns the same object |
| Rows.KeyPaddingIgnored | server.js:20-25 | renaming a property to any name with the same trimmed form leaves the trimmed row unchanged |
| Records.NoColumnsGivesDefaults | server.js:53-65 | a row with none of the eleven column names yields the all-default record ("", "N/A", null, four zeros, "", "", "#", "#") |
| Records.OrDefault | server.js:54-64 | `value || default` is never null, is the value itself when that is truthy, is truthy whenever the default is non-empty, and carries no padding when neither the value nor the default does |
| Records.BuildRecord | server.js:53-65 | no text column is null; Build Number, Server URL and Result Link are always truthy; unpadded cells give unpadded text columns |
| Records.NormalizeRow | server.js:44-65 | the record of any raw row has no null text column and no padded string in one |
| Records.TextColumnAbsent | server.js:44-64 | a text column whose name no property trims to gets that column's default |
| Records.TextColumnFromCell | server.js:44-64 | otherwise the last property whose name trims to the column's name supplies it: its value, a string trimmed, when truthy, with no conversion of a number to a string, and the default when falsy |
| Records.CountAbsent | server.js:44-60 | a count whose name no property trims to is 0 |
| Records.CountFromCell | server.js:44-60 | otherwise the last property whose name trims to the count's name supplies it: parseInt of its value, a string trimmed, when truthy, and 0 when falsy |
| Records.Truncate | server.js:57-60 | the integer part of a number: the largest integer not above it for a non-negative number, the smallest not below it for a negative one |
| Records.TruncateBetween | server.js:57-60 | a number in [k, k + 1) truncates to k |
| Records.NumberCountIsTextCount | server.js:57-60 | a numeric count cell k.d and the text cell "k.d" give the same count k, so truncation is what parseInt does to a number's decimal text |
| Records.IntOf | server.js:57-60 | only a number or text can give an integer; a number gives its integer part, text gives parseInt of the text, and a boolean or null gives parseInt of its text ("true", "false", "null"), which is NaN |
| Records.Count | server.js:57-60 | every falsy cell gives 0, and the count is NaN exactly for `true` or for non-empty text parseInt cannot read |
| Records.CountOfText | server.js:57-60 | a count cell holding an integer's decimal text, with or without trailing text, yields that integer |
| Records.CountOfNumber | server.js:57-60 | a numeric count cell yields its integer part, and a whole number yields itself |
| Records.CountOfNoDigits | server.js:57-60 | truthy text with no digit after its optional sign, such as "abc", "-abc", "-" or "+", gives a NaN count |
| Records.CountOfFortyTwo | server.js:57-60 | count cells "42" and "42abc" give 42 |
| Records.CountOfAbc | server.js:57-60 | the count cell "abc" gives NaN |
| Records.CountOfEmpty | server.js:57-60 | an empty or missing count cell gives 0 |
| Records.PassRateNullIff | server.js:46-52 | the pass rate is null exactly when the trimmed "Pass Rate" cell is absent or null |
| Records.FloatOf | server.js:48-51 | a number reads back as itself, text is parsed by parseFloat, and a boolean or null is parseFloat of its text, which is NaN |
| Records.PassRate | server.js:46-52 | the pass rate is null exactly when the cell is null; it is NaN exactly when parseFloat gives NaN; a finite value of 1 or more is kept |
| Records.PassRateScaling | server.js:48-51 | a finite pass rate x becomes 100·x exactly when x < 1, so 1 stays 1 |
| Records.FractionIsPercentage | server.js:48-51 | a fraction in [0, 1) gives a pass rate in [0, 100) |
| Records.PassRateOfNumbers | server.js:46-52 | numeric cells 0.8532, 85.32 and 1 give pass rates 85.32, 85.32 and 1 |
| Records.FractionTextScaled | server.js:48-49 | the text cell "0.8532" is scaled to 85.32 |
| Records.PercentageTextKept | server.js:50-51 | the text cell "85.32" is kept as 85.32 |
| Records.ExponentTextScaled | server.js:48-49 | a text cell in exponent notation worth less than 1, such as "5e-1" or "85E-2", is a fraction and is scaled by 100 |
| Records.TextFractionScaled | server.js:48-49 | a text cell parseFloat reads as a fraction in [0, 1) gives 100 times that fraction |
| Records.NoNumberTextIsNaN | server.js:46-51 | the text cell "n/a" gives a NaN pass rate, not null |
| Records.BuildRecordReadsColumns | server.js:53-65 | the record depends only on the eleven column cells |
| Records.HeaderPaddingIgnored | server.js:44-65 | a column header such as " Release " is matched as "Release" |
| Records.ReleaseFromCell | server.js:44-54 | a string under the last header that trims to "Release" reaches the record trimmed, or as "" when it trims to nothing |
| Upload.NormalizeRows | server.js:43-66 | one record per row, in row order, each made from its own row alone |
| Upload.Map | server.js:41-43 | `.map` gives one result per element, in order, each the function applied to its own element |
| Upload.ProcessSheets | server.js:41-68 | one result per sheet name, in order, with that name and the records of that sheet's rows |
| Upload.ProcessWorkbook | server.js:41-68 | the response has one entry per sheet in workbook order, and the j-th record of entry i is the j-th row of sheet i normalised |
| Upload.MapAppend | server.js:43 | mapping a function over two runs of elements, one after the other, gives the two mapped runs one after the other |
| Upload.NormalizeRowsAppend | server.js:43-66 | rows are processed independently: the records of two runs of rows, concatenated, are the records of the concatenation |
| Upload.TwoSheets | server.js:41-68 | sheets "Sheet1" and "Sheet2" give two entries named "Sheet1" and "Sheet2" in that order |

## Left out

- Express setup, CORS, the port binding and `process.env.PORT` (server.js:7-8, 78-79) are process plumbing.
- The multer memory upload and the 400 response for a missing file (server.js:11-12, 30-34) are HTTP input and output.
- `xlsx.read` and `xlsx.utils.sheet_to_json` (server.js:37, 42) are a spreadsheet decoder that is not part of this model. The sheet names and the rows of each sheet are inputs. The decoder gives a row's properties in `for...in` enumeration order, and lists only names of sheets it decoded (`Upload.WellFormed`).
- Logging and the try/catch 500 response (server.js:70-74) are input and output.
- Records.PassRate: NaN and ±Infinity pass rates reach the client as `null`, because `res.json` (server.js:71) serialises them so. The model stops at the record before serialisation, where they are NaN and infinities.
- Records.PassRate: the `toFixed(2)` rounding and the re-parse with `parseFloat` (server.js:49, 51) are not modelled. The pass rate is the exact, unrounded value, because the rounding is IEEE-754 formatting.
- JsNumber.Number: finite values are exact reals. Double-precision rounding, overflow to infinity for very long digit strings or large exponents, and negative zero are not modelled.
- JsNumber.ParseInt: the result is an exact integer. In JavaScript, parseInt loses precision above 2^53, and a long enough digit string gives Infinity, which the JSON response writes as `null`.
- Records.Truncate: for a numeric count cell the model takes the integer part. JavaScript writes numbers of magnitude at least 10^21 or below 10^-6 in exponent notation, where parseInt reads only the leading digits. The model does not follow that.
- Rows.TrimRowValues: a property whose name trims to `__proto__` is stored as an ordinary entry. In JavaScript that assignment goes to the prototype setter instead. None of the eleven column names read afterwards is affected.
- Rows.Value: spreadsheet dates and error cells are not separate kinds of value. The decoder delivers them as numbers or strings, which the model covers.
- Records.Count: a count of `None` is NaN in JavaScript, which the JSON response writes as `null`. The JSON serialisation itself is not modelled.
