# Valorization report: the row engine

This project models the part of the real-estate valorization report that works
on rows. The user types one row per property unit: development, unit,
acquisition value, acquisition date and current value. Every row is read into
numbers and checked field by field. The rows that pass are added up into the
report's totals and its donut chart, and can be exported as CSV.

Two editions of the component share this engine. `src/ValorizationReportApp.tsx`
is the one the application mounts; `src/App.jsx` is the older one. The model
calls them `ReportApp` and `LegacyApp` (`Rows.Edition`). Where the model tells
them apart, they differ in:

- the message for a zero acquisition value (`"(> 0)"` or `"(>0)"`);
- the fixture amounts: masked currency text in the first, raw strings in the second.

They also differ in ways the model does not separate, each listed under
"## Left out". `App.jsx` does not mask its amount inputs with `maskBRL`, it has
no `listaSiglas`, and its `validForTotals` can be a string.

Modules, one per file:

- `numbers.dfy` (`Numbers`): JavaScript numbers as a finite real or `NaN`, with JavaScript's comparisons.
- `text.dfy` (`Text`): digits, decimal text, thousands grouping, search, replace, join and split.
- `decimal.dfy` (`Decimal`): `toDecimal`, the free-text amount parser.
- `dates.dfy` (`Dates`): `new Date(s)` on `YYYY-MM-DD` text, as a day number.
- `rows.dfy` (`Rows`): a row, its fields, `emptyRow`.
- `acronym.dfy` (`Acronym`): `acronymFromEmp`.
- `brl.dfy` (`Brl`): the `maskBRL` input mask, and currency text for whole cents.
- `engine.dfy` (`Engine`): `parsedRows` (validation and the per-row figures), `totals` and `pieData`.
- `fixtures.dfy` (`Fixtures`): the rows of "samples" and "edge cases", and what the engine makes of the edge cases.
- `editor.dfy` (`Editor`): the row list and the id counter, as a class whose methods are the handlers.
- `csv.dfy` (`Csv`): the text `exportCSV` builds, and a reader proving it reads back.

The edge case TX-01 pairs `200k` with invalid text, but `parseFloat` reads the
longest numeric prefix and the cleaning step drops the `k`, so
`toDecimal("200k")` is 200 (`Fixtures.EdgeInvalidText`).

## Model

| member | source | states |
|---|---|---|
| Decimal.ToDecimal | src/ValorizationReportApp.tsx:103-104 | `null` and `undefined` read as `NaN` |
| Decimal.Clean | src/ValorizationReportApp.tsx:105 | the cleaned text keeps only digits, `,`, `.` and `-`, all taken from the input |
| Decimal.CleanIdempotent | src/ValorizationReportApp.tsx:105 | cleaning twice is cleaning once, and cleaning first does not change the value read |
| Decimal.DropNoise | src/ValorizationReportApp.tsx:103-114 | characters other than digits and separators, around an amount, do not change its value |
| Decimal.NoDigitIsNaN | src/App.jsx:55-65 | a text with no digit reads as `NaN` |
| Decimal.IntegerText | src/ValorizationReportApp.tsx:113 | a string of digits reads as its decimal value |
| Decimal.PlainInteger | src/App.jsx:64 | the decimal text of any natural number reads back as that number |
| Decimal.CommaDecimal | src/ValorizationReportApp.tsx:113 | with a comma and no dot, the comma is the decimal point, with or without a minus sign |
| Decimal.Normalize | src/ValorizationReportApp.tsx:106-113 | the separator rule keeps the cleaned alphabet, leaves no comma when a dot is the last separator, and leaves text without commas alone |
| Decimal.ParseFloat | src/ValorizationReportApp.tsx:113 | a number is read only from the front of the text, and text that starts with a digit always reads as a number |
| Decimal.ParseFloatDecimalThen | src/ValorizationReportApp.tsx:110 | `[-]a.b` followed by anything that does not start with a digit reads as the decimal `a.b`, signed; the rest is ignored ("1000.5,0" reads as 1000.5) |
| Decimal.ParseFloatIntegerThen | src/ValorizationReportApp.tsx:113 | `[-]a` followed by anything that starts with neither a digit nor a point reads as the whole number `a`, signed; the rest is ignored ("10-20" reads as 10) |
| Decimal.LeadingDigitIsFinite | src/ValorizationReportApp.tsx:105-113 | any text whose cleaned form starts with a digit, such as `200k`, reads as a number |
| Decimal.NormalizeFirstComma | src/ValorizationReportApp.tsx:106-110 | when a comma follows the last dot, every dot is dropped and the first comma of the whole text becomes the point, even one before a dot; later commas stay ("1,2.5,6" becomes "1.25,6") |
| Decimal.NormalizeCommaLast | src/ValorizationReportApp.tsx:106-110 | when every comma follows the last dot, every dot is dropped and the first comma becomes the point; later commas stay |
| Decimal.NormalizeDotLast | src/ValorizationReportApp.tsx:106-111 | when the last separator is a dot, every comma is dropped |
| Decimal.NormalizeCommaOnly | src/ValorizationReportApp.tsx:113 | with no dot, only the first comma becomes the point; later commas stay |
| Decimal.BrazilianAmount | src/ValorizationReportApp.tsx:106-110 | `1.234.567,89` (dot-grouped, comma decimal) reads as its amount for every whole part and cents |
| Decimal.EnglishAmount | src/ValorizationReportApp.tsx:106-111 | `1,234,567.89` (comma-grouped, dot decimal) reads as its amount for every whole part and cents |
| Dates.ParseIso | src/ValorizationReportApp.tsx:315 | an accepted date is a valid calendar date with a four-digit year |
| Dates.Timestamp | src/ValorizationReportApp.tsx:315 | a date text has a time value exactly when it parses |
| Dates.ParseIsoText | src/ValorizationReportApp.tsx:315 | the `YYYY-MM-DD` text of every valid date parses back to that date |
| Dates.IsoTextOfParse | src/ValorizationReportApp.tsx:315 | an accepted text is exactly the `YYYY-MM-DD` text of the date it parses to |
| Dates.DayNumberOrder | src/ValorizationReportApp.tsx:334 | comparing time values is comparing dates in calendar order, and equal time values are the same date |
| Dates.NextMonth | src/ValorizationReportApp.tsx:342 | the first of a month is one day after the last day of the month before |
| Dates.NextYear | src/ValorizationReportApp.tsx:342 | the first of January is one day after the 31st of December before |
| Rows.EmptyRow | src/ValorizationReportApp.tsx:125-132 | an empty row carries its id and every field is empty |
| Rows.With | src/ValorizationReportApp.tsx:195 | the spread update sets the named field, keeps the id and leaves every other field as it was |
| Acronym.TrimPadding | src/ValorizationReportApp.tsx:148 | trimming removes any JavaScript white space around a name |
| Acronym.AcronymIgnoresPadding | src/ValorizationReportApp.tsx:146-152 | white space around a name does not change its acronym |
| Acronym.HolException | src/ValorizationReportApp.tsx:149 | "hol 1480", in any letter case and with any padding, is labelled `Hol` |
| Acronym.AcronymOfWords | src/ValorizationReportApp.tsx:150-151 | for words joined by single spaces, the acronym is the upper-cased first letters, in order |
| Acronym.AcronymFromEmp | src/ValorizationReportApp.tsx:146-152 | an empty name gives an empty acronym; apart from the "hol 1480" exception, the acronym is empty exactly when the trimmed name has no word, and has at least one character per word |
| Acronym.WordsAcrossSpaces | src/ValorizationReportApp.tsx:150 | any run of spaces between two texts separates the same words as one space, because the split's empty pieces are filtered out |
| Acronym.AcronymAcrossSpaces | src/ValorizationReportApp.tsx:146-152 | a run of spaces between two words gives the same acronym as one space, unless the single-spaced name is the "hol 1480" exception |
| Acronym.TwoWords | src/ValorizationReportApp.tsx:150-151 | a two-word name gives its two upper-cased initials |
| Acronym.VerticeBariguiLabel | src/ValorizationReportApp.tsx:136-152 | "Vértice Barigui" is labelled `VB` |
| Acronym.HolLabel | src/ValorizationReportApp.tsx:136-152 | "Hol 1480" is labelled `Hol`, not `H1` |
| Brl.Digits | src/ValorizationReportApp.tsx:157-160 | the kept characters are all digits and no more than the input |
| Brl.MaskBRL | src/ValorizationReportApp.tsx:155-167 | the mask is `R$ `, a number starting with a digit, a comma and two digits of cents; with no digit typed it is `R$ 0,00` |
| Brl.CurrencyBR | src/ValorizationReportApp.tsx:70-76 | currency text is `R$`, a non-breaking space, a number starting with a digit, a comma and two digits of cents |
| Brl.MaskShape | src/ValorizationReportApp.tsx:155-167 | the mask shows all typed digits as cents: the reais grouped by thousands, then two digits of cents; no digit gives `R$ 0,00` |
| Brl.MaskValue | src/ValorizationReportApp.tsx:155-167 | `toDecimal` reads the masked text as the typed digits divided by 100 |
| Brl.MaskIdempotent | src/ValorizationReportApp.tsx:155-167 | masking an already masked amount leaves it unchanged |
| Brl.CurrencyValue | src/ValorizationReportApp.tsx:70-76 | `toDecimal` reads the currency text of an amount back as that amount |
| Brl.MaskOfCurrency | src/ValorizationReportApp.tsx:155-175 | the mask keeps the cents of currency text and shows them in its own form |
| Engine.Dias | src/ValorizationReportApp.tsx:340-342 | the day count is at least 1; it is the whole days from acquisition to report, or 1 when the date is later or invalid |
| Engine.SameDay | src/ValorizationReportApp.tsx:340-342 | acquisition and report on the same day count as one day |
| Engine.ValorizacaoPct | src/ValorizationReportApp.tsx:344 | the appreciation is a number exactly when the acquisition is positive and the current value a number, and then it is the percentage by which the acquisition value grows to the current value |
| Engine.LucroMes | src/ValorizationReportApp.tsx:345 | the monthly profit is a number exactly when both amounts are |
| Engine.LucroPctMes | src/ValorizationReportApp.tsx:346 | the monthly percentage is a number exactly when the acquisition is positive and the monthly profit a number |
| Engine.Figures | src/ValorizationReportApp.tsx:340-346 | monthly profit is the gain scaled to 30 days; monthly percentage is the appreciation scaled the same way |
| Engine.Evaluate | src/ValorizationReportApp.tsx:305-364 | a parsed row keeps the row's id and the amounts read, holds for at least one day, and counts only when complete, positively priced and not dated after the report |
| Engine.ParseRow | src/ValorizationReportApp.tsx:305-364 | a parsed row keeps the row's id, development and unit, holds for at least one day, marks every empty field `Obrigatório`, and counts only with a positive acquisition and a numeric current value |
| Engine.RequiredErrorsTable | src/ValorizationReportApp.tsx:317-321 | a field has `Obrigatório` exactly when it is empty |
| Engine.ErrorsTable | src/ValorizationReportApp.tsx:316-338 | the messages of a row are exactly those of a per-field table, whatever order the checks run in |
| Engine.ValidIff | src/ValorizationReportApp.tsx:347-348 | a row counts exactly when all fields are filled, the acquisition is a positive number, the current value is a number and the date is not after the report |
| Engine.ValidRowMessages | src/ValorizationReportApp.tsx:323-348 | a counted row has no message except `Valor inválido` on a negative current value |
| Engine.BothIgnoreReasons | src/ValorizationReportApp.tsx:328-338 | a zero acquisition with a future date gets both messages and is not counted |
| Engine.ParsedRows | src/ValorizationReportApp.tsx:302-365 | one parsed row per row |
| Engine.ParseAll | src/ValorizationReportApp.tsx:304 | the parsed rows keep the rows' order and ids |
| Engine.ParseAllAppend | src/ValorizationReportApp.tsx:304 | rows are parsed independently of each other |
| Engine.ParsedRowsPriced | src/ValorizationReportApp.tsx:347-348 | every counted parsed row has a positive acquisition value and a numeric current value |
| Engine.ValidRows | src/ValorizationReportApp.tsx:368 | the filter keeps only counted rows, taken from the parsed rows |
| Engine.ValidRowsAppend | src/ValorizationReportApp.tsx:368 | filtering a concatenation is concatenating the filtered parts |
| Engine.Units | src/ValorizationReportApp.tsx:370 | the unit list is the counted rows' units, in order |
| Engine.Labels | src/ValorizationReportApp.tsx:385-387 | each label is the development's acronym followed by the unit |
| Engine.ComputeTotals | src/ValorizationReportApp.tsx:367-397 | no more units than rows; profit is current total minus contract total; with no counted row every total and the percentage are 0 and both lists are empty, and the percentage is 0 whenever the contract total is not positive; otherwise the percentage is the one by which the contract total grows to the current total |
| Engine.PieData | src/ValorizationReportApp.tsx:399-411 | two slices: the contract total, and a profit slice that is never negative and never below the profit |
| Engine.SumsAppend | src/ValorizationReportApp.tsx:371-378 | both sums add up over a concatenation |
| Engine.UncountedRowIgnored | src/ValorizationReportApp.tsx:367-387 | a row that is not counted changes neither the count, nor either list, nor either sum |
| Engine.CountedRowAdded | src/ValorizationReportApp.tsx:367-387 | a counted row adds one unit and its two amounts to the sums; its unit and its label (the development's acronym then the unit) go at the end of the two lists, after ", " unless the list was empty |
| Engine.ContractTotalPositive | src/ValorizationReportApp.tsx:371-384 | the contract total is positive exactly when some row counts; with none, profit and percentage are 0 |
| Engine.ProfitIsSumOfGains | src/ValorizationReportApp.tsx:379-380 | the report's profit is the sum of the counted rows' gains |
| Engine.PieClamp | src/ValorizationReportApp.tsx:399-411 | the profit slice is never negative, equals the profit when there is one, and the two slices add up to the larger of the two totals |
| Fixtures.Samples | src/ValorizationReportApp.tsx:198-227 | there are four samples |
| Fixtures.EdgeCases | src/ValorizationReportApp.tsx:234-277 | there are six edge cases |
| Fixtures.EdgeZeroAcquisition | src/ValorizationReportApp.tsx:235-241 | case AZ-01 is reported as a zero acquisition and is not counted |
| Fixtures.EdgeFutureDate | src/ValorizationReportApp.tsx:242-248 | case DF-01 is reported as dated after the report, counts one day and is not counted |
| Fixtures.EdgeDepreciation | src/ValorizationReportApp.tsx:249-255 | case DV-01 counts, shows -10% appreciation and a negative monthly profit |
| Fixtures.EdgeSameDay | src/ValorizationReportApp.tsx:256-262 | case DI-01 counts with a one-day holding and amounts 50000 and 52000 |
| Fixtures.EdgeDecimalComma | src/App.jsx:126 | case VD-01 reads as 150000.50 and 160100.75 in both editions |
| Fixtures.EdgeInvalidText | src/App.jsx:127 | case TX-01 reads `um valor` as `NaN` and `200k` as 200, gets `Valor inválido` and is not counted |
| Editor.RemoveId | src/ValorizationReportApp.tsx:189 | the filter keeps exactly the rows with another id, and never grows the list |
| Editor.EditRows | src/ValorizationReportApp.tsx:194-195 | only the named field of the rows with that id changes, and ids and length are kept |
| Editor.StampFrom | src/ValorizationReportApp.tsx:281 | the i-th new row is the i-th entry with id `first + i` |
| Editor.KeepBase | src/ValorizationReportApp.tsx:279-280 | the rows are dropped exactly when the list is one row with no development and no unit |
| Editor.RemoveIdCount | src/ValorizationReportApp.tsx:188-189 | with distinct ids, removing a present id removes one row, and an absent id removes none |
| Editor.RemoveIdUnique | src/ValorizationReportApp.tsx:189 | removing keeps ids distinct |
| Editor.RemoveKeepsOne | src/ValorizationReportApp.tsx:188-189 | removing from two or more rows never empties the list |
| Editor.AppendFresh | src/ValorizationReportApp.tsx:278-284 | rows numbered from the counter keep ids distinct and below the advanced counter |
| Editor.SamplesNumbered | src/ValorizationReportApp.tsx:228 | the samples get ids 1 to 4 |
| Editor.RowEditor.constructor | src/ValorizationReportApp.tsx:180-184 | the list starts as one empty row with id 1 and the counter at 2 |
| Editor.RowEditor.AddRow | src/ValorizationReportApp.tsx:187 | appends an empty row with the counter's id and advances the counter, keeping ids distinct |
| Editor.RowEditor.RemoveRow | src/ValorizationReportApp.tsx:188-189 | the last row stays; otherwise the row with that id goes and the rest stay |
| Editor.RowEditor.ClearAll | src/ValorizationReportApp.tsx:190-193 | back to one empty row with id 1 and the counter at 2 |
| Editor.RowEditor.HandleRowChange | src/ValorizationReportApp.tsx:194-195 | sets one field of the row with that id |
| Editor.RowEditor.AddSamples | src/ValorizationReportApp.tsx:197-230 | replaces the rows by the samples with ids 1 to 4 and sets the counter to 5 |
| Editor.RowEditor.AddEdgeCases | src/ValorizationReportApp.tsx:232-285 | appends the six edge cases with fresh ids, after dropping a lone blank row, and advances the counter by 6 |
| Csv.Quote | src/ValorizationReportApp.tsx:437 | a quoted cell starts and ends with `"`, and a cell without quotes is just wrapped |
| Csv.Line | src/ValorizationReportApp.tsx:436-437 | no cells give an empty line; otherwise the line starts with the first quoted cell |
| Csv.Document | src/ValorizationReportApp.tsx:435-438 | the document starts with the header line, and with no rows it is the header line alone |
| Csv.Export | src/ValorizationReportApp.tsx:413-439 | the export starts with the byte-order mark, and with no rows it is the mark and the header line |
| Csv.PercentCellOf | src/ValorizationReportApp.tsx:78-83 | under `percent2`'s shape, a percentage cell is `–` exactly for a value that is not a number |
| Csv.PercentCells | src/ValorizationReportApp.tsx:424-433 | a row's two percentage cells are `–` exactly when its acquisition is not a positive number or its current value is no number |
| Csv.EdgeZeroAcquisitionCells | src/ValorizationReportApp.tsx:235-241 | case AZ-01 exports `–` in both percentage cells |
| Csv.EdgeInvalidTextCells | src/App.jsx:127 | case TX-01 of the older edition exports `–` in both percentage cells |
| Csv.Record | src/ValorizationReportApp.tsx:424-433 | every row gives as many cells as the header has |
| Csv.LineRoundTrip | src/ValorizationReportApp.tsx:436-437 | a quoted line reads back as its cells, whatever quotes and `;` they hold |
| Csv.DocumentRoundTrip | src/ValorizationReportApp.tsx:435-438 | with no line break in a cell, the document is the header line and then one line per record, in order |
| Csv.ExportRoundTrip | src/ValorizationReportApp.tsx:413-439 | the export is the byte-order mark, the header, then one line per parsed row that reads back as its eight cells |

## Left out

- Intl formatting: `currencyBR` is modelled only for non-negative whole numbers of cents (`Brl.CurrencyBR`). That is all the fixtures need. `currencyBR`, `percent2` and `formatDateBR` are parameters of the CSV export, so the currency cells of arbitrary amounts, `NaN` included, are not modelled. Of `percent2` the model keeps its shape (`Csv.Percent2Shape`): `–` for a value that is not a number, text ending in `%` for a number. Its rounding is left out.
- `ymd` and `todayYMD`: they read the clock and the local time zone. The report date is a parameter. The edge case "Data Futura" takes its date as a parameter too.
- JavaScript numbers: no rounding, no `Infinity`, no `-0`, no loss of precision for long digit strings. Numbers are exact reals or `NaN`.
- `new Date`: only `YYYY-MM-DD` text with a valid calendar day is a date. The lenient parsing of other forms, and of days 29 to 31 in short months, is left out.
- `Acronym.Upper`: maps ASCII and Latin-1 letters only, not the whole of Unicode's `toUpperCase`.
- `Acronym.Initials`: a character is a whole Unicode character. JavaScript's `w[0]` is one UTF-16 code unit, so for a word that starts outside the Basic Multilingual Plane the source upper-cases half a surrogate pair. The model does not.
- Input events: the amount inputs of `ValorizationReportApp.tsx` pass the typed text through `maskBRL` before `handleRowChange`; those of `App.jsx` pass it unchanged. The model has no input events. `Editor.RowEditor.HandleRowChange` stores the text it is given, which in the first edition is a `Brl.MaskBRL` result.
- `Brl.MaskShape`: `Number(intPart)` and `toLocaleString` are exact here; for more than about 15 digits the browser rounds and the model does not.
- `Fixtures.Amount`: in `ValorizationReportApp.tsx` the fixtures are the currency text of the amount that `toMaskedBRL`/`ensureMasked` compute, given directly as cents rather than computed through `toDecimal` and Intl.
- `Editor.RowEditor.HandleRowChange`: the field `id` cannot be edited; the inputs never pass it.
- React: the updater functions run once. The double call under strict mode, re-rendering and memoisation are left out.
- In `App.jsx`, `validForTotals` can be a string, not a boolean. Only its truth value is modelled.
- `listaSiglas` exists only in `ValorizationReportApp.tsx`. `Engine.ComputeTotals` computes it for both editions.
- The PDF and XLSX exports, the Blob download and its file name, logos, colours and layout are left out. They are presentation and I/O.
- The CSV export is proved to read back only for cells without line breaks. A line break inside a quoted cell is valid CSV but splits the model's line reader.
