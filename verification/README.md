# excel-processor: the row pipeline of the process-file handler

This project models the row pipeline of the `process-file` handler of excel-processor. It works on the header row and the data rows of a sheet that has already been loaded:

1. **Timestamp recognition.** `isValidDatetime` tests a cell against the pattern `D/M/YYYY H:MM:SS`. `convertToDatetime` splits the text on `/`, space and `:` and hands the six numbers to the `Date` constructor.
2. **Normalisation.** The open and close cells of every data row are rewritten in place when they hold such a text.
3. **Duration and verdict.** `calculateDuration` writes the time between the two Dates as `HH:MM:SS`, or as `D day HH:MM:SS` when a whole day has passed. `evaluateDuration` reads that text back and labels it `≥ 5 นาที` or `< 5 นาที`.
4. **Assembly and partition.** The header gets `Duration` and `Result`. Every data row becomes a new row with two more cells in "All Data". A row whose two cells are Dates also goes to "Below 5M" or to "5M Up", depending on its label. The new row is the same object in both tables.
5. **Coercion.** Columns L, M and N (indices 11 to 13) of every data row of "All Data" become `parseFloat(cell) || cell`. Because the row objects are shared, the rows of the other two tables change with them.

Modules:

- `Wrappers`: the `Option` type.
- `Text`: the JavaScript string primitives the pipeline uses:
  - decimal text of integers (`toString`);
  - `padStart`;
  - `split` on a set of separator characters;
  - `Number()` on integer texts.
- `Datetime`: the regular expression as a chain of digit runs and literals, with a matcher for it. It proves that the matcher accepts exactly the texts built from six digit runs of the right lengths. It also gives the six `Date` arguments that `convertToDatetime` computes.
- `Duration`: `calculateDuration` with JavaScript's `%` (the sign follows the dividend) and `Math.floor`, for every integer delta, negative ones included. Also `evaluateDuration`, and the round trip between them: the label is `≥ 5 นาที` exactly when the close is at least 300000 ms after the open.
- `Rows`: the value-level meaning of the pipeline.
  - Cells are `Missing` (undefined), `Str`, `Num`, or `Time` (a Date, kept as milliseconds).
  - Row functions for normalisation, extension and coercion.
  - `Report`: the cells of the three tables computed from the header and data rows.
- `Handler`: the in-place part.
  - `Row` is a class whose `cells` the passes reassign.
  - The normalisation, extension and coercion loops are methods over sequences of `Row` objects.
  - `ProcessRows` is proved to leave the three tables holding exactly the cells `Report` computes.
  - Every row of "Below 5M" and "5M Up" is proved to be a row object of "All Data".

The JavaScript runtime functions the pipeline calls but does not define are parameters, bundled in `Rows.Runtime`:

- the `Date` constructor, a function from the six arguments to a time value in milliseconds;
- `parseFloat`, a function from text to a number or NaN.

Behaviour of docs/main.js that the model keeps:

- **Short rows are lengthened.** The coercion loop at docs/main.js:163-170 stores into indices 11, 12 and 13 of every data row of "All Data", whatever its length. `row[11] = …` on a shorter JavaScript array lengthens it. The gap reads as undefined, and undefined never parses, so each of the three cells past the end of the row is stored as undefined; cells that already exist are coerced as usual. Every coerced row has at least 14 cells.
- **A parse of 0 keeps the text.** `parseFloat(x) || x` keeps the original cell when the parse is NaN or 0. So `"0"` stays a string.
- **Appended cells can be coerced.** Coercion runs after the two new cells are appended. So in a sheet with 11 to 13 columns, the appended `Duration` text lands in columns L to N and is coerced with the rest.
- **Negative deltas.** A close before the open gets negative fields: each is at most 0, with hours from -24 and minutes and seconds from -60. It is always labelled `< 5 นาที`. `Duration.DecomposeNegative` and `Duration.ClassifyByDelta` state this.

## Model

| member | source | states |
|---|---|---|
| Datetime.IsValidDatetime | docs/main.js:77-80 | definition: the text matches the timestamp pattern as a whole; its meaning is stated by Datetime.DatetimeExactly, Datetime.MatchesSound and Datetime.MatchesComplete |
| Datetime.ConvertToDatetime | docs/main.js:82-85 | definition: the Date constructor applied to the arguments read from the split text; its meaning is stated by Datetime.DateArgsOf and Datetime.DateArgsOfJoined |
| Datetime.DatetimeExactly | docs/main.js:77-80 | isValidDatetime holds exactly for texts made of six digit runs of lengths 1–2, 1–2, 4, 1–2, 2, 2 joined by `/`, `/`, space, `:`, `:`, with nothing before or after |
| Datetime.MatchesSound | docs/main.js:77-80 | whatever the matcher accepts is the digit runs it read, each of an allowed length, joined by the literals |
| Datetime.MatchesComplete | docs/main.js:77-80 | every joining of fitting digit runs is accepted, and the match reads back those same runs |
| Datetime.LeadingDigits | docs/main.js:78 | a digit run `\d{lo,hi}` reads all the digits at the front and stops at a non-digit or the end |
| Datetime.SplitDatetime | docs/main.js:82-83 | splitting an accepted text on `[\/ :]` yields exactly the six digit runs of the match |
| Datetime.DateArgsOf | docs/main.js:82-84 | the Date arguments are year, month − 1, day, hour, minute, second read from the split fields; each is bounded by its digit count, and none is range-checked |
| Datetime.DateArgsOfJoined | docs/main.js:82-84 | every D/M/YYYY H:MM:SS text is accepted, and its day, month, year, hour, minute and second reach the Date constructor in that order with one taken off the month |
| Datetime.FieldBounds | docs/main.js:83-84 | one- or two-digit fields are below 100 and the year below 10000 |
| Text.IntText | docs/main.js:116 | definition: toString of an integer, a minus sign before the text of its magnitude; its meaning is stated by Text.NatText and Text.ParsePadded |
| Text.ToNumber | docs/main.js:129 | definition: Number() of the empty text or a signed decimal integer; its meaning is stated by Text.ParsePadded and Duration.PadFacts |
| Text.NatText | docs/main.js:116 | toString of a natural number is a non-empty digit text whose decimal value is that number, with no leading zero (it starts with 0 only for 0 itself), one digit exactly below 10 and at most two below 100 |
| Text.PadStart | docs/main.js:116 | padStart(width, "0") puts zeros in front up to the width and keeps the text as its suffix |
| Text.Split | docs/main.js:125 | split always yields at least one piece |
| Text.SplitThree | docs/main.js:125-129 | three separator-free pieces joined by a separator split back into the three |
| Text.ParsePadded | docs/main.js:116-129 | Number() reads back exactly the integer that toString and padStart(2, "0") wrote, negative ones included |
| Duration.JsRem | docs/main.js:112-115 | JavaScript `%` by a positive divisor: the Euclidean remainder for a non-negative dividend, a remainder in (−b, 0] with the sign of the dividend otherwise |
| Duration.Decompose | docs/main.js:108-115 | definition: days, hours, minutes and seconds of a delta with JavaScript `/`, `%` and Math.floor; its meaning is stated by Duration.DecomposeNonNegative and Duration.DecomposeNegative |
| Duration.Format | docs/main.js:116-121 | definition: the clock text, with the day count in front when days > 0; its meaning is stated by Duration.ShortDuration, Duration.LongFormatReadsBack and Duration.EvaluateFormat |
| Duration.CalculateDuration | docs/main.js:108-122 | definition: Format of the decomposed delta from open to close; its meaning is stated by Duration.ShortDurationReadsBack and Duration.ClassifyByDelta |
| Duration.DecomposeNonNegative | docs/main.js:108-115 | for delta ≥ 0: days ≥ 0, hours < 24, minutes and seconds < 60, and days·86400 + hours·3600 + minutes·60 + seconds = ⌊delta / 1000⌋ |
| Duration.DecomposeNegative | docs/main.js:108-115 | for delta < 0: days < 0 and hours, minutes and seconds are at most 0 (−24 ≤ hours, −60 ≤ minutes, seconds) |
| Duration.Pad | docs/main.js:116 | definition: the `pad` arrow function, toString of the number padded to two characters with "0"; its meaning is stated by Duration.PadFacts and Duration.PadTwoDigits |
| Duration.PadFacts | docs/main.js:116 | a padded number holds no colon and no space and Number() reads it back as the number |
| Duration.PadTwoDigits | docs/main.js:116 | a padded number in 0..99 is exactly two digits |
| Duration.SplitClock | docs/main.js:116-121 | the clock text splits on ":" into the three padded numbers and holds no space |
| Duration.ShortDuration | docs/main.js:116-121 | below one day the duration is exactly `HH:MM:SS`: eight characters, colons at 2 and 5, digits elsewhere |
| Duration.LongFormatReadsBack | docs/main.js:116-129 | with days > 0 the text splits on " " into the day count, "day" and the clock; the count reads back as the days and the clock splits into the three padded numbers |
| Duration.ShortDurationReadsBack | docs/main.js:108-129 | below one day the three fields of the text read back as numbers whose seconds total is the whole seconds from open to close |
| Duration.EvaluateDuration | docs/main.js:124-133 | the verdict is always one of the two labels |
| Duration.EvaluateDayText | docs/main.js:125-127 | any text "N day C" whose first word N holds no space is labelled ≥ 5 นาที, whatever N and C say |
| Duration.EvaluateClockText | docs/main.js:129-131 | a clock text "H:M:S" is labelled ≥ 5 นาที exactly when H·60 + M + S/60 ≥ 5 for the numbers its fields read as |
| Duration.AtLeastFiveMinutes | docs/main.js:130-131 | definition: the test `totalMinutes >= 5` on hours·60 + minutes + seconds/60 in exact rationals; its meaning is stated by Duration.AtLeastFiveMinutesSeconds and Duration.EvaluateClockText |
| Duration.AtLeastFiveMinutesSeconds | docs/main.js:130-131 | the minute threshold H·60 + M + S/60 ≥ 5 is the integer test H·3600 + M·60 + S ≥ 300 |
| Duration.FiveMinutesIsAtLeastFive | docs/main.js:129-131 | "00:05:00" is labelled ≥ 5 นาที |
| Duration.JustUnderFiveIsBelowFive | docs/main.js:129-131 | "00:04:59" is labelled < 5 นาที |
| Duration.EvaluateFormatDay | docs/main.js:117-127 | a formatted duration with a day count is labelled ≥ 5 นาที |
| Duration.EvaluateFormatClock | docs/main.js:119-131 | a formatted duration without a day count is labelled by the total minutes of its own hours, minutes and seconds |
| Duration.EvaluateFormat | docs/main.js:108-133 | evaluateDuration reads back what calculateDuration wrote: ≥ 5 นาที exactly when there is a day count or the clock totals five minutes |
| Duration.ThresholdOfDelta | docs/main.js:108-131 | the parts of a delta reach a day or five minutes exactly when the delta is at least 300000 ms, for every integer delta |
| Duration.ClassifyByDelta | docs/main.js:108-133 | evaluateDuration(calculateDuration(open, close)) is ≥ 5 นาที exactly when close − open ≥ 300000 ms, and < 5 นาที otherwise, including a close before the open |
| Rows.IsTimestampText | docs/main.js:100-103 | definition: `isValidDatetime(row[i])` on a cell; only a string cell can match, since every other cell kind fails the pattern test; its meaning is stated by Rows.NormalizedChanges |
| Rows.NormalizeRow | docs/main.js:99-106 | definition: normalisation of the open cell, then of the close cell; its meaning is stated by Rows.NormalizeRowFrame, Rows.NormalizedChanges and Rows.NormalizeRowIdempotent |
| Rows.NormalizeAtFrame | docs/main.js:100-105 | one step of normalisation changes at most the cell at its index, into its normalised form, and keeps the length |
| Rows.NormalizeRowFrame | docs/main.js:99-106 | normalising a row changes only the open and close cells, each into its normalised form, and keeps every other cell and the length |
| Rows.NormalizedChanges | docs/main.js:100-105 | a cell changes under normalisation exactly when it is a text matching the timestamp pattern, and then becomes a Date |
| Rows.NormalizedIdempotent | docs/main.js:99-106 | normalising a cell twice is normalising it once |
| Rows.NormalizeRowIdempotent | docs/main.js:99-106 | normalising a row twice is normalising it once, so a row that occurs twice in the data ends up normalised once |
| Rows.IsTimed | docs/main.js:143-146 | definition: the guard that both the open and the close cell are Dates; its meaning is stated by Rows.ExtendRowLabel and Rows.PartitionExclusive |
| Rows.ExtendRow | docs/main.js:143-159 | definition: the row with its duration and label, or two empty strings, appended; its meaning is stated by Rows.ExtendRowKeeps and Rows.ExtendRowLabel |
| Rows.ExtendRowKeeps | docs/main.js:149-157 | every new row is the input row with exactly two cells appended |
| Rows.ExtendRowLabel | docs/main.js:143-157 | a row with two Dates gets its duration text and ≥ 5 นาที exactly when the delta is at least five minutes; any other row gets two empty strings |
| Rows.LabelsDiffer | docs/main.js:151 | the two labels differ from each other and from the empty string |
| Rows.BelowExactly | docs/main.js:151-152 | a new row goes to "Below 5M" exactly when both cells are Dates less than five minutes apart |
| Rows.AboveExactly | docs/main.js:153-155 | a new row goes to "5M Up" exactly when both cells are Dates at least five minutes apart |
| Rows.PartitionExclusive | docs/main.js:142-160 | a row with two Dates lands in exactly one of "Below 5M" and "5M Up"; any other row lands in neither |
| Rows.Labelled | docs/main.js:150-155 | a partition table is no longer than "All Data" and holds only rows of it with its own label |
| Rows.LabelledAppend | docs/main.js:142-160 | the partition keeps the order of the rows: selecting from a concatenation concatenates the selections |
| Rows.LabelledCount | docs/main.js:150-155 | a partition table holds one row for each index of a row with its label |
| Rows.ExtendAll | docs/main.js:142-160 | the extension loop makes one new row per data row |
| Rows.ExtendAllAt | docs/main.js:142-160 | new row k is made from data row k |
| Rows.ExtendAllStep | docs/main.js:142-160 | extending one more data row appends its new row at the end |
| Rows.Store | docs/main.js:166-168 | an array store at i sets cell i, keeps every other cell, and past the end lengthens the row with undefined holes |
| Rows.CoerceCell | docs/main.js:166-168 | definition: the parse of a string cell when it is a number other than 0, the cell itself otherwise; its meaning is stated by Rows.CoerceCellMeaning and Rows.CoerceCellIdempotent |
| Rows.CoerceRow | docs/main.js:163-170 | definition: the stores into indices 11, 12 and 13; its meaning is stated by Rows.CoerceRowFrame and Rows.CoerceRowIdempotent |
| Rows.CoerceCellMeaning | docs/main.js:166-168 | a cell changes under coercion exactly when it is a text whose parse is a number other than 0, and then becomes that number |
| Rows.CoerceRowFrame | docs/main.js:163-170 | coercion changes only cells 11 to 13, each into its coerced form; the row grows to at least 14 cells and the other cells are kept |
| Rows.CoerceCellIdempotent | docs/main.js:166-168 | a coerced cell coerces to itself |
| Rows.CoerceRowIdempotent | docs/main.js:163-170 | coercing a row twice is coercing it once, so a row shared between tables may be coerced again without change |
| Rows.CoerceTableAppend | docs/main.js:163-170 | coercing a concatenation of rows coerces each part |
| Rows.Report | docs/main.js:136-170 | definition: the cells of the three tables from the header and data rows; its meaning is stated by Rows.ReportHeaders, Rows.ReportRow, Rows.ReportSplit and Handler.ProcessRows |
| Rows.ExtendHeader | docs/main.js:136 | definition: the header row after `headers.push("Duration", "Result")`; its meaning is stated by Rows.ReportHeaders and Handler.BuildTables |
| Rows.ReportHeaders | docs/main.js:136-140 | all three tables start with the same header extended by Duration and Result, and "All Data" holds one row per data row after it |
| Rows.ReportRow | docs/main.js:138-170 | row k + 1 of "All Data" is data row k normalised, extended and coerced, in input order |
| Rows.TimedIndicesSplit | docs/main.js:142-160 | the rows labelled < 5 นาที and those labelled ≥ 5 นาที together are exactly the rows with two Dates, and no row is both |
| Rows.ReportSplit | docs/main.js:138-160 | the data rows of "Below 5M" and "5M Up" together number exactly the rows with two Dates |
| Handler.Row.constructor | docs/main.js:149 | a new row holds the given cells |
| Handler.Row.NormalizeTimes | docs/main.js:100-105 | the row's cells become their normalisation |
| Handler.Row.Push | docs/main.js:136 | push appends the given cells |
| Handler.Row.CoerceColumns | docs/main.js:166-168 | the row's cells become their coercion of columns L, M and N |
| Handler.Cells | docs/main.js:138-160 | the cells of a sequence of rows, row by row |
| Handler.Pick | docs/main.js:151-155 | the rows put in a partition table are rows of "All Data" |
| Handler.PickAppend | docs/main.js:151-155 | one more new row is picked exactly when its cells end with the table's label |
| Handler.RoutedStep | docs/main.js:150-155 | routing one more new row keeps "All Data" and both partition tables as the loop keeps them |
| Handler.PickCells | docs/main.js:151-155 | the cells of the picked rows are the rows of the table that end with the label |
| Handler.CellsAppend | docs/main.js:150 | the cells of a concatenation of rows are the concatenation of their cells |
| Handler.CellsCons | docs/main.js:138-140 | the cells of a table are the header's cells followed by those of its data rows |
| Handler.Normalize | docs/main.js:99-106 | after the normalisation forEach every data row holds the normalisation of what it held, however often it occurs |
| Handler.ExtendOne | docs/main.js:143-159 | one callback of the extension forEach makes a fresh row of the extended cells, appends it to "All Data", and to the partition table whose label it ends with |
| Handler.Assemble | docs/main.js:136-160 | the header is extended; "All Data" is the header followed by one fresh new row per data row in order; "Below 5M" and "5M Up" are the header followed by the same row objects with their label, in order |
| Handler.CoerceNumbers | docs/main.js:163-170 | the header row is untouched and every other row of "All Data" holds the coercion of what it held |
| Handler.PickCoerced | docs/main.js:149-170 | after coercion the rows of a partition table hold the coerced cells of the rows of "All Data" with its label |
| Handler.CoercedAll | docs/main.js:163-170 | after coercion "All Data" holds the header and the coerced new rows |
| Handler.CoercedPicked | docs/main.js:149-170 | after coercion a partition table holds the header and the coerced new rows with its label |
| Handler.BuildTables | docs/main.js:136-170 | after the header push, the extension loop and the coercion pass, the headers row holds the header extended by Duration and Result and is row 0 of all three tables; the tables' cells are the extended header and the coerced new rows (all of them, or those with the table's label), and the partition tables' rows are rows of "All Data" |
| Handler.ProcessRows | docs/main.js:99-170 | every data row object holds the normalisation of what it held; the headers row holds the extended header and is row 0 of all three tables; the three tables hold exactly the cells Report computes from the header and data rows as they were; and every row of "Below 5M" and "5M Up" is a row object of "All Data" |

## Left out

- Window creation, the file dialogs and IPC registration (docs/main.js:1-42): user interface and process plumbing.
- Loading the sheet with csv-parser or XLSX (docs/main.js:47-72): asynchronous I/O in foreign libraries. The model starts from the header row and the data rows as loaded.
- `XLSX.utils.decode_col` (docs/main.js:74-75): a library call. The open and close column indices are inputs of any integer value.
- The `Date` constructor (docs/main.js:84): its local time zone, daylight saving and calendar overflow are not modelled. It is the parameter `Runtime.newDate`, from the six arguments to a time in milliseconds. The fields the pattern admits are bounded by their digit counts, so the constructor never sees a value that makes an invalid Date. The model therefore has no invalid-Date case.
- `formatDateTime` (docs/main.js:87-96): called only by the workbook output (docs/main.js:179, 184 and 189), to render the Date cells of the three sheets; that output is left out below.
- The workbook output with ExcelJS (docs/main.js:172-237): sheet creation, fills and file writing.
- `parseFloat`: its float parsing and prefix acceptance are not modelled. It is the parameter `Runtime.parseFloat`, from text to a number or NaN (`None`). A cell that is not a string is never coerced. parseFloat of undefined or of a Date is NaN, and a number parses back to itself.
- Text.ToNumber: models `Number()` only on the empty text and on signed decimal integers, which are the only texts calculateDuration writes. Every other text (decimals, exponents, hexadecimal, surrounding whitespace) reads as NaN here.
- Duration.EvaluateDuration: the total `hours * 60 + minutes + seconds / 60` is computed in exact rational arithmetic, not in IEEE doubles. Float rounding is not modelled.
- Cells in the sheet other than undefined, strings, numbers and Dates (booleans, formulas, rich text): `Rows.Cell` has no variant for them, so they cannot be represented at all. In the source none of them can match the timestamp pattern, and parseFloat reads them as NaN or as a number.
- docs/renderer.js and preload.js: display code and the IPC bridge.
