# CV transformer, modelled in Dafny

This project models `CVTransformer` (modules/cv_transformer.py), which turns wide monthly
marketing reports into one long table. In a wide report the days are columns and the metrics
are rows. The pandas calls become functions over an abstract table: a sequence of column
labels plus rows of cells, where a cell is text or null. The project models:

- reading the reporting month and year from a file name;
- month lengths;
- the reshape of one table: transpose and header promotion, two renames, three name
  rewrites, the `report_day` column, date conversion, and six placeholder columns;
- listing the `.csv` files of a folder;
- transforming every file, skipping the ones that fail, and concatenating the results.

The object itself is the class `Driver.CvTransformer`. Its folder is a `const` field, and
`get_csv_files` and `transform_all_files` are methods with loops. Every other step is a
function.

Modules, one per file:

- `Wrappers` (wrappers.dfy): `Option` and `Result`.
- `Errors` (errors.dfy): the exceptions the code can raise, as error values.
- `Seqs` (sequences.dfy): distinctness, first index, and flattening with offsets.
- `Text` (text.dfy):
  - `str.split` and its inverse `join`;
  - `int()` and `str()` on decimal digits, and two-digit padding;
  - ASCII `str.lower` and `endswith`.
- `Calendar` (calendar.dfy): `calendar.monthrange(year, month)[1]`.
- `FilenameDate` (filename_date.dfy): `extract_month_year_from_filename`.
- `ColumnNames` (column_names.dfy): the renames and the three `.str` rewrites.
- `DayLabels` (day_labels.dfy): parsing under `format='%B %d'` and `strftime(f'{year}-%m-%d')`.
- `Frames` (frames.dfy): the table type and `pd.concat(..., ignore_index=True)`.
- `Reshape` (reshape.dfy): `transform_csv` after `read_csv`.
- `Driver` (driver.dfy): paths, the `CvTransformer` class, `get_csv_files` and `transform_all_files`.

Where the code and its comment disagree, the model follows the code:

- The comment on line 51 gives a file name of the form `... - 2025 - June 2025 Overview.csv`.
  For such a name the code reads the year from the first token of the fourth segment, which
  is `June`, so `int()` raises. `FilenameDate.DocCommentExampleRaises` and
  `FilenameDate.DocumentedConventionRaises` state this.
- A name with fewer than four segments gives (1, 2025) without looking further
  (`FilenameDate.OnlyFourthSegmentRead`). With four or more segments, a date comes exactly when
  the fourth segment starts with a decimal year followed by a space. A fourth segment without a
  space raises `IndexError`, and a first token that is not decimal raises `ValueError`
  (`FilenameDate.NoSpaceRaises`, `FilenameDate.NonDecimalYearRaises`,
  `FilenameDate.DecimalYearParses`, `FilenameDate.YearFirstConventionParses`).
- The label-to-header round trip that one might expect from the class description does not
  happen either. After `transpose`, `iloc[0]` is the wide table's first column, so the metric
  names become the headers. The wide table's first row becomes the `report_day` column. The
  day labels in the wide header become the row index, which is discarded.

## Model

| member | source | states |
|---|---|---|
| Text.JoinSplit | modules/cv_transformer.py:52 | splitting a name on a separator and joining the pieces back gives the name: no text is lost or invented |
| Text.SplitPiecesAvoidSeparator | modules/cv_transformer.py:52 | no piece of a split contains the separator |
| Text.ShowNatRoundTrip | modules/cv_transformer.py:66 | `int()` reads back the decimal text of every natural number, so the year written into a date is the year parsed |
| Text.Pad2RoundTrip | modules/cv_transformer.py:126 | `%m` and `%d` write a two-digit numeral that reads back as the same number |
| Calendar.DaysInMonth | modules/cv_transformer.py:82 | error exactly outside months 1..12; otherwise 28..31, February 29 exactly in Gregorian leap years, 30 for April, June, September and November, and 31 for the others |
| Calendar.YearLength | modules/cv_transformer.py:82 | the twelve month lengths add up to 366 in a leap year and 365 otherwise |
| FilenameDate.LookupMonth | modules/cv_transformer.py:65 | `month_map.get(token, 1)` is always a month number in 1..12 |
| FilenameDate.MonthTableKeys | modules/cv_transformer.py:58-63 | the table's keys are exactly the twelve full names and the twelve abbreviations; any other token, in any case, gives 1 |
| FilenameDate.MonthTableEntry | modules/cv_transformer.py:58-63 | the full name and the abbreviation of month i both map to i, and so do the first three letters of the full name |
| FilenameDate.ExtractMonthYear | modules/cv_transformer.py:41-69 | a returned month is always in 1..12 |
| FilenameDate.OnlyFourthSegmentRead | modules/cv_transformer.py:52-69 | fewer than four segments give exactly (1, 2025) and no error; with four or more, only the fourth segment decides the answer |
| FilenameDate.NoSpaceRaises | modules/cv_transformer.py:54-55 | a fourth segment without a space has no month token: the call raises `IndexError` |
| FilenameDate.NonDecimalYearRaises | modules/cv_transformer.py:54-66 | a fourth segment whose first token is not decimal raises `ValueError` naming that token |
| FilenameDate.DecimalYearParses | modules/cv_transformer.py:54-69 | a fourth segment of a decimal year, a space and more text gives that year and the looked-up month of the next token |
| FilenameDate.FourSegments | modules/cv_transformer.py:52 | a name of four dash-free pieces joined by " - " splits into exactly those pieces |
| FilenameDate.FirstTwoTokens | modules/cv_transformer.py:54-55 | the year token is the text before the first space, and the month token is the text between the first and second spaces |
| FilenameDate.DocumentedConventionRaises | modules/cv_transformer.py:51-66 | every name of the form `p0 - p1 - p2 - <Month> rest` whose pieces contain no '-' raises, because the month name is read as the year (names with '-' inside a piece: `NonDecimalYearRaises`) |
| FilenameDate.YearFirstConventionParses | modules/cv_transformer.py:52-67 | a name `p0 - p1 - p2 - <year> <token> rest` whose pieces contain no '-' gives that year and the table's month for the token (names with '-' inside a piece: `DecimalYearParses`) |
| FilenameDate.DocCommentExampleRaises | modules/cv_transformer.py:51-66 | the example name in the comment raises `ValueError` on "June" |
| ColumnNames.Rename | modules/cv_transformer.py:111-114 | exactly "Cost Growth" and "Cost Marketing " (with its trailing space) change, to "Cost Digital" and "Cost offline "; every other name is kept |
| ColumnNames.Delete | modules/cv_transformer.py:119 | a character survives deletion exactly when it was present and is not in the deleted set |
| ColumnNames.CleanYieldsClean | modules/cv_transformer.py:117-119 | a normalised name has no upper-case letter, no space and none of `+ - . /` |
| ColumnNames.CleanFixesClean | modules/cv_transformer.py:117-119 | normalisation leaves a name with no upper-case letter, space or `+ - . /` unchanged |
| ColumnNames.CleanIdempotent | modules/cv_transformer.py:117-119 | normalising twice equals normalising once, NaN names included |
| DayLabels.MonthOfName | modules/cv_transformer.py:125 | `%B` recognises a word exactly when it equals a full month name up to case, and gives that month |
| DayLabels.DayOfNumeral | modules/cv_transformer.py:125 | an accepted `%d` numeral has the value `int()` gives it, and that value is in 1..31 |
| DayLabels.DayOfNumeralAccepts | modules/cv_transformer.py:125 | `%d` accepts exactly the numerals of one or two ASCII digits whose value is 1..31: "01" and "5" are accepted, "005" and "0" are not |
| DayLabels.ParseDayLabel | modules/cv_transformer.py:125 | a parsed label gives a month in 1..12 whose name equals the label's first word up to case, and a day that is the value of the numeral after it and exists in that month of 1900 |
| DayLabels.ParseDayLabelShape | modules/cv_transformer.py:125 | a parsed label has whitespace after its month word and a numeral of one or two characters after that, so "June5" and "June 005" fail |
| DayLabels.ParseDayLabelAccepts | modules/cv_transformer.py:125 | conversely, a month name in any case, whitespace, and a one- or two-digit numeral naming a day of that month in 1900 parse to that month and day |
| DayLabels.LabelRoundTrip | modules/cv_transformer.py:125 | "<full month name> <day>" parses back to that month and day, for every day the month has in 1900 |
| DayLabels.DayBeyondMonthFails | modules/cv_transformer.py:125 | a day past the end of its month in 1900 does not parse |
| DayLabels.LeapDayNeverParses | modules/cv_transformer.py:125 | "February 29" fails whatever year the file name gives, because the parse year is 1900 |
| DayLabels.IsoDateRoundTrip | modules/cv_transformer.py:126 | the output date splits at '-' into exactly three fields, which read back as the year, month and day it was written from |
| Frames.AppendNew | modules/cv_transformer.py:165 | the first-seen union keeps the existing labels as a prefix, adds only labels it lacked (each from the added list), has exactly the labels of both, and stays duplicate-free |
| Frames.AppendNewOrder | modules/cv_transformer.py:129-134 | the appended labels come in the order of their first appearance in the added list |
| Frames.AppendNewFresh | modules/cv_transformer.py:129-134 | labels that are all new are appended unchanged and in order |
| Frames.AppendNewPresent | modules/cv_transformer.py:129-134 | labels that are all present already add nothing |
| Frames.UnionLabels | modules/cv_transformer.py:165 | the combined columns are duplicate-free and are exactly the labels of some frame |
| Frames.ReindexCell | modules/cv_transformer.py:165 | after alignment, a cell holds the row's value under the same label, or null when the frame lacks that label |
| Frames.ReindexSelf | modules/cv_transformer.py:165 | aligning a frame on its own columns gives it back |
| Frames.Concat | modules/cv_transformer.py:165 | error exactly for an empty list, or for differing columns where some frame repeats a label; otherwise the row count is the sum of the frames' row counts, and the columns are the shared ones or the first-seen union |
| Frames.ConcatRowSameColumns | modules/cv_transformer.py:165 | with equal columns, row j of frame i is row offset(i)+j of the result: order kept, index renumbered from 0 |
| Frames.ConcatRowUnion | modules/cv_transformer.py:165 | with differing columns, row j of frame i is row offset(i)+j of the result, aligned on the union |
| Frames.RowCountsAgree | modules/cv_transformer.py:165 | alignment keeps every frame's row count, so it keeps the total |
| Reshape.TransposeTwice | modules/cv_transformer.py:102 | transposing twice gives the grid back |
| Reshape.PromoteHeader | modules/cv_transformer.py:102-108 | error exactly for a table with no column; otherwise the labels are the wide table's first column, there is one row per wide column minus one, and cell (j, k) is wide cell (k, j+1) |
| Reshape.RenameColumns | modules/cv_transformer.py:111-114 | rows unchanged and column count kept; a label changes exactly where it is one of the two renamed names |
| Reshape.NormalizeColumns | modules/cv_transformer.py:117-119 | rows unchanged and column count kept; NaN labels stay NaN, and every text label becomes clean |
| Reshape.NormalizeTwice | modules/cv_transformer.py:117-119 | normalising a table's labels twice equals doing it once |
| Reshape.NameReportDay | modules/cv_transformer.py:122 | length-mismatch error exactly when there is no column; otherwise the first label is `report_day`, the others keep their order, and the rows are unchanged |
| Reshape.ConvertCell | modules/cv_transformer.py:125-126 | a label fails exactly when it is not null, is not a null spelling and does not parse; null stays null; a parsed label becomes the date of its month and day |
| Reshape.NullLabelsDoNotParse | modules/cv_transformer.py:125 | no null spelling is a day label, so the two cases never overlap |
| Reshape.ConvertedDateFields | modules/cv_transformer.py:125-126 | a converted date carries the file's year and the label's month and day |
| Reshape.ConvertNamedDay | modules/cv_transformer.py:125-126 | "<Month> <day>" becomes `<year>-MM-DD` of that month and day in the file's year |
| Reshape.ConvertRows | modules/cv_transformer.py:125-126 | the column fails exactly when one of its cells fails; otherwise every row has only its first cell replaced by the converted value |
| Reshape.ConvertReportDay | modules/cv_transformer.py:125-126 | error when another column is also named `report_day`; otherwise it succeeds exactly when every label converts, with the columns and the row count kept |
| Reshape.SetNull | modules/cv_transformer.py:129 | `df[name] = nan` nulls every column with that name in place, or appends one null column; other cells and the row count are kept |
| Reshape.AddColumns | modules/cv_transformer.py:129-134 | the columns become the old columns followed by the absent names in order, with the row count kept |
| Reshape.AddColumnsKeeps | modules/cv_transformer.py:129-134 | cells under labels that are not added are kept |
| Reshape.AddColumnsNull | modules/cv_transformer.py:129-134 | every column labelled with an added name is null in every row |
| Reshape.AddPlaceholders | modules/cv_transformer.py:129-134 | the row count is kept, the existing columns keep their place, and all six placeholders are columns |
| Reshape.PlaceholdersAbsent | modules/cv_transformer.py:129-134 | every column past the old ones is a placeholder that was not a column before |
| Reshape.PlaceholdersOrder | modules/cv_transformer.py:129-134 | the appended placeholders come in the order lines 129-134 add them |
| Reshape.PlaceholdersNull | modules/cv_transformer.py:129-134 | every placeholder column is null in every row |
| Reshape.PlaceholdersKeepCells | modules/cv_transformer.py:129-134 | cells under labels other than the placeholders are kept |
| Reshape.PlaceholdersAppended | modules/cv_transformer.py:129-134 | when none is present, the six are appended at the end in their order |
| Reshape.PlaceholdersInPlace | modules/cv_transformer.py:129-134 | when all are present, nothing is appended and they stay where they are |
| Reshape.Relabel | modules/cv_transformer.py:102-122 | fails exactly for a table with no column (no header row) or with no row (length mismatch); otherwise the labels are the cleaned first column with `report_day` first, and the data rows are the transposed wide columns |
| Reshape.TransformCsv | modules/cv_transformer.py:95-136 | a file-name error is returned as is; success needs a date and a non-empty table; the rows are the wide columns minus one; the columns are the header followed by the missing placeholders |
| Reshape.TransformCsvSucceeds | modules/cv_transformer.py:95-126 | success exactly when the name gives a year, the table has a row and a column, no other label cleans to `report_day`, and every label of the first row converts |
| Reshape.TransformCsvReportDay | modules/cv_transformer.py:122-126 | row i's `report_day` is the converted label from wide column i+1 of the first row, using the year from the file name |
| Reshape.TransformCsvCell | modules/cv_transformer.py:102-134 | every other output cell is the wide cell it came from, or null under a placeholder label |
| Reshape.TransformCsvPlaceholders | modules/cv_transformer.py:129-134 | in the output, every placeholder column is null in every row |
| Reshape.TransformIgnoresFilenameMonth | modules/cv_transformer.py:99 | two file names with the same year give the same table: the file-name month is unused |
| Driver.JoinPath | modules/cv_transformer.py:38 | an absolute name replaces the folder; otherwise the path starts with the folder and ends with the name |
| Driver.BaseName | modules/cv_transformer.py:98 | the base name is the longest suffix without '/' |
| Driver.BaseNameOfJoin | modules/cv_transformer.py:98 | the base name of a joined listed name is that name |
| Driver.CsvPathsAppend | modules/cv_transformer.py:36-38 | filtering keeps listing order across any split of the listing |
| Driver.CsvPathsMembers | modules/cv_transformer.py:36-38 | a path is returned exactly when it joins the folder to a listed name ending in `.csv` |
| Driver.TransformFileIgnoresFolder | modules/cv_transformer.py:95-99 | two paths with the same base name and the same loaded table give the same result: the folder never affects it |
| Driver.SameNameAnyFolder | modules/cv_transformer.py:95-99 | the same file name joined to any two folders gives the same result when the loaded tables agree |
| Driver.TransformListedFile | modules/cv_transformer.py:98-99 | a listed file is transformed under its listed name |
| Driver.SuccessesAppend | modules/cv_transformer.py:152-159 | collecting the successes keeps file order across any split of the list |
| Driver.FailureAddsNothing | modules/cv_transformer.py:153-159 | a failing file adds no table, wherever it is in the list |
| Driver.SuccessesMembers | modules/cv_transformer.py:152-156 | a table is collected exactly when some file produced it |
| Driver.NoSuccessIffAllFail | modules/cv_transformer.py:161-162 | nothing is collected exactly when every file fails |
| Driver.CvTransformer.constructor | modules/cv_transformer.py:18-25 | the transformer keeps the folder it is given, `gh_data` by default |
| Driver.CvTransformer.GetCsvFiles | modules/cv_transformer.py:27-39 | a missing folder gives no files; otherwise the listed `.csv` names, in order, joined to the folder |
| Driver.CvTransformer.TransformAllFiles | modules/cv_transformer.py:138-167 | no files is a not-found error; if every file fails, a value error; otherwise the concatenation of the successful tables in file order |

## Left out

- Reading and writing files are not modelled:
  - `pd.read_csv` is the parameter `load` of `TransformAllFiles`, and a table it cannot read is an error value;
  - `os.path.exists` and `os.listdir` are the parameter `listing` of `GetCsvFiles` (`None` for a missing folder);
  - `df.to_csv` is not modelled.
- `save_transformed_data` and `main` are not modelled. They only wrap `transform_all_files` with a file write and console output.
- `print` progress and error messages are not modelled, and exceptions are error values without their message text.
- A path that exists but is not a directory (where `os.listdir` raises) is not modelled.
- Cell values are opaque: text or null.
  - The model does not capture dtype inference by `read_csv`, numeric cells, or the `.str` accessor failing on a non-text header.
  - `sort_index` is not modelled: on the positional row index that `read_csv` produces it changes nothing.
- Text.ParseInt: accepts only ASCII decimal digits. Python's `int()` also accepts surrounding whitespace, a sign, underscores and non-ASCII digits, so the model raises on year tokens that Python would accept.
- Text.Lower: lower-cases ASCII letters only, where `str.lower` covers all of Unicode.
- DayLabels.IsSpace: covers ASCII whitespace only, where `\s` covers all of Unicode.
- DayLabels.ParseDayLabel: matches month names in ASCII case only.
- DayLabels.DayOfNumeral: accepts ASCII digits only, where the `[12]\d` alternative of the `%d` pattern also matches other Unicode digits.
- Reshape.ConvertCell: the labels "now" and "today", which pandas turns into the current date, fail here because the clock is not modelled; "fails exactly when" holds of the model's `%B %d` parse, not of every spelling pandas accepts.
- Calendar.DaysInMonth: returns only the month length. The weekday that `calendar.monthrange` also returns is unused by the code.
- Frames.Concat: models pandas 2.x with `sort=False`, and stops at the label level.
  - Equal labels are stacked; otherwise the model takes the first-seen union with null fill.
  - Column dtype changes caused by the null fill are not modelled.
