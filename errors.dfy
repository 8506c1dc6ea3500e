/** The exceptions the transformer raises, grouped by the step of the transformer that raises them. */
module Errors {

  datatype Error =
    /** `parts[3].split(' ')[1]` on a fourth segment without a space (IndexError). */
    | MissingMonthToken
    /** `int(year_part)` on a token that is not a decimal numeral (ValueError). */
    | YearNotInteger(token: string)
    /** `calendar.monthrange` with a month outside 1..12 (IllegalMonthError). */
    | IllegalMonth(month: int)
    /** `pd.read_csv` could not produce a table (any I/O or parse failure). */
    | LoadFailed(path: string)
    /** `df.iloc[0]` on a transposed table without rows (IndexError). */
    | NoHeaderRow
    /** Assigning one label to a table without columns (ValueError: length mismatch). */
    | LengthMismatch
    /** `df['report_day']` selects several columns, so the date conversion fails (ValueError). */
    | ReportDayNotUnique
    /** A `report_day` value that does not match `%B %d` (ValueError). */
    | DayLabelUnparsed(dayLabel: string)
    /** `pd.concat` cannot reindex a table with repeated column labels (InvalidIndexError). */
    | DuplicateLabels
    /** `pd.concat` of an empty list (ValueError). */
    | NothingToConcatenate
    /** No `.csv` entry was found in the data folder (FileNotFoundError). */
    | NoCsvFiles(folder: string)
    /** Every discovered file failed (ValueError). */
    | NothingTransformed
}
