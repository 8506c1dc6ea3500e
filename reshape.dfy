/** `transform_csv` on a loaded table: the steps from transposing the wide report to adding the
    placeholder columns, each a function from frame to frame. */
module Reshape {
  import opened Wrappers
  import opened Errors
  import opened Text
  import opened ColumnNames
  import opened DayLabels
  import opened FilenameDate
  import opened Frames
  import Seqs

  /** The name forced onto the first column. */
  const ReportDay := "report_day"

  /** The columns added, in this order, as all-null columns. */
  const Placeholders: seq<Label> := [
    Some("new_install_first_dis"), Some("signupfirst_dis"), Some("cac_incl_branding"),
    Some("first_disbursement_all"), Some("fsfirst_disb"), Some("first_disbursement_fidobiz")
  ]

  /** The grid with rows and columns exchanged: `width` rows of `|rows|` cells. */
  function Transpose(rows: seq<seq<Cell>>, width: nat): (g: seq<seq<Cell>>)
    requires forall r :: 0 <= r < |rows| ==> |rows[r]| == width
    ensures |g| == width
    ensures forall j :: 0 <= j < width ==> |g[j]| == |rows|
  {
    seq(width, j requires 0 <= j < width => seq(|rows|, r requires 0 <= r < |rows| => rows[r][j]))
  }

  /** Transposing twice gives the grid back. */
  lemma TransposeTwice(rows: seq<seq<Cell>>, width: nat)
    requires forall r :: 0 <= r < |rows| ==> |rows[r]| == width
    ensures Transpose(Transpose(rows, width), |rows|) == rows
  {
    var g := Transpose(rows, width);
    var h := Transpose(g, |rows|);
    forall r | 0 <= r < |rows| ensures h[r] == rows[r] {
      assert forall j :: 0 <= j < width ==> h[r][j] == g[j][r] == rows[r][j];
    }
  }

  /** `df.sort_index().transpose()`, `df.columns = df.iloc[0]` and `df = df[1:]`. The first column
      of the wide table (one cell per wide row) becomes the column labels; wide column `j + 1`
      becomes row `j`. The wide labels become the row index, which nothing keeps. With no column
      at all, `iloc[0]` has no row to take. */
  function PromoteHeader(wide: Frame): (r: Result<Frame, Error>)
    ensures r.Err? <==> |wide.columns| == 0
    ensures r.Err? ==> r.error == NoHeaderRow
    ensures r.Ok? ==> (|r.value.columns| == |wide.rows| &&
      forall k :: 0 <= k < |wide.rows| ==> r.value.columns[k] == wide.rows[k][0])
    ensures r.Ok? ==> (|r.value.rows| == |wide.columns| - 1 &&
      forall j, k :: 0 <= j < |r.value.rows| && 0 <= k < |wide.rows| ==>
        r.value.rows[j][k] == wide.rows[k][j + 1])
  {
    var g := Transpose(wide.rows, |wide.columns|);
    if g == [] then Err(NoHeaderRow) else Ok(Table(g[0], g[1..]))
  }

  /** `df.rename(columns={...})`: the two exact renames, applied to every label. */
  function RenameColumns(f: Frame): (r: Frame)
    ensures r.rows == f.rows && |r.columns| == |f.columns|
    ensures forall j :: 0 <= j < |f.columns| ==>
      (r.columns[j] != f.columns[j] <==> f.columns[j] in {Some("Cost Growth"), Some("Cost Marketing ")})
  {
    Table(seq(|f.columns|, j requires 0 <= j < |f.columns| => Rename(f.columns[j])), f.rows)
  }

  /** The three `.str` rewrites on every label: the count is kept and every text label is clean. */
  function NormalizeColumns(f: Frame): (r: Frame)
    ensures r.rows == f.rows && |r.columns| == |f.columns|
    ensures forall j :: 0 <= j < |f.columns| ==> (r.columns[j].None? <==> f.columns[j].None?)
    ensures forall j :: 0 <= j < |f.columns| && r.columns[j].Some? ==> IsClean(r.columns[j].value)
  {
    assert forall j :: 0 <= j < |f.columns| && f.columns[j].Some? ==> IsClean(CleanLabel(f.columns[j]).value) by {
      forall j | 0 <= j < |f.columns| && f.columns[j].Some? ensures IsClean(CleanLabel(f.columns[j]).value) {
        CleanYieldsClean(f.columns[j].value);
      }
    }
    Table(seq(|f.columns|, j requires 0 <= j < |f.columns| => CleanLabel(f.columns[j])), f.rows)
  }

  /** Normalising twice is normalising once. */
  lemma NormalizeTwice(f: Frame)
    ensures NormalizeColumns(NormalizeColumns(f)) == NormalizeColumns(f)
  {
    var once := NormalizeColumns(f);
    forall j | 0 <= j < |f.columns|
      ensures NormalizeColumns(once).columns[j] == once.columns[j]
    {
      CleanIdempotent(f.columns[j]);
    }
  }

  /** `df.columns = ['report_day'] + df.columns.tolist()[1:]`: the first label is replaced and the
      others keep their order. With no column the list has one name too many. */
  function NameReportDay(f: Frame): (r: Result<Frame, Error>)
    ensures r.Err? <==> |f.columns| == 0
    ensures r.Err? ==> r.error == LengthMismatch
    ensures r.Ok? ==> r.value.rows == f.rows && |r.value.columns| == |f.columns|
    ensures r.Ok? ==> r.value.columns[0] == Some(ReportDay) && r.value.columns[1..] == f.columns[1..]
  {
    if |f.columns| == 0 then Err(LengthMismatch) else Ok(f.(columns := [Some(ReportDay)] + f.columns[1..]))
  }

  /** The strings the date parser reads as a missing date rather than as a label. */
  const NullLabels: set<string> := {"", "NaT", "nat", "NAT", "nan", "NaN", "NAN"}

  /** One `report_day` value: `to_datetime(format='%B %d')` then `strftime(f'{year}-%m-%d')`.
      A null, or one of the null spellings, stays null; any other label that does not parse fails. */
  function ConvertCell(cell: Cell, year: nat): (r: Result<Cell, Error>)
    ensures r.Err? <==> cell.Some? && cell.value !in NullLabels && ParseDayLabel(cell.value).None?
    ensures r.Err? ==> r.error == DayLabelUnparsed(cell.value)
    ensures r.Ok? ==> (r.value.None? <==> cell.None? || cell.value in NullLabels)
    ensures r.Ok? && r.value.Some? ==> exists month, day ::
      ParseDayLabel(cell.value) == Some((month, day)) && r.value == Some(IsoDate(year, month, day))
  {
    match cell
    case None => Ok(None)
    case Some(text) =>
      if text in NullLabels then Ok(None)
      else match ParseDayLabel(text)
        case None => Err(DayLabelUnparsed(text))
        case Some((month, day)) => Ok(Some(IsoDate(year, month, day)))
  }

  /** A converted date carries the file's year and the label's month and day. */
  lemma ConvertedDateFields(text: string, year: nat, month: nat, day: nat)
    requires ParseDayLabel(text) == Some((month, day))
    ensures text !in NullLabels
    ensures ConvertCell(Some(text), year).Ok?
    ensures var out := ConvertCell(Some(text), year).value.value;
      var fields := Split(out, "-");
      |fields| == 3 && ParseInt(fields[0]) == Some(year) &&
      ParseInt(fields[1]) == Some(month) && ParseInt(fields[2]) == Some(day)
  {
    NullLabelsDoNotParse(text);
    ConvertParsedLabel(text, year, month, day);
    IsoDateRoundTrip(year, month, day);
  }

  /** A label that parses, and so is no null spelling, becomes the date text of its month and day. */
  lemma ConvertParsedLabel(text: string, year: nat, month: nat, day: nat)
    requires ParseDayLabel(text) == Some((month, day)) && text !in NullLabels
    ensures 1 <= month <= 12 && 1 <= day <= 31
    ensures ConvertCell(Some(text), year) == Ok(Some(IsoDate(year, month, day)))
  {
  }

  /** No null spelling is a day label, so the two cases never overlap. */
  lemma NullLabelsDoNotParse(text: string)
    ensures text in NullLabels ==> ParseDayLabel(text) == None
  {
    if text in NullLabels {
      var k := WordLength(text);
      assert Lower(text[..k]) !in LowerMonthNames by {
        assert |text[..k]| <= 3;
      }
    }
  }

  /** The label "<Month name> <day>" becomes the date of that month and day in the file's year. */
  lemma ConvertNamedDay(year: nat, month: nat, day: nat)
    requires 1 <= month <= 12 && 1 <= day <= Calendar.DaysInMonth(month, ParseYear).value
    ensures ConvertCell(Some(Calendar.MonthNames[month - 1] + " " + ShowNat(day)), year) ==
      Ok(Some(IsoDate(year, month, day)))
  {
    LabelRoundTrip(month, day);
    ConvertedDateFields(Calendar.MonthNames[month - 1] + " " + ShowNat(day), year, month, day);
  }

  /** The first cell of every row converted; the first failing label fails them all. */
  function ConvertRows(rows: seq<seq<Cell>>, year: nat): (r: Result<seq<seq<Cell>>, Error>)
    requires forall i :: 0 <= i < |rows| ==> |rows[i]| >= 1
    ensures r.Err? <==> exists i :: 0 <= i < |rows| && ConvertCell(rows[i][0], year).Err?
    ensures r.Ok? ==> |r.value| == |rows| && forall i :: 0 <= i < |rows| ==>
      ConvertCell(rows[i][0], year).Ok? && r.value[i] == rows[i][0 := ConvertCell(rows[i][0], year).value]
  {
    if rows == [] then Ok([])
    else
      var first :- ConvertCell(rows[0][0], year);
      var rest :- ConvertRows(rows[1..], year);
      assert forall i :: 1 <= i < |rows| ==> rows[i] == rows[1..][i - 1];
      Ok([rows[0][0 := first]] + rest)
  }

  /** `df['report_day'] = ...` twice: the one `report_day` column converted in place. When a later
      label also reads `report_day`, `df['report_day']` is a table, not a column, and conversion
      fails. */
  function ConvertReportDay(f: Frame, year: nat): (r: Result<Frame, Error>)
    requires |f.columns| >= 1 && f.columns[0] == Some(ReportDay)
    ensures r.Ok? ==> r.value.columns == f.columns && |r.value.rows| == |f.rows|
    ensures Some(ReportDay) in f.columns[1..] ==> r == Err(ReportDayNotUnique)
    ensures r.Ok? <==> Some(ReportDay) !in f.columns[1..] && ConvertRows(f.rows, year).Ok?
    ensures r.Ok? ==> r.value.rows == ConvertRows(f.rows, year).value
  {
    if Some(ReportDay) in f.columns[1..] then Err(ReportDayNotUnique)
    else
      var rows :- ConvertRows(f.rows, year);
      Ok(Table(f.columns, rows))
  }

  /** `df[name] = np.nan`: every column labelled `name` becomes null in place, or an all-null
      column labelled `name` is appended. */
  function SetNull(f: Frame, name: Label): (r: Frame)
    ensures r.columns == AppendNew(f.columns, [name]) && |r.rows| == |f.rows|
    ensures forall i, j :: 0 <= i < |r.rows| && 0 <= j < |r.columns| && r.columns[j] == name ==>
      r.rows[i][j] == None
    ensures forall i, j :: 0 <= i < |r.rows| && 0 <= j < |f.columns| && f.columns[j] != name ==>
      r.rows[i][j] == f.rows[i][j]
  {
    if name in f.columns then
      Table(f.columns, seq(|f.rows|, i requires 0 <= i < |f.rows| =>
        seq(|f.columns|, j requires 0 <= j < |f.columns| => if f.columns[j] == name then None else f.rows[i][j])))
    else
      Table(f.columns + [name], seq(|f.rows|, i requires 0 <= i < |f.rows| => f.rows[i] + [None]))
  }

  /** `SetNull` for each name in turn: the labels that were absent are appended in order. */
  function AddColumns(f: Frame, names: seq<Label>): (r: Frame)
    ensures r.columns == AppendNew(f.columns, names) && |r.rows| == |f.rows|
    decreases names
  {
    if names == [] then f else AddColumns(SetNull(f, names[0]), names[1..])
  }

  /** Cells under labels that are not among the names are kept. */
  lemma {:induction false} AddColumnsKeeps(f: Frame, names: seq<Label>, i: nat, j: nat)
    requires i < |f.rows| && j < |f.columns| && f.columns[j] !in names
    ensures j < |AddColumns(f, names).columns| && AddColumns(f, names).rows[i][j] == f.rows[i][j]
    decreases names
  {
    if names != [] {
      var g := SetNull(f, names[0]);
      assert g.columns[..|f.columns|] == f.columns;
      assert g.columns[j] == f.columns[j];
      AddColumnsKeeps(g, names[1..], i, j);
    }
  }

  /** Every column labelled with one of the names is null in every row. */
  lemma {:induction false} AddColumnsNull(f: Frame, names: seq<Label>, i: nat, j: nat)
    requires i < |f.rows| && j < |AddColumns(f, names).columns|
    requires AddColumns(f, names).columns[j] in names
    ensures AddColumns(f, names).rows[i][j] == None
    decreases names
  {
    var r := AddColumns(f, names);
    var g := SetNull(f, names[0]);
    assert r == AddColumns(g, names[1..]);
    if r.columns[j] in names[1..] {
      AddColumnsNull(g, names[1..], i, j);
    } else {
      // the label is names[0]: SetNull made it a column of g and nulled it, and no later name touches it
      assert r.columns[j] == names[0];
      assert j < |g.columns| by {
        assert names[0] in g.columns;
      }
      assert g.columns[j] == names[0] by {
        assert r.columns[..|g.columns|] == g.columns;
      }
      AddColumnsKeeps(g, names[1..], i, j);
    }
  }

  /** The six placeholder columns `transform_csv` adds. The row count is kept, the columns already there
      keep their place, and every placeholder is a column afterwards (`PlaceholdersOrder`: nothing
      else is appended, and the absent placeholders come in their order). */
  function AddPlaceholders(f: Frame): (r: Frame)
    ensures |r.rows| == |f.rows|
    ensures |f.columns| <= |r.columns| && r.columns[..|f.columns|] == f.columns
    ensures forall l :: l in Placeholders ==> l in r.columns
  {
    AddColumns(f, Placeholders)
  }

  /** Every placeholder column is null in every row. */
  lemma PlaceholdersNull(f: Frame, i: nat, j: nat)
    requires i < |f.rows| && j < |AddPlaceholders(f).columns|
    requires AddPlaceholders(f).columns[j] in Placeholders
    ensures AddPlaceholders(f).rows[i][j] == None
  {
    AddColumnsNull(f, Placeholders, i, j);
  }

  /** Cells under labels other than the placeholders are kept. */
  lemma PlaceholdersKeepCells(f: Frame, i: nat, j: nat)
    requires i < |f.rows| && j < |f.columns| && f.columns[j] !in Placeholders
    ensures AddPlaceholders(f).rows[i][j] == f.rows[i][j]
  {
    AddColumnsKeeps(f, Placeholders, i, j);
  }

  /** Past the old columns come only placeholders that were absent ... */
  lemma PlaceholdersAbsent(f: Frame, j: nat)
    requires |f.columns| <= j < |AddPlaceholders(f).columns|
    ensures AddPlaceholders(f).columns[j] in Placeholders && AddPlaceholders(f).columns[j] !in f.columns
  {
  }

  /** ... in the order in which `transform_csv` lists them. */
  lemma PlaceholdersOrder(f: Frame, a: nat, b: nat)
    requires |f.columns| <= a < b < |AddPlaceholders(f).columns|
    ensures Seqs.IndexOf(Placeholders, AddPlaceholders(f).columns[a])
          < Seqs.IndexOf(Placeholders, AddPlaceholders(f).columns[b])
  {
    AppendNewOrder(f.columns, Placeholders, a, b);
  }

  /** When no placeholder is there yet, all six are appended in their order. */
  lemma PlaceholdersAppended(f: Frame)
    requires forall l :: l in Placeholders ==> l !in f.columns
    ensures AddPlaceholders(f).columns == f.columns + Placeholders
  {
    assert Seqs.Distinct(Placeholders);
    AppendNewFresh(f.columns, Placeholders);
  }

  /** A placeholder already present stays where it is: nothing is appended for it. */
  lemma PlaceholdersInPlace(f: Frame)
    requires forall l :: l in Placeholders ==> l in f.columns
    ensures AddPlaceholders(f).columns == f.columns
  {
    assert AddPlaceholders(f).columns == AppendNew(f.columns, Placeholders);
    AppendNewPresent(f.columns, Placeholders);
  }

  /** The labels after promotion, the renames, normalisation and `report_day`: the wide table's
      first column, cleaned, with its first entry replaced. */
  function Header(wide: Frame): (h: seq<Label>)
    requires |wide.columns| >= 1 && |wide.rows| >= 1
  {
    [Some(ReportDay)] + seq(|wide.rows| - 1, k requires 0 <= k < |wide.rows| - 1 =>
      CleanLabel(Rename(wide.rows[k + 1][0])))
  }

  /** The relabelling step of `transform_csv`: promotion, the renames, normalisation and `report_day`. It fails exactly when
      the wide table has no column (no header row to promote) or no row (no label to replace). */
  function Relabel(wide: Frame): (r: Result<Frame, Error>)
    ensures r.Ok? <==> |wide.columns| >= 1 && |wide.rows| >= 1
    ensures |wide.columns| == 0 ==> r == Err(NoHeaderRow)
    ensures |wide.columns| >= 1 && |wide.rows| == 0 ==> r == Err(LengthMismatch)
    ensures r.Ok? ==> r.value.columns == Header(wide) && |r.value.rows| == |wide.columns| - 1
    ensures r.Ok? ==> forall j, k :: 0 <= j < |r.value.rows| && 0 <= k < |wide.rows| ==>
      r.value.rows[j][k] == wide.rows[k][j + 1]
  {
    var promoted :- PromoteHeader(wide);
    var cleaned := NormalizeColumns(RenameColumns(promoted));
    var named :- NameReportDay(cleaned);
    Ok(named)
  }

  /** `transform_csv` after `read_csv`, in the order of its statements: the date from the file name,
      then the relabelling, date conversion and placeholders. The month taken from the file name
      is not used. */
  function TransformCsv(filename: string, wide: Frame): (r: Result<Frame, Error>)
    ensures ExtractMonthYear(filename).Err? ==> r == Err(ExtractMonthYear(filename).error)
    ensures r.Ok? ==> ExtractMonthYear(filename).Ok? && |wide.columns| >= 1 && |wide.rows| >= 1
    ensures r.Ok? ==> |r.value.rows| == |wide.columns| - 1
    ensures r.Ok? ==> r.value.columns == AppendNew(Header(wide), Placeholders)
  {
    var date :- ExtractMonthYear(filename);
    var named :- Relabel(wide);
    var converted :- ConvertReportDay(named, date.year);
    Ok(AddPlaceholders(converted))
  }

  /** A file is transformed exactly when its name gives a year, the table has a row and a column,
      no other label cleans to `report_day`, and every day label of the first row parses. */
  lemma TransformCsvSucceeds(filename: string, wide: Frame)
    ensures TransformCsv(filename, wide).Ok? <==>
      ExtractMonthYear(filename).Ok? && |wide.columns| >= 1 && |wide.rows| >= 1 &&
      Some(ReportDay) !in Header(wide)[1..] &&
      forall j :: 1 <= j < |wide.columns| ==>
        ConvertCell(wide.rows[0][j], ExtractMonthYear(filename).value.year).Ok?
  {
    if ExtractMonthYear(filename).Ok? && |wide.columns| >= 1 && |wide.rows| >= 1 {
      var year := ExtractMonthYear(filename).value.year;
      var named := Relabel(wide).value;
      assert TransformCsv(filename, wide).Ok? <==> ConvertReportDay(named, year).Ok?;
      DayLabelsConvert(wide, year);
    }
  }

  /** The `report_day` column converts exactly when every day label of the wide first row does. */
  lemma DayLabelsConvert(wide: Frame, year: nat)
    requires |wide.columns| >= 1 && |wide.rows| >= 1
    ensures ConvertRows(Relabel(wide).value.rows, year).Ok? <==>
      forall j :: 1 <= j < |wide.columns| ==> ConvertCell(wide.rows[0][j], year).Ok?
  {
    var named := Relabel(wide).value;
    assert forall j :: 0 <= j < |named.rows| ==> named.rows[j][0] == wide.rows[0][j + 1];
    if ConvertRows(named.rows, year).Ok? {
      forall j | 1 <= j < |wide.columns| ensures ConvertCell(wide.rows[0][j], year).Ok? {
        assert named.rows[j - 1][0] == wide.rows[0][j];
      }
    } else {
      var k :| 0 <= k < |named.rows| && ConvertCell(named.rows[k][0], year).Err?;
      assert ConvertCell(wide.rows[0][k + 1], year).Err?;
    }
  }

  /** `report_day` is not one of the placeholders, so the last step leaves it alone. */
  lemma ReportDayIsNoPlaceholder()
    ensures Some(ReportDay) !in Placeholders
  {
  }

  /** The successful transform, step by step. */
  lemma TransformCsvSteps(filename: string, wide: Frame)
    requires TransformCsv(filename, wide).Ok?
    ensures Relabel(wide).Ok?
    ensures ConvertReportDay(Relabel(wide).value, ExtractMonthYear(filename).value.year).Ok?
    ensures TransformCsv(filename, wide).value ==
      AddPlaceholders(ConvertReportDay(Relabel(wide).value, ExtractMonthYear(filename).value.year).value)
  {
  }

  /** Row `i`'s `report_day` is the converted label from wide column `i + 1` of the first row:
      null for a null label, else the label's month and day in the file name's year. */
  lemma TransformCsvReportDay(filename: string, wide: Frame, i: nat)
    requires TransformCsv(filename, wide).Ok? && i < |TransformCsv(filename, wide).value.rows|
    ensures ExtractMonthYear(filename).Ok? && 1 <= |wide.rows| && i + 1 < |wide.columns| == |wide.rows[0]|
    ensures 1 <= |TransformCsv(filename, wide).value.columns| == |TransformCsv(filename, wide).value.rows[i]|
    ensures ConvertCell(wide.rows[0][i + 1], ExtractMonthYear(filename).value.year).Ok?
    ensures TransformCsv(filename, wide).value.rows[i][0] ==
      ConvertCell(wide.rows[0][i + 1], ExtractMonthYear(filename).value.year).value
  {
    var year := ExtractMonthYear(filename).value.year;
    var named := Relabel(wide).value;
    TransformCsvSteps(filename, wide);
    var converted := ConvertReportDay(named, year).value;
    assert named.rows[i][0] == wide.rows[0][i + 1];
    var rows := ConvertRows(named.rows, year).value;
    assert converted.rows == rows;
    assert rows[i] == named.rows[i][0 := ConvertCell(named.rows[i][0], year).value];
    assert converted.columns[0] == Some(ReportDay);
    ReportDayIsNoPlaceholder();
    assert i < |converted.rows|;
    PlaceholdersKeepCells(converted, i, 0);
  }

  /** Every other cell is carried over: output row `i`, column `k` is the cell of wide row `k`,
      column `i + 1`, unless the column is a placeholder (then it is null). */
  lemma TransformCsvCell(filename: string, wide: Frame, i: nat, k: nat)
    requires TransformCsv(filename, wide).Ok? && i < |TransformCsv(filename, wide).value.rows|
    requires 1 <= k < |wide.rows|
    ensures Header(wide)[k] !in Placeholders ==> TransformCsv(filename, wide).value.rows[i][k] == wide.rows[k][i + 1]
    ensures Header(wide)[k] in Placeholders ==> TransformCsv(filename, wide).value.rows[i][k] == None
  {
    TransformCsvSteps(filename, wide);
    var year := ExtractMonthYear(filename).value.year;
    var named := Relabel(wide).value;
    var converted := ConvertReportDay(named, year).value;
    var out := TransformCsv(filename, wide).value;
    assert converted.rows[i][k] == named.rows[i][k] == wide.rows[k][i + 1];
    if Header(wide)[k] in Placeholders {
      assert out.columns[k] == Header(wide)[k];
      PlaceholdersNull(converted, i, k);
    } else {
      PlaceholdersKeepCells(converted, i, k);
    }
  }

  /** Every placeholder is a column of the output and null in every row. */
  lemma TransformCsvPlaceholders(filename: string, wide: Frame, i: nat, j: nat)
    requires TransformCsv(filename, wide).Ok?
    requires i < |TransformCsv(filename, wide).value.rows| && j < |TransformCsv(filename, wide).value.columns|
    requires TransformCsv(filename, wide).value.columns[j] in Placeholders
    ensures TransformCsv(filename, wide).value.rows[i][j] == None
  {
    TransformCsvSteps(filename, wide);
    var year := ExtractMonthYear(filename).value.year;
    var converted := ConvertReportDay(Relabel(wide).value, year).value;
    PlaceholdersNull(converted, i, j);
  }

  /** Only the year of the file name matters: two names with the same year give the same table. */
  lemma TransformIgnoresFilenameMonth(f: string, g: string, wide: Frame)
    requires ExtractMonthYear(f).Ok? && ExtractMonthYear(g).Ok?
    requires ExtractMonthYear(f).value.year == ExtractMonthYear(g).value.year
    ensures TransformCsv(f, wide) == TransformCsv(g, wide)
  {
    var year := ExtractMonthYear(f).value.year;
    if Relabel(wide).Ok? {
      var named := Relabel(wide).value;
      assert TransformCsv(f, wide) == TransformCsv(g, wide) by {
        assert ConvertReportDay(named, ExtractMonthYear(g).value.year) == ConvertReportDay(named, year);
      }
    }
  }
}
