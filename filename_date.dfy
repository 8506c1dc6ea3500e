/** `extract_month_year_from_filename`: the reporting (month, year) read from a file name. */
module FilenameDate {
  import opened Wrappers
  import opened Errors
  import opened Text
  import opened Calendar

  datatype ReportDate = ReportDate(month: nat, year: nat)

  /** The answer for a name with fewer than four segments. */
  const Fallback := ReportDate(1, 2025)

  /** The literal that separates the segments of a file name. */
  const Separator := " - "

  /** The month table: abbreviations and full names, case-sensitive. The month map of
      `extract_month_year_from_filename` lists "May" twice with the same number, so it has 23 distinct keys. */
  const MonthTable: map<string, nat> := map[
    "Jan" := 1, "Feb" := 2, "Mar" := 3, "Apr" := 4, "May" := 5, "Jun" := 6,
    "Jul" := 7, "Aug" := 8, "Sep" := 9, "Oct" := 10, "Nov" := 11, "Dec" := 12,
    "January" := 1, "February" := 2, "March" := 3, "April" := 4, "June" := 6,
    "July" := 7, "August" := 8, "September" := 9, "October" := 10, "November" := 11, "December" := 12
  ]

  /** The three-letter abbreviations, January first. */
  const Abbreviations: seq<string> := [
    "Jan", "Feb", "Mar", "Apr", "May", "Jun", "Jul", "Aug", "Sep", "Oct", "Nov", "Dec"
  ]

  /** `month_map.get(token, 1)`. */
  function LookupMonth(token: string): (month: nat)
    ensures 1 <= month <= 12
  {
    if token in MonthTable then MonthTable[token] else 1
  }

  /** The abbreviations are the first three letters of the full names. */
  lemma AbbreviationsArePrefixes(i: nat)
    requires i < 12
    ensures Abbreviations[i] == MonthNames[i][..3]
  {
    match i
    case 0 => assert MonthNames[0][..3] == "Jan";
    case 1 => assert MonthNames[1][..3] == "Feb";
    case 2 => assert MonthNames[2][..3] == "Mar";
    case 3 => assert MonthNames[3][..3] == "Apr";
    case 4 => assert MonthNames[4][..3] == "May";
    case 5 => assert MonthNames[5][..3] == "Jun";
    case 6 => assert MonthNames[6][..3] == "Jul";
    case 7 => assert MonthNames[7][..3] == "Aug";
    case 8 => assert MonthNames[8][..3] == "Sep";
    case 9 => assert MonthNames[9][..3] == "Oct";
    case 10 => assert MonthNames[10][..3] == "Nov";
    case 11 => assert MonthNames[11][..3] == "Dec";
  }

  /** The month table's keys are exactly the full month names and their abbreviations, so any
      other token, whatever its case, falls back to January. */
  lemma MonthTableKeys(token: string)
    ensures token in MonthTable <==> token in MonthNames || token in Abbreviations
    ensures token !in MonthNames && token !in Abbreviations ==> LookupMonth(token) == 1
  {
  }

  /** Each full name and each abbreviation maps to its month number; so does the first three
      letters of every full name. */
  lemma MonthTableEntry(i: nat)
    requires i < 12
    ensures LookupMonth(MonthNames[i]) == i + 1 && LookupMonth(Abbreviations[i]) == i + 1
    ensures LookupMonth(MonthNames[i][..3]) == i + 1
  {
    AbbreviationsArePrefixes(i);
  }

  /** `extract_month_year_from_filename(filename)`. With four or more segments, the fourth is cut at
      single spaces: its first token is the year (`int()` may raise) and its second the month
      (missing: IndexError, raised first); otherwise the fallback (1, 2025). */
  function ExtractMonthYear(filename: string): (r: Result<ReportDate, Error>)
    ensures r.Ok? ==> 1 <= r.value.month <= 12
  {
    var parts := Split(filename, Separator);
    if |parts| >= 4 then
      var tokens := Split(parts[3], " ");
      if |tokens| < 2 then Err(MissingMonthToken)
      else
        var month := LookupMonth(tokens[1]);
        match ParseInt(tokens[0])
        case None => Err(YearNotInteger(tokens[0]))
        case Some(year) => Ok(ReportDate(month, year))
    else
      Ok(Fallback)
  }

  /** Fewer than four segments: the fallback, never an error. Four or more: only the fourth
      segment is read, so names that agree on it get the same answer. */
  lemma OnlyFourthSegmentRead(f: string, g: string)
    ensures |Split(f, Separator)| < 4 ==> ExtractMonthYear(f) == Ok(Fallback)
    ensures |Split(f, Separator)| >= 4 && |Split(g, Separator)| >= 4 &&
            Split(f, Separator)[3] == Split(g, Separator)[3] ==>
            ExtractMonthYear(f) == ExtractMonthYear(g)
  {
  }

  /** A first segment without '-' is cut off at the separator that follows it. */
  lemma SplitOffSegment(a: string, b: string)
    requires '-' !in a
    ensures Split(a + Separator + b, Separator) == [a] + Split(b, Separator)
  {
    NoOccurrenceInside(a, Separator, b, 1);
    SplitAtFirst(a, Separator, b);
  }

  /** Concatenation regrouped to the right. */
  lemma Regroup(a: string, b: string, c: string)
    ensures a + b + c == a + (b + c)
  {
  }

  /** A name `p0 - p1 - p2 - s3` whose pieces hold no '-' has exactly those four segments. */
  lemma FourSegments(p0: string, p1: string, p2: string, s3: string)
    requires '-' !in p0 && '-' !in p1 && '-' !in p2 && '-' !in s3
    ensures Split(p0 + Separator + p1 + Separator + p2 + Separator + s3, Separator) == [p0, p1, p2, s3]
  {
    var t2 := p2 + Separator + s3;
    var t1 := p1 + Separator + t2;
    var a := p0 + Separator;
    var x1 := a + p1 + Separator;
    Regroup(x1, p2, Separator);
    Regroup(x1, p2 + Separator, s3);
    assert x1 + p2 + Separator + s3 == x1 + t2;
    Regroup(a, p1, Separator);
    Regroup(a, p1 + Separator, t2);
    assert x1 + t2 == a + t1;
    assert Split(t2, Separator) == [p2, s3] by {
      SplitOffSegment(p2, s3);
      SplitWithoutSeparator(s3, Separator, 1);
    }
    assert Split(t1, Separator) == [p1, p2, s3] by {
      SplitOffSegment(p1, t2);
    }
    SplitOffSegment(p0, t1);
  }

  /** A fourth segment `first second rest` whose first two tokens hold no space is cut into
      `first`, `second`, and then the pieces of `rest`. */
  lemma {:induction false} FirstTwoTokens(first: string, second: string, rest: string)
    requires ' ' !in first && ' ' !in second
    ensures |Split(first + " " + second + " " + rest, " ")| >= 2
    ensures Split(first + " " + second + " " + rest, " ")[..2] == [first, second]
  {
    assert first + " " + second + " " + rest == first + " " + (second + " " + rest);
    NoOccurrenceInside(first, " ", second + " " + rest, 0);
    SplitAtFirst(first, " ", second + " " + rest);
    NoOccurrenceInside(second, " ", rest, 0);
    SplitAtFirst(second, " ", rest);
  }

  /** Month names are non-empty words of letters: no dash, no space, no leading digit. */
  lemma MonthNameShape(i: nat)
    requires i < 12
    ensures '-' !in MonthNames[i] && ' ' !in MonthNames[i]
    ensures |MonthNames[i]| > 0 && !IsDigit(MonthNames[i][0])
  {
  }

  /** The naming convention of the doc comment, `<p0> - <p1> - <p2> - <Month> <rest>`, puts a month
      name where the code reads the year, so every such name raises instead of giving a date. */
  lemma DocumentedConventionRaises(p0: string, p1: string, p2: string, month: nat, rest: string)
    requires 1 <= month <= 12
    requires '-' !in p0 && '-' !in p1 && '-' !in p2 && '-' !in rest
    ensures ExtractMonthYear(p0 + Separator + p1 + Separator + p2 + Separator + MonthNames[month - 1] + " " + rest)
         == Err(YearNotInteger(MonthNames[month - 1]))
  {
    var name := MonthNames[month - 1];
    MonthNameShape(month - 1);
    var s3 := name + " " + rest;
    assert '-' !in s3;
    var f := p0 + Separator + p1 + Separator + p2 + Separator + s3;
    assert f == p0 + Separator + p1 + Separator + p2 + Separator + name + " " + rest;
    FourSegments(p0, p1, p2, s3);
    assert Split(f, Separator)[3] == s3;
    assert Split(s3, " ") == [name] + Split(rest, " ") by {
      NoOccurrenceInside(name, " ", rest, 0);
      SplitAtFirst(name, " ", rest);
    }
    assert ParseInt(name) == None;
  }

  /** With the year first, `<p0> - <p1> - <p2> - <year> <token> <rest>` yields that year and the
      table's month for `token`. */
  lemma YearFirstConventionParses(p0: string, p1: string, p2: string, year: nat, token: string, rest: string)
    requires '-' !in p0 && '-' !in p1 && '-' !in p2 && '-' !in token && '-' !in rest
    requires ' ' !in token
    ensures ExtractMonthYear(p0 + Separator + p1 + Separator + p2 + Separator + ShowNat(year) + " " + token + " " + rest)
         == Ok(ReportDate(LookupMonth(token), year))
  {
    var y := ShowNat(year);
    DecimalHasNoPunctuation(y);
    var s3 := y + " " + token + " " + rest;
    assert '-' !in s3;
    var f := p0 + Separator + p1 + Separator + p2 + Separator + s3;
    assert f == p0 + Separator + p1 + Separator + p2 + Separator + y + " " + token + " " + rest;
    FourSegments(p0, p1, p2, s3);
    assert Split(f, Separator)[3] == s3;
    var tokens := Split(s3, " ");
    assert tokens[0] == y && tokens[1] == token && |tokens| >= 2 by {
      FirstTwoTokens(y, token, rest);
    }
    assert ParseInt(tokens[0]) == Some(year) by {
      ShowNatRoundTrip(year);
    }
  }

  /** A fourth segment without a space has no month token: `split(' ')[1]` raises IndexError. */
  lemma NoSpaceRaises(f: string)
    requires |Split(f, Separator)| >= 4 && ' ' !in Split(f, Separator)[3]
    ensures ExtractMonthYear(f) == Err(MissingMonthToken)
  {
    SplitWithoutSeparator(Split(f, Separator)[3], " ", 0);
  }

  /** A first token that is not a decimal numeral makes `int()` raise ValueError on it. */
  lemma NonDecimalYearRaises(f: string, y: string, rest: string)
    requires |Split(f, Separator)| >= 4 && Split(f, Separator)[3] == y + " " + rest
    requires ' ' !in y && !IsDecimal(y)
    ensures ExtractMonthYear(f) == Err(YearNotInteger(y))
  {
    NoOccurrenceInside(y, " ", rest, 0);
    SplitAtFirst(y, " ", rest);
  }

  /** A decimal first token followed by a space gives that year, and the month of the token after
      the space (January when it is not in the table, the empty token included). */
  lemma DecimalYearParses(f: string, y: string, rest: string)
    requires |Split(f, Separator)| >= 4 && Split(f, Separator)[3] == y + " " + rest
    requires ' ' !in y && IsDecimal(y)
    ensures ExtractMonthYear(f) == Ok(ReportDate(LookupMonth(Split(rest, " ")[0]), DecimalValue(y)))
  {
    NoOccurrenceInside(y, " ", rest, 0);
    SplitAtFirst(y, " ", rest);
  }

  /** The docstring example of `extract_month_year_from_filename`, "Ghana - Marketing_Growth 360 Report - 2025 - June 2025
      Overview.csv" (written here segment by segment), raises ValueError on "June". */
  lemma DocCommentExampleRaises()
    ensures ExtractMonthYear("Ghana" + Separator + "Marketing_Growth 360 Report" + Separator + "2025"
                             + Separator + "June 2025 Overview.csv")
         == Err(YearNotInteger("June"))
  {
    var p0, p1, p2, rest := "Ghana", "Marketing_Growth 360 Report", "2025", "2025 Overview.csv";
    assert '-' !in p1;
    assert MonthNames[5] == "June";
    assert MonthNames[5] + " " + rest == "June 2025 Overview.csv";
    var head := p0 + Separator + p1 + Separator + p2 + Separator;
    assert head + MonthNames[5] + " " + rest == head + "June 2025 Overview.csv";
    DocumentedConventionRaises(p0, p1, p2, 6, rest);
  }
}
