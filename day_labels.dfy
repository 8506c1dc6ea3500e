/** `pd.to_datetime(values, format='%B %d')` and `.dt.strftime(f'{year}-%m-%d')` on one value. */
module DayLabels {
  import opened Wrappers
  import opened Text
  import opened Calendar
  import Seqs

  /** The year strptime assumes when the format has none: every day is checked against 1900. */
  const ParseYear := 1900

  /** `\s` on ASCII: space, tab, line feed, vertical tab, form feed, carriage return and the
      separators 0x1c..0x1f. */
  predicate IsSpace(c: char) {
    c == ' ' || 9 <= c as int <= 13 || 28 <= c as int <= 31
  }

  /** The month names in lower case, the form `%B` compares in. */
  const LowerMonthNames: seq<string> := [
    "january", "february", "march", "april", "may", "june",
    "july", "august", "september", "october", "november", "december"
  ]

  lemma LowerMonthName(i: nat)
    requires i < 12
    ensures Lower(MonthNames[i]) == LowerMonthNames[i]
  {
    match i
    case 0 => assert Lower("January") == "january";
    case 1 => assert Lower("February") == "february";
    case 2 => assert Lower("March") == "march";
    case 3 => assert Lower("April") == "april";
    case 4 => assert Lower("May") == "may";
    case 5 => assert Lower("June") == "june";
    case 6 => assert Lower("July") == "july";
    case 7 => assert Lower("August") == "august";
    case 8 => assert Lower("September") == "september";
    case 9 => assert Lower("October") == "october";
    case 10 => assert Lower("November") == "november";
    case 11 => assert Lower("December") == "december";
  }

  /** Month names are made of letters only. */
  lemma MonthNameHasNoSpace(i: nat)
    requires i < 12
    ensures forall j :: 0 <= j < |MonthNames[i]| ==> !IsSpace(MonthNames[i][j])
  {
  }

  /** The length of the longest prefix without whitespace. */
  function WordLength(s: string): (k: nat)
    ensures k <= |s| && (k < |s| ==> IsSpace(s[k]))
    ensures forall i :: 0 <= i < k ==> !IsSpace(s[i])
  {
    if s == [] || IsSpace(s[0]) then 0 else 1 + WordLength(s[1..])
  }

  /** `s` without its leading whitespace. */
  function SkipSpaces(s: string): (r: string)
    ensures |r| <= |s| && r == s[|s| - |r|..]
    ensures r == [] || !IsSpace(r[0])
    ensures forall i :: 0 <= i < |s| - |r| ==> IsSpace(s[i])
  {
    if s != [] && IsSpace(s[0]) then SkipSpaces(s[1..]) else s
  }

  /** `%B`: the month whose full name equals `word` up to case. */
  function MonthOfName(word: string): (m: Option<nat>)
    ensures m.Some? ==> 1 <= m.value <= 12 && Lower(word) == Lower(MonthNames[m.value - 1])
    ensures m.None? ==> forall i :: 0 <= i < 12 ==> Lower(word) != Lower(MonthNames[i])
  {
    assert forall i :: 0 <= i < 12 ==> Lower(MonthNames[i]) == LowerMonthNames[i] by {
      forall i | 0 <= i < 12 ensures Lower(MonthNames[i]) == LowerMonthNames[i] {
        LowerMonthName(i);
      }
    }
    if Lower(word) in LowerMonthNames then Some(Seqs.IndexOf(LowerMonthNames, Lower(word)) + 1) else None
  }

  /** The value of a numeral of one or two digits. */
  lemma ShortDecimal(s: string)
    ensures |s| == 1 && AllDigits(s) ==> DecimalValue(s) == DigitValue(s[0])
    ensures |s| == 2 && AllDigits(s) ==> DecimalValue(s) == DigitValue(s[0]) * 10 + DigitValue(s[1])
  {
    if |s| == 1 && AllDigits(s) {
      OneDigit(s);
    } else if |s| == 2 && AllDigits(s) {
      TwoDigits(s);
    }
  }

  /** `%d`: the alternatives 3[01], [12]\d, 0[1-9], [1-9], one of which must end the value
      (`DayOfNumeralAccepts`: exactly the numerals of one or two digits naming a day 1..31). */
  function DayOfNumeral(s: string): (d: Option<nat>)
    ensures d.Some? ==> 1 <= d.value <= 31 && ParseInt(s) == Some(d.value)
  {
    if |s| == 1 && '1' <= s[0] <= '9' then
      OneDigit(s);
      Some(DigitValue(s[0]))
    else if |s| == 2 && IsDigit(s[0]) && IsDigit(s[1]) &&
            (s[0] == '1' || s[0] == '2' || (s[0] == '0' && s[1] != '0') || (s[0] == '3' && s[1] <= '1')) then
      TwoDigits(s);
      Some(DigitValue(s[0]) * 10 + DigitValue(s[1]))
    else
      None
  }

  /** `%d` accepts a numeral exactly when it has one or two digits and names a day 1..31. */
  lemma DayOfNumeralAccepts(s: string)
    ensures DayOfNumeral(s).Some? <==> 1 <= |s| <= 2 && IsDecimal(s) && 1 <= DecimalValue(s) <= 31
  {
    ShortDecimal(s);
  }

  /** One value under `format='%B %d'`: a month name (any case), whitespace, a day numeral, and
      nothing else; the date must exist in 1900, so February 29 never parses. */
  function ParseDayLabel(text: string): (r: Option<(nat, nat)>)
    ensures r.Some? ==> 1 <= r.value.0 <= 12 && 1 <= r.value.1 <= DaysInMonth(r.value.0, ParseYear).value
    ensures r.Some? ==> var k := WordLength(text);
      Lower(text[..k]) == Lower(MonthNames[r.value.0 - 1]) && ParseInt(SkipSpaces(text[k..])) == Some(r.value.1)
  {
    var k := WordLength(text);
    match MonthOfName(text[..k])
    case None => None
    case Some(month) =>
      match DayOfNumeral(SkipSpaces(text[k..]))
      case None => None
      case Some(day) =>
        if day <= DaysInMonth(month, ParseYear).value then Some((month, day)) else None
  }

  /** `strftime(f'{year}-%m-%d')`: the year as `str(year)`, month and day two digits each. */
  function IsoDate(year: nat, month: nat, day: nat): string
    requires 1 <= month <= 12 && 1 <= day <= 31
  {
    ShowNat(year) + "-" + Pad2(month) + "-" + Pad2(day)
  }

  /** The output date splits back at '-' into the year, month and day it was made from. */
  lemma IsoDateRoundTrip(year: nat, month: nat, day: nat)
    requires 1 <= month <= 12 && 1 <= day <= 31
    ensures |Split(IsoDate(year, month, day), "-")| == 3
    ensures ParseInt(Split(IsoDate(year, month, day), "-")[0]) == Some(year)
    ensures ParseInt(Split(IsoDate(year, month, day), "-")[1]) == Some(month)
    ensures ParseInt(Split(IsoDate(year, month, day), "-")[2]) == Some(day)
  {
    var y, m, d := ShowNat(year), Pad2(month), Pad2(day);
    DecimalHasNoPunctuation(y);
    DecimalHasNoPunctuation(m);
    DecimalHasNoPunctuation(d);
    assert IsoDate(year, month, day) == y + "-" + (m + "-" + d);
    assert Split(m + "-" + d, "-") == [m, d] by {
      NoOccurrenceInside(m, "-", d, 0);
      SplitAtFirst(m, "-", d);
      SplitWithoutSeparator(d, "-", 0);
    }
    NoOccurrenceInside(y, "-", m + "-" + d, 0);
    SplitAtFirst(y, "-", m + "-" + d);
    ShowNatRoundTrip(year);
    Pad2RoundTrip(month);
    Pad2RoundTrip(day);
  }

  /** The first word of `word + rest` is `word` when `rest` starts with whitespace. */
  lemma WordLengthBeforeSpace(word: string, rest: string)
    requires forall j :: 0 <= j < |word| ==> !IsSpace(word[j])
    requires rest != [] && IsSpace(rest[0])
    ensures WordLength(word + rest) == |word|
  {
    var text := word + rest;
    var k := WordLength(text);
    assert IsSpace(text[|word|]);
    assert forall j :: 0 <= j < |word| ==> text[j] == word[j];
  }

  lemma LowerMonthNamesDistinct()
    ensures Seqs.Distinct(LowerMonthNames)
  {
  }

  /** Each lower-case month name is found at its own place. */
  lemma LowerMonthNameIndex(i: nat)
    requires i < 12
    ensures Seqs.IndexOf(LowerMonthNames, LowerMonthNames[i]) == i
  {
    LowerMonthNamesDistinct();
    Seqs.IndexOfDistinct(LowerMonthNames, i);
  }

  /** Each month's own name is recognised as that month. */
  lemma MonthNameRecognised(month: nat)
    requires 1 <= month <= 12
    ensures MonthOfName(MonthNames[month - 1]) == Some(month)
  {
    LowerMonthName(month - 1);
    MonthOfLowerName(MonthNames[month - 1], month - 1);
  }

  /** A word that lower-cases to the i-th lower-case name is month i + 1. */
  lemma MonthOfLowerName(word: string, i: nat)
    requires i < 12 && Lower(word) == LowerMonthNames[i]
    ensures MonthOfName(word) == Some(i + 1)
  {
    LowerMonthNameIndex(i);
  }

  /** A label written `<Month name> <numeral>` is read through the numeral alone. */
  lemma NamedLabel(month: nat, numeral: string)
    requires 1 <= month <= 12
    requires numeral != [] && !IsSpace(numeral[0])
    ensures ParseDayLabel(MonthNames[month - 1] + " " + numeral) ==
      match DayOfNumeral(numeral)
      case None => None
      case Some(day) => if day <= DaysInMonth(month, ParseYear).value then Some((month, day)) else None
  {
    var name := MonthNames[month - 1];
    var text := name + (" " + numeral);
    assert MonthNames[month - 1] + " " + numeral == text;
    MonthNameHasNoSpace(month - 1);
    WordLengthBeforeSpace(name, " " + numeral);
    assert text[..|name|] == name;
    assert text[|name|..] == " " + numeral;
    MonthNameRecognised(month);
    assert SkipSpaces(" " + numeral) == numeral by {
      assert (" " + numeral)[1..] == numeral;
    }
  }

  /** `str(day)` is a numeral `%d` accepts, for every day a month can have. */
  lemma DayNumeral(day: nat)
    requires 1 <= day <= 31
    ensures ShowNat(day) != [] && !IsSpace(ShowNat(day)[0])
    ensures DayOfNumeral(ShowNat(day)) == Some(day)
  {
    var s := ShowNat(day);
    ShowNatRoundTrip(day);
    if day < 10 {
      assert s == [DigitChar(day)];
    } else {
      assert s == [DigitChar(day / 10), DigitChar(day % 10)];
      TwoDigits(s);
    }
  }

  /** "<Month name> <day>" parses back to that month and day for every day the month has in 1900. */
  lemma LabelRoundTrip(month: nat, day: nat)
    requires 1 <= month <= 12 && 1 <= day <= DaysInMonth(month, ParseYear).value
    ensures ParseDayLabel(MonthNames[month - 1] + " " + ShowNat(day)) == Some((month, day))
  {
    DayNumeral(day);
    NamedLabel(month, ShowNat(day));
  }

  /** A day past the end of its month in 1900 does not parse. */
  lemma DayBeyondMonthFails(month: nat, day: nat)
    requires 1 <= month <= 12 && DaysInMonth(month, ParseYear).value < day <= 31
    ensures ParseDayLabel(MonthNames[month - 1] + " " + ShowNat(day)) == None
  {
    DayNumeral(day);
    NamedLabel(month, ShowNat(day));
  }

  /** February 29 does not exist in 1900, so the label fails whatever year the file name gives. */
  lemma LeapDayNeverParses()
    ensures ParseDayLabel("February 29") == None
  {
    assert ShowNat(29) == "29" by {
      assert ShowNat(2) == "2";
    }
    assert "February 29" == MonthNames[1] + " " + ShowNat(29);
    assert !IsLeapYear(ParseYear);
    DayBeyondMonthFails(2, 29);
  }

  /** Lower-casing turns no letter into whitespace and no whitespace into anything else. */
  lemma LowerKeepsSpace(c: char)
    ensures IsSpace(LowerChar(c)) <==> IsSpace(c)
  {
  }

  /** A word equal to a month name up to case has no whitespace in it. */
  lemma MonthWordHasNoSpace(word: string, i: nat)
    requires i < 12 && Lower(word) == Lower(MonthNames[i])
    ensures forall j :: 0 <= j < |word| ==> !IsSpace(word[j])
  {
    MonthNameHasNoSpace(i);
    forall j | 0 <= j < |word| ensures !IsSpace(word[j]) {
      LowerKeepsSpace(word[j]);
      LowerKeepsSpace(MonthNames[i][j]);
      assert LowerChar(word[j]) == LowerChar(MonthNames[i][j]);
    }
  }

  /** Leading whitespace is skipped up to the first other character. */
  lemma {:induction false} SkipAllSpaces(spaces: string, rest: string)
    requires forall j :: 0 <= j < |spaces| ==> IsSpace(spaces[j])
    requires rest == [] || !IsSpace(rest[0])
    ensures SkipSpaces(spaces + rest) == rest
  {
    if spaces != [] {
      assert (spaces + rest)[1..] == spaces[1..] + rest;
      SkipAllSpaces(spaces[1..], rest);
    } else {
      assert spaces + rest == rest;
    }
  }

  /** A label cut at its first whitespace into `word` and `rest`. */
  lemma CutAtSpace(word: string, rest: string)
    requires forall j :: 0 <= j < |word| ==> !IsSpace(word[j])
    requires rest != [] && IsSpace(rest[0])
    ensures WordLength(word + rest) == |word|
    ensures (word + rest)[..|word|] == word && (word + rest)[|word|..] == rest
  {
    WordLengthBeforeSpace(word, rest);
  }

  /** `ParseDayLabel` of a word and the text from its first whitespace on. */
  lemma ParseDayLabelCut(word: string, rest: string, month: nat, day: nat)
    requires forall j :: 0 <= j < |word| ==> !IsSpace(word[j])
    requires rest != [] && IsSpace(rest[0])
    requires MonthOfName(word) == Some(month) && DayOfNumeral(SkipSpaces(rest)) == Some(day)
    requires day <= DaysInMonth(month, ParseYear).value
    ensures ParseDayLabel(word + rest) == Some((month, day))
  {
    CutAtSpace(word, rest);
    ParseDayLabelParts(word + rest, month, day);
  }

  /** `ParseDayLabel` from the two parts it reads. */
  lemma ParseDayLabelParts(text: string, month: nat, day: nat)
    requires MonthOfName(text[..WordLength(text)]) == Some(month)
    requires DayOfNumeral(SkipSpaces(text[WordLength(text)..])) == Some(day)
    requires day <= DaysInMonth(month, ParseYear).value
    ensures ParseDayLabel(text) == Some((month, day))
  {
  }

  /** A month name in any case is read as that month and holds no whitespace. */
  lemma MonthWord(word: string, month: nat)
    requires 1 <= month <= 12 && Lower(word) == Lower(MonthNames[month - 1])
    ensures MonthOfName(word) == Some(month)
    ensures forall j :: 0 <= j < |word| ==> !IsSpace(word[j])
  {
    MonthWordHasNoSpace(word, month - 1);
    LowerMonthName(month - 1);
    MonthOfLowerName(word, month - 1);
  }

  /** A numeral of one or two digits with value 1..31 is read as its value by `%d`. */
  lemma DayWord(numeral: string)
    requires 1 <= |numeral| <= 2 && IsDecimal(numeral) && 1 <= DecimalValue(numeral) <= 31
    ensures DayOfNumeral(numeral) == Some(DecimalValue(numeral)) && !IsSpace(numeral[0])
  {
    DayOfNumeralAccepts(numeral);
  }

  /** `%B %d` accepts every label made of a month name in any case, whitespace, and a numeral of
      one or two digits naming a day of that month in 1900; the result is that month and day. */
  lemma ParseDayLabelAccepts(word: string, spaces: string, numeral: string, month: nat)
    requires 1 <= month <= 12 && Lower(word) == Lower(MonthNames[month - 1])
    requires spaces != [] && forall j :: 0 <= j < |spaces| ==> IsSpace(spaces[j])
    requires 1 <= |numeral| <= 2 && IsDecimal(numeral)
    requires 1 <= DecimalValue(numeral) <= DaysInMonth(month, ParseYear).value
    ensures ParseDayLabel(word + (spaces + numeral)) == Some((month, DecimalValue(numeral)))
  {
    MonthWord(word, month);
    DayWord(numeral);
    SkipAllSpaces(spaces, numeral);
    ParseDayLabelCut(word, spaces + numeral, month, DecimalValue(numeral));
  }

  /** A parsed label has whitespace after its month word and a numeral of one or two digits after
      that: "June 005" and "June5" do not parse. */
  lemma ParseDayLabelShape(text: string)
    ensures ParseDayLabel(text).Some? ==>
      WordLength(text) < |text| && 1 <= |SkipSpaces(text[WordLength(text)..])| <= 2
  {
    DayOfNumeralAccepts(SkipSpaces(text[WordLength(text)..]));
  }
}
