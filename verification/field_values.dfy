/** The typed values a formatted record holds, and `parse_date`
    (python/src/fastfec/utils.py), which turns a `YYYY-MM-DD` string into a
    calendar date or hands the input back unchanged. */
module FieldValues {
  import opened Basics
  import opened Decimal

  /** `datetime.date(year, month, day)`. */
  datatype Date = Date(year: int, month: int, day: int)

  /** One value of a formatted record: Python `None`, a `str`, a `float`
      (kept abstract as a real) or a `datetime.date`. */
  datatype Value = Null | Str(s: string) | Num(x: real) | Day(d: Date)

  const MinYear: int := 1
  const MaxYear: int := 9999

  predicate IsLeapYear(y: int) {
    y % 4 == 0 && (y % 100 != 0 || y % 400 == 0)
  }

  function DaysInMonth(y: int, m: int): int
    requires 1 <= m <= 12
  {
    if m == 2 then (if IsLeapYear(y) then 29 else 28)
    else if m == 4 || m == 6 || m == 9 || m == 11 then 30
    else 31
  }

  /** The arguments `datetime.date` accepts without raising `ValueError`. */
  predicate ValidDate(d: Date) {
    && MinYear <= d.year <= MaxYear
    && 1 <= d.month <= 12
    && 1 <= d.day <= DaysInMonth(d.year, d.month)
  }

  /** The three integers `parse_date` reads from a 10-character string:
      `int(s[0:4])`, `int(s[5:7])`, `int(s[8:10])`; `None` if any of them
      raises. Positions 4 and 7 are never looked at. */
  function DateParts(s: string): (r: Option<Date>)
    requires |s| == 10
    ensures r.Some? <==> ParseInt(s[0..4]).Some? && ParseInt(s[5..7]).Some? && ParseInt(s[8..10]).Some?
    ensures r.Some? ==> && ParseInt(s[0..4]) == Some(r.value.year)
                        && ParseInt(s[5..7]) == Some(r.value.month)
                        && ParseInt(s[8..10]) == Some(r.value.day)
  {
    match (ParseInt(s[0..4]), ParseInt(s[5..7]), ParseInt(s[8..10]))
    case (Some(y), Some(m), Some(d)) => Some(Date(y, m, d))
    case _ => None
  }

  /** `parse_date(date)`: never raises. `None` and strings whose length is
      not 10 come back unchanged; otherwise the result is a date exactly
      when the three components parse and form a valid calendar date, and
      the unchanged string in every other case. */
  function ParseDate(date: Option<string>): (r: Value)
    ensures date.None? ==> r == Null
    ensures date.Some? ==> r == Str(date.value) || r.Day?
    ensures date.Some? && |date.value| != 10 ==> r == Str(date.value)
    ensures r.Day? ==> date.Some? && |date.value| == 10
                       && DateParts(date.value) == Some(r.d) && ValidDate(r.d)
    ensures (date.Some? && |date.value| == 10 && DateParts(date.value).Some?
             && ValidDate(DateParts(date.value).value)) ==> r.Day?
  {
    match date
    case None => Null
    case Some(s) =>
      if |s| != 10 then Str(s)
      else
        match DateParts(s)
        case Some(d) => if ValidDate(d) then Day(d) else Str(s)
        case None => Str(s)
  }

  /** `d.isoformat()`: `YYYY-MM-DD` with zero padding. */
  function FormatDate(d: Date): (s: string)
    requires ValidDate(d)
    ensures |s| == 10
  {
    ZeroPad(d.year, 4) + "-" + ZeroPad(d.month, 2) + "-" + ZeroPad(d.day, 2)
  }

  /** The characters at positions 4 and 7 play no part: two 10-character
      strings that agree on the year, month and day slices parse to the same
      date, or both come back unchanged. */
  lemma ParseDateIgnoresSeparators(s: string, t: string)
    requires |s| == 10 && |t| == 10
    requires s[0..4] == t[0..4] && s[5..7] == t[5..7] && s[8..10] == t[8..10]
    ensures ParseDate(Some(s)).Day? <==> ParseDate(Some(t)).Day?
    ensures ParseDate(Some(s)).Day? ==> ParseDate(Some(s)) == ParseDate(Some(t))
    ensures ParseDate(Some(s)).Str? ==> ParseDate(Some(t)) == Str(t)
  {
  }

  /** `DateParts` from the three `int()` results. */
  lemma DatePartsOfParts(s: string, y: int, m: int, d: int)
    requires |s| == 10
    requires ParseInt(s[0..4]) == Some(y) && ParseInt(s[5..7]) == Some(m) && ParseInt(s[8..10]) == Some(d)
    ensures DateParts(s) == Some(Date(y, m, d))
  {
  }

  /** Zero-padded components, with any characters in the separator
      positions, are read back as the numbers they encode. */
  lemma DatePartsOfPadded(y: nat, m: nat, d: nat, sep1: char, sep2: char)
    requires y < Pow10(4) && m < Pow10(2) && d < Pow10(2)
    ensures DateParts(ZeroPad(y, 4) + [sep1] + ZeroPad(m, 2) + [sep2] + ZeroPad(d, 2)) == Some(Date(y, m, d))
  {
    var ys, ms, ds := ZeroPad(y, 4), ZeroPad(m, 2), ZeroPad(d, 2);
    var s := ys + [sep1] + ms + [sep2] + ds;
    assert s[0..4] == ys && s[5..7] == ms && s[8..10] == ds;
    assert ParseInt(ys) == Some(y) by { ParseIntDigits(ys); }
    assert ParseInt(ms) == Some(m) by { ParseIntDigits(ms); }
    assert ParseInt(ds) == Some(d) by { ParseIntDigits(ds); }
    DatePartsOfParts(s, y, m, d);
  }

  /** Every valid date written as zero-padded components, with any
      characters in the two separator positions, parses back to itself. */
  lemma ParseFormatDate(d: Date, sep1: char, sep2: char)
    requires ValidDate(d)
    ensures ParseDate(Some(ZeroPad(d.year, 4) + [sep1] + ZeroPad(d.month, 2) + [sep2] + ZeroPad(d.day, 2))) == Day(d)
  {
    var s := ZeroPad(d.year, 4) + [sep1] + ZeroPad(d.month, 2) + [sep2] + ZeroPad(d.day, 2);
    DatePartsOfPadded(d.year, d.month, d.day, sep1, sep2);
    assert DateParts(s) == Some(d);
  }

  /** In particular `parse_date(d.isoformat()) == d` for every valid date. */
  lemma ParseIsoDate(d: Date)
    requires ValidDate(d)
    ensures ParseDate(Some(FormatDate(d))) == Day(d)
  {
    ParseFormatDate(d, '-', '-');
    assert FormatDate(d) == ZeroPad(d.year, 4) + ['-'] + ZeroPad(d.month, 2) + ['-'] + ZeroPad(d.day, 2);
  }

  lemma DigitsValueOfTwo(s: string)
    requires |s| == 2 && AllDigits(s)
    ensures DigitsValue(s) == 10 * DigitValue(s[0]) + DigitValue(s[1])
  {
    var p := s[..1];
    assert p[..0] == [] && p[0] == s[0];
    assert DigitsValue(p) == DigitValue(s[0]);
  }

  lemma DigitsValueOfFour(s: string)
    requires |s| == 4 && AllDigits(s)
    ensures DigitsValue(s) == 1000 * DigitValue(s[0]) + 100 * DigitValue(s[1]) + 10 * DigitValue(s[2]) + DigitValue(s[3])
  {
    assert s[..3][..2] == s[..2];
    DigitsValueOfTwo(s[..2]);
  }

  /** `int()` of four ASCII digits, read digit by digit. */
  lemma ParseIntFour(s: string)
    requires |s| == 4 && AllDigits(s)
    ensures ParseInt(s) == Some(1000 * DigitValue(s[0]) + 100 * DigitValue(s[1]) + 10 * DigitValue(s[2]) + DigitValue(s[3]))
  {
    ParseIntDigits(s);
    DigitsValueOfFour(s);
  }

  /** `int()` of two ASCII digits, read digit by digit. */
  lemma ParseIntTwo(s: string)
    requires |s| == 2 && AllDigits(s)
    ensures ParseInt(s) == Some(10 * DigitValue(s[0]) + DigitValue(s[1]))
  {
    ParseIntDigits(s);
    DigitsValueOfTwo(s);
  }

  /** A leap day parses to a date. */
  lemma ParseDateLeapDay(s: string)
    requires s == "2020-02-29"
    ensures ParseDate(Some(s)) == Day(Date(2020, 2, 29))
  {
    var ys, ms, ds := s[0..4], s[5..7], s[8..10];
    assert ys == "2020" && ms == "02" && ds == "29";
    assert AllDigits(ys) && AllDigits(ms) && AllDigits(ds);
    ParseIntFour(ys);
    assert ParseInt(ys) == Some(2020);
    ParseIntTwo(ms);
    assert ParseInt(ms) == Some(2);
    ParseIntTwo(ds);
    assert ParseInt(ds) == Some(29);
    DatePartsOfParts(s, 2020, 2, 29);
    assert ValidDate(Date(2020, 2, 29));
  }

  /** A date that does not exist comes back as the unchanged string. */
  lemma ParseDateImpossibleDay(s: string)
    requires s == "2020-02-30"
    ensures ParseDate(Some(s)) == Str(s)
  {
    var ys, ms, ds := s[0..4], s[5..7], s[8..10];
    assert ys == "2020" && ms == "02" && ds == "30";
    assert AllDigits(ys) && AllDigits(ms) && AllDigits(ds);
    ParseIntFour(ys);
    assert ParseInt(ys) == Some(2020);
    ParseIntTwo(ms);
    assert ParseInt(ms) == Some(2);
    ParseIntTwo(ds);
    assert ParseInt(ds) == Some(30);
    DatePartsOfParts(s, 2020, 2, 30);
    assert !ValidDate(Date(2020, 2, 30));
  }

  /** `int()` of a space followed by one ASCII digit. */
  lemma ParseIntSpaceDigit(s: string)
    requires |s| == 2 && IsPySpace(s[0]) && IsDigit(s[1])
    ensures ParseInt(s) == Some(DigitValue(s[1]))
  {
    assert StripLeft(s[1..]) == s[1..];
    assert StripLeft(s) == s[1..];
    assert s[1..][..0] == [];
    ParseIntDigits(s[1..]);
  }

  /** `int()`'s leniency carries over: spaces inside the components are
      accepted, and the separators need not be dashes. */
  lemma ParseDateLenient(s: string)
    requires s == "2020/ 2/ 9"
    ensures ParseDate(Some(s)) == Day(Date(2020, 2, 9))
  {
    var ys, ms, ds := s[0..4], s[5..7], s[8..10];
    assert ys == "2020" && ms == " 2" && ds == " 9";
    ParseIntFour(ys);
    assert ParseInt(ys) == Some(2020);
    ParseIntSpaceDigit(ms);
    assert ParseInt(ms) == Some(2);
    ParseIntSpaceDigit(ds);
    assert ParseInt(ds) == Some(9);
    DatePartsOfParts(s, 2020, 2, 9);
    assert ValidDate(Date(2020, 2, 9));
  }

  /** A file separator in the month slice makes `int()` raise, so the
      string comes back unchanged although `str.isspace()` holds for it. */
  lemma ParseDateFileSeparator(s: string)
    requires s == "2020-\U{1C}2-09"
    ensures ParseDate(Some(s)) == Str(s)
  {
    assert s[5..7] == "\U{1C}2";
    ParseIntFileSeparator(s[5..7]);
  }
}
