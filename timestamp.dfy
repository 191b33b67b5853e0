/**
 * The draw timestamp cell, `strptime(cell, "%d.%m.%Y %H:%M")`, over the
 * canonical ASCII grammar: two-digit day, month, hour and minute, a
 * four-digit year, '.' ':' and one space as literal separators, nothing
 * after the minutes, and a date-time that exists in the calendar.
 */
module Timestamp {
  import opened Wrappers
  import opened Decimal
  import opened Calendar

  /** Length of "DD.MM.YYYY HH:MM". */
  const Width := 16

  /** The fixed punctuation and digit positions of "DD.MM.YYYY HH:MM". */
  predicate HasShape(s: string) {
    |s| == Width &&
    s[2] == '.' && s[5] == '.' && s[10] == ' ' && s[13] == ':' &&
    AllDigits(s[0..2]) && AllDigits(s[3..5]) && AllDigits(s[6..10]) &&
    AllDigits(s[11..13]) && AllDigits(s[14..16])
  }

  /** The datetime a well-shaped string spells, before any calendar check. */
  function Fields(s: string): DateTime
    requires HasShape(s)
  {
    DateTime(Value(s[6..10]), Value(s[3..5]), Value(s[0..2]),
             Value(s[11..13]), Value(s[14..16]), 0, 0)
  }

  /** The result of the parse, or None where `strptime` raises. */
  function Parse(s: string): Option<DateTime>
  {
    if HasShape(s) && IsValid(Fields(s)) then Some(Fields(s)) else None
  }

  /** A datetime the format can express: valid, with no seconds. */
  predicate IsMinute(t: DateTime) {
    IsValid(t) && t.second == 0 && t.microsecond == 0
  }

  /** Fields that fit the format's widths, whether or not they form a real date-time. */
  predicate Fits(t: DateTime) {
    0 <= t.day < 100 && 0 <= t.month < 100 && 0 <= t.year < 10000 &&
    0 <= t.hour < 100 && 0 <= t.minute < 100 && t.second == 0 && t.microsecond == 0
  }

  /** `t.strftime("%d.%m.%Y %H:%M")`, extended to any fields that fit the widths. */
  function Format(t: DateTime): (s: string)
    requires Fits(t)
    ensures HasShape(s)
  {
    var s := Pad(t.day, 2) + "." + Pad(t.month, 2) + "." + Pad(t.year, 4) + " " +
             Pad(t.hour, 2) + ":" + Pad(t.minute, 2);
    assert s[0..2] == Pad(t.day, 2) && s[3..5] == Pad(t.month, 2) &&
           s[6..10] == Pad(t.year, 4) && s[11..13] == Pad(t.hour, 2) &&
           s[14..16] == Pad(t.minute, 2);
    s
  }

  /** Where each field sits in the rendering. */
  lemma FormatGroups(t: DateTime)
    requires Fits(t)
    ensures var s := Format(t);
            s[0..2] == Pad(t.day, 2) && s[3..5] == Pad(t.month, 2) &&
            s[6..10] == Pad(t.year, 4) && s[11..13] == Pad(t.hour, 2) &&
            s[14..16] == Pad(t.minute, 2)
  {
  }

  /** Whatever the parser accepts is a whole-minute, valid datetime. */
  lemma ParsedIsMinute(s: string)
    requires Parse(s).Some?
    ensures IsMinute(Parse(s).value)
  {
  }

  /**
   * A rendering is accepted exactly when its fields form a real date-time,
   * and then it is read back as that date-time.
   */
  lemma ParseFormat(t: DateTime)
    requires Fits(t)
    ensures Parse(Format(t)) == if IsValid(t) then Some(t) else None
  {
    var s := Format(t);
    ValueOfPad(t.day, 2);
    ValueOfPad(t.month, 2);
    ValueOfPad(t.year, 4);
    ValueOfPad(t.hour, 2);
    ValueOfPad(t.minute, 2);
    FormatGroups(t);
    assert Fields(s) == t;
  }

  /** Every well-shaped string is the rendering of the fields it spells. */
  lemma FormatFields(s: string)
    requires HasShape(s)
    ensures Fits(Fields(s)) && Format(Fields(s)) == s
  {
    PadOfValue(s[0..2]);
    PadOfValue(s[3..5]);
    PadOfValue(s[6..10]);
    PadOfValue(s[11..13]);
    PadOfValue(s[14..16]);
    ValueBound(s[0..2]);
    ValueBound(s[3..5]);
    ValueBound(s[6..10]);
    ValueBound(s[11..13]);
    ValueBound(s[14..16]);
    FormatGroups(Fields(s));
    SameFieldsSameString(Format(Fields(s)), s);
  }

  /** Two well-shaped strings with the same digit groups are equal. */
  lemma SameFieldsSameString(f: string, s: string)
    requires HasShape(f) && HasShape(s)
    requires f[0..2] == s[0..2] && f[3..5] == s[3..5] && f[6..10] == s[6..10]
    requires f[11..13] == s[11..13] && f[14..16] == s[14..16]
    ensures f == s
  {
    forall i | 0 <= i < Width ensures f[i] == s[i] {
      if i < 2 { assert f[i] == f[0..2][i]; }
      else if 2 < i < 5 { assert f[i] == f[3..5][i - 3]; }
      else if 5 < i < 10 { assert f[i] == f[6..10][i - 6]; }
      else if 10 < i < 13 { assert f[i] == f[11..13][i - 11]; }
      else if 13 < i { assert f[i] == f[14..16][i - 14]; }
    }
  }

  /** Only the canonical rendering of a datetime is accepted. */
  lemma FormatParse(s: string)
    requires Parse(s).Some?
    ensures Format(Parse(s).value) == s
  {
    FormatFields(s);
  }

  /**
   * Impossible calendar dates and out-of-range fields are rejected: a 30th or
   * 31st of February, a 29th of February outside a leap year, hour 24 or more,
   * minute 60 or more, a day or month 0, a month past 12, the year 0000.
   */
  lemma ImpossibleRejected(t: DateTime)
    requires Fits(t)
    requires (t.month == 2 && (t.day > 29 || (t.day == 29 && !IsLeapYear(t.year)))) ||
             t.hour > 23 || t.minute > 59 || t.day == 0 || t.month == 0 || t.month > 12 ||
             t.year == 0
    ensures Parse(Format(t)) == None
  {
    ParseFormat(t);
  }

  /** Every real date-time that fits the widths, leap days included, is accepted. */
  lemma LeapDayAccepted(t: DateTime)
    requires Fits(t) && t.year >= 1 && t.month == 2 && t.day == 29 && IsLeapYear(t.year)
    requires t.hour < 24 && t.minute < 60
    ensures Parse(Format(t)) == Some(t)
  {
    ParseFormat(t);
  }

  /** Nothing may follow the minutes: text after an accepted timestamp makes it unparsable. */
  lemma TrailingTextRejected(s: string, suffix: string)
    requires Parse(s).Some? && suffix != []
    ensures Parse(s + suffix) == None
  {
  }

  /** The archive's own format is read field by field, with leading zeros. */
  lemma AcceptedExample()
    ensures Parse("15.05.2024 14:05") == Some(DateTime(2024, 5, 15, 14, 5, 0, 0))
  {
    var s := "15.05.2024 14:05";
    assert s[0..2] == "15" && s[3..5] == "05" && s[6..10] == "2024" &&
           s[11..13] == "14" && s[14..16] == "05";
    assert Value("15") == 15;
    assert Value("05") == 5;
    assert Value("14") == 14;
    assert Value("2024") == 2024 by {
      assert Pad(2024, 4) == "2024";
      ValueOfPad(2024, 4);
    }
  }
}
