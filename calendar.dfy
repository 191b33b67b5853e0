/**
 * Naive date-times on the proleptic Gregorian calendar, as Python's
 * `datetime.datetime` without `tzinfo`: validity, the ordering Python's `>`
 * uses, and exact integer Unix-epoch arithmetic (days from 0001-01-01).
 */
module Calendar {

  datatype DateTime = DateTime(year: int, month: int, day: int,
                               hour: int, minute: int, second: int, microsecond: int)

  const MinYear := 1
  const MaxYear := 9999
  /** The ordinal (day 1 = 0001-01-01) of 1970-01-01. */
  const UnixEpochOrdinal := 719163

  predicate IsLeapYear(y: int) { y % 4 == 0 && (y % 100 != 0 || y % 400 == 0) }

  function DaysInYear(y: int): int { if IsLeapYear(y) then 366 else 365 }

  function DaysInMonth(y: int, m: int): (n: int)
    requires 1 <= m <= 12
    ensures 28 <= n <= 31
  {
    if m == 2 then (if IsLeapYear(y) then 29 else 28)
    else if m == 4 || m == 6 || m == 9 || m == 11 then 30
    else 31
  }

  predicate IsValidDate(y: int, m: int, d: int) {
    MinYear <= y <= MaxYear && 1 <= m <= 12 && 1 <= d <= DaysInMonth(y, m)
  }

  /** Every field in the range Python's `datetime` constructor accepts. */
  predicate IsValid(t: DateTime) {
    IsValidDate(t.year, t.month, t.day) &&
    0 <= t.hour < 24 && 0 <= t.minute < 60 && 0 <= t.second < 60 &&
    0 <= t.microsecond < 1000000
  }

  /** `a < b` on naive datetimes: field by field, most significant first. */
  predicate Before(a: DateTime, b: DateTime) {
    a.year < b.year || (a.year == b.year &&
    (a.month < b.month || (a.month == b.month &&
    (a.day < b.day || (a.day == b.day &&
    (a.hour < b.hour || (a.hour == b.hour &&
    (a.minute < b.minute || (a.minute == b.minute &&
    (a.second < b.second || (a.second == b.second &&
    a.microsecond < b.microsecond)))))))))))
  }

  /** Every fourth year is a leap year, except centuries not divisible by 400. */
  lemma LeapYearExamples()
    ensures IsLeapYear(2024) && IsLeapYear(2000)
    ensures !IsLeapYear(2023) && !IsLeapYear(1900)
  {
  }

  /** Days in the years before `y`. */
  function DaysBeforeYear(y: int): int
    requires y >= 1
  {
    var p := y - 1;
    365 * p + p / 4 - p / 100 + p / 400
  }

  /** Days in year `y` before the first of month `m` (13 stands for the next January). */
  function DaysBeforeMonth(y: int, m: int): int
    requires 1 <= m <= 13
  {
    if m == 1 then 0 else DaysBeforeMonth(y, m - 1) + DaysInMonth(y, m - 1)
  }

  /** The proleptic Gregorian ordinal of a date, `date.toordinal()`. */
  function Ordinal(y: int, m: int, d: int): int
    requires IsValidDate(y, m, d)
  {
    DaysBeforeYear(y) + DaysBeforeMonth(y, m) + d
  }

  /** Whole seconds from 1970-01-01 00:00:00 to `t`, with `t` read as UTC. */
  function EpochSeconds(t: DateTime): int
    requires IsValid(t)
  {
    (Ordinal(t.year, t.month, t.day) - UnixEpochOrdinal) * 86400
      + t.hour * 3600 + t.minute * 60 + t.second
  }

  /** The position of `t` on the time line, in microseconds from the epoch. */
  function Instant(t: DateTime): int
    requires IsValid(t)
  {
    EpochSeconds(t) * 1000000 + t.microsecond
  }

  lemma DaysBeforeYearStep(y: int)
    requires y >= 1
    ensures DaysBeforeYear(y + 1) == DaysBeforeYear(y) + DaysInYear(y)
  {
    assert y / 4 - (y - 1) / 4 == if y % 4 == 0 then 1 else 0;
    assert y / 100 - (y - 1) / 100 == if y % 100 == 0 then 1 else 0;
    assert y / 400 - (y - 1) / 400 == if y % 400 == 0 then 1 else 0;
  }

  /** A whole year `y` fits before the start of any later year. */
  lemma {:induction false} DaysBeforeYearMonotone(y: int, z: int)
    requires 1 <= y < z
    ensures DaysBeforeYear(y) + DaysInYear(y) <= DaysBeforeYear(z)
  {
    DaysBeforeYearStep(z - 1);
    if y < z - 1 {
      DaysBeforeYearMonotone(y, z - 1);
    }
  }

  /** The twelve months fill the year exactly. */
  lemma MonthsFillYear(y: int)
    ensures DaysBeforeMonth(y, 13) == DaysInYear(y)
  {
    assert DaysBeforeMonth(y, 2) == 31;
    assert DaysBeforeMonth(y, 3) == 31 + DaysInMonth(y, 2);
    assert DaysBeforeMonth(y, 4) == 62 + DaysInMonth(y, 2);
    assert DaysBeforeMonth(y, 5) == 92 + DaysInMonth(y, 2);
    assert DaysBeforeMonth(y, 6) == 123 + DaysInMonth(y, 2);
    assert DaysBeforeMonth(y, 7) == 153 + DaysInMonth(y, 2);
    assert DaysBeforeMonth(y, 8) == 184 + DaysInMonth(y, 2);
    assert DaysBeforeMonth(y, 9) == 215 + DaysInMonth(y, 2);
    assert DaysBeforeMonth(y, 10) == 245 + DaysInMonth(y, 2);
    assert DaysBeforeMonth(y, 11) == 276 + DaysInMonth(y, 2);
    assert DaysBeforeMonth(y, 12) == 306 + DaysInMonth(y, 2);
  }

  /** A whole month `m` fits before the start of any later month of the same year. */
  lemma {:induction false} DaysBeforeMonthMonotone(y: int, m: int, n: int)
    requires 1 <= m < n <= 13
    ensures DaysBeforeMonth(y, m) + DaysInMonth(y, m) <= DaysBeforeMonth(y, n)
  {
    if m < n - 1 {
      DaysBeforeMonthMonotone(y, m, n - 1);
    }
  }

  lemma {:induction false} DaysBeforeMonthNonNegative(y: int, m: int)
    requires 1 <= m <= 13
    ensures DaysBeforeMonth(y, m) >= 0
  {
    if m > 1 {
      DaysBeforeMonthNonNegative(y, m - 1);
    }
  }

  /** The ordinal is strictly increasing in (year, month, day) taken lexicographically. */
  lemma OrdinalMonotone(y: int, m: int, d: int, y2: int, m2: int, d2: int)
    requires IsValidDate(y, m, d) && IsValidDate(y2, m2, d2)
    requires y < y2 || (y == y2 && (m < m2 || (m == m2 && d < d2)))
    ensures Ordinal(y, m, d) < Ordinal(y2, m2, d2)
  {
    if y < y2 {
      DaysBeforeMonthMonotone(y, m, 13);
      MonthsFillYear(y);
      DaysBeforeYearMonotone(y, y2);
      DaysBeforeMonthNonNegative(y2, m2);
    } else if m < m2 {
      DaysBeforeMonthMonotone(y, m, m2);
    }
  }

  /** Python's ordering of naive datetimes is the order of their instants. */
  lemma BeforeIsEarlier(a: DateTime, b: DateTime)
    requires IsValid(a) && IsValid(b)
    ensures Before(a, b) <==> Instant(a) < Instant(b)
  {
    if Before(a, b) {
      EarlierInstant(a, b);
    } else if a != b {
      EarlierInstant(b, a);
    }
  }

  lemma EarlierInstant(a: DateTime, b: DateTime)
    requires IsValid(a) && IsValid(b) && Before(a, b)
    ensures Instant(a) < Instant(b)
  {
    var (y, m, d) := (a.year, a.month, a.day);
    var (y2, m2, d2) := (b.year, b.month, b.day);
    if y < y2 || (y == y2 && (m < m2 || (m == m2 && d < d2))) {
      OrdinalMonotone(y, m, d, y2, m2, d2);
    }
  }

  /** 1970-01-01 00:00:00 is second 0 of the epoch. */
  lemma UnixEpochIsZero()
    ensures EpochSeconds(DateTime(1970, 1, 1, 0, 0, 0, 0)) == 0
  {
  }

  /** A timestamp without seconds lies on a whole minute of the epoch. */
  lemma WholeMinute(t: DateTime)
    requires IsValid(t) && t.second == 0
    ensures EpochSeconds(t) % 60 == 0
  {
    var minutes := (Ordinal(t.year, t.month, t.day) - UnixEpochOrdinal) * 1440 + t.hour * 60 + t.minute;
    assert EpochSeconds(t) == 60 * minutes;
  }

  /** At whole-second precision, later datetimes have strictly larger epoch seconds. */
  lemma EpochSecondsIncreasing(a: DateTime, b: DateTime)
    requires IsValid(a) && IsValid(b) && a.microsecond == 0 && b.microsecond == 0
    requires Before(a, b)
    ensures EpochSeconds(a) < EpochSeconds(b)
  {
    BeforeIsEarlier(a, b);
  }

  /** At whole-second precision, equal epoch seconds mean equal datetimes. */
  lemma EpochSecondsInjective(a: DateTime, b: DateTime)
    requires IsValid(a) && IsValid(b) && a.microsecond == 0 && b.microsecond == 0
    requires EpochSeconds(a) == EpochSeconds(b)
    ensures a == b
  {
    BeforeIsEarlier(a, b);
    BeforeIsEarlier(b, a);
  }
}
