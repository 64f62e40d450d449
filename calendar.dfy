/** Calendar dates as java.time.LocalDate represents them for comparison and
    day arithmetic: a count of days since 1970-01-01 in the proleptic
    Gregorian calendar (LocalDate.toEpochDay). isAfter is `>` on that count,
    ChronoUnit.DAYS.between is subtraction and plusDays is addition. */
module Calendar {

  type Day = int

  predicate IsLeapYear(y: int)
  {
    y % 4 == 0 && (y % 100 != 0 || y % 400 == 0)
  }

  function DaysInMonth(y: int, m: int): int
    requires 1 <= m <= 12
  {
    if m == 2 then (if IsLeapYear(y) then 29 else 28)
    else if m == 4 || m == 6 || m == 9 || m == 11 then 30
    else 31
  }

  predicate IsValidDate(y: int, m: int, d: int)
  {
    1 <= m <= 12 && 1 <= d <= DaysInMonth(y, m)
  }

  /** Days since 1970-01-01 of the date y-m-d, counting March-based years so
      that the leap day falls at the end of a year. */
  function EpochDay(y: int, m: int, d: int): Day
    requires 1 <= m <= 12
  {
    var mp := if m > 2 then m - 3 else m + 9;
    var doy := (153 * mp + 2) / 5 + d - 1;
    DaysBeforeMarch(if m <= 2 then y - 1 else y) + doy - 719468
  }

  /** The calendar day after a valid date. */
  function NextDate(y: int, m: int, d: int): (r: (int, int, int))
    requires IsValidDate(y, m, d)
    ensures IsValidDate(r.0, r.1, r.2)
  {
    if d < DaysInMonth(y, m) then (y, m, d + 1)
    else if m < 12 then (y, m + 1, 1)
    else (y + 1, 1, 1)
  }

  /** Consecutive calendar days have consecutive day numbers, across month
      ends, February in leap and common years, and year ends. */
  lemma NextDateIsNextDay(y: int, m: int, d: int)
    requires IsValidDate(y, m, d)
    ensures var n := NextDate(y, m, d); EpochDay(n.0, n.1, n.2) == EpochDay(y, m, d) + 1
  {
    if d < DaysInMonth(y, m) {
    } else if m == 2 {
      EndOfFebruary(y);
    } else {
      MonthEnd(y, m);
    }
  }

  /** The days of the March-based year before the first of each month. */
  lemma MonthOffsets()
    ensures (153 * 0 + 2) / 5 == 0 && (153 * 1 + 2) / 5 == 31 && (153 * 2 + 2) / 5 == 61
    ensures (153 * 3 + 2) / 5 == 92 && (153 * 4 + 2) / 5 == 122 && (153 * 5 + 2) / 5 == 153
    ensures (153 * 6 + 2) / 5 == 184 && (153 * 7 + 2) / 5 == 214 && (153 * 8 + 2) / 5 == 245
    ensures (153 * 9 + 2) / 5 == 275 && (153 * 10 + 2) / 5 == 306 && (153 * 11 + 2) / 5 == 337
  {
  }

  /** The day after the last of a month other than February is the first of
      the next month, or of January of the next year. */
  lemma MonthEnd(y: int, m: int)
    requires 1 <= m <= 12 && m != 2
    ensures var n := NextDate(y, m, DaysInMonth(y, m)); EpochDay(n.0, n.1, n.2) == EpochDay(y, m, DaysInMonth(y, m)) + 1
  {
    MonthOffsets();
  }

  /** Days from 0000-03-01 to March 1 of year y: 365 a year, plus a leap day
      for every fourth March-based year, less the centuries not divisible by
      400 (`/` rounds down for a positive divisor). */
  function DaysBeforeMarch(y: int): int
  {
    365 * y + y / 4 - y / 100 + y / 400
  }

  /** Going from y - 1 to y, y / 4 grows by one exactly when 4 divides y;
      likewise for 100 and 400. */
  lemma DivStep4(y: int)
    ensures y / 4 - (y - 1) / 4 == if y % 4 == 0 then 1 else 0
  {
  }

  lemma DivStep100(y: int)
    ensures y / 100 - (y - 1) / 100 == if y % 100 == 0 then 1 else 0
  {
  }

  lemma DivStep400(y: int)
    ensures y / 400 - (y - 1) / 400 == if y % 400 == 0 then 1 else 0
  {
  }

  /** A multiple of 400 is a multiple of 100. */
  lemma MultipleOf400(y: int)
    requires y % 400 == 0
    ensures y % 100 == 0
  {
    var k := 4 * (y / 400);
    assert y == 100 * k;
  }

  /** A multiple of 100 is a multiple of 4. */
  lemma MultipleOf100(y: int)
    requires y % 100 == 0
    ensures y % 4 == 0
  {
    var k := 25 * (y / 100);
    assert y == 4 * k;
  }

  /** A March-based year that ends in February of year y is 366 days long
      exactly when y is a leap year. */
  lemma MarchYearLength(y: int)
    ensures DaysBeforeMarch(y) - DaysBeforeMarch(y - 1) == if IsLeapYear(y) then 366 else 365
  {
    DivStep4(y);
    DivStep100(y);
    DivStep400(y);
    if y % 400 == 0 {
      MultipleOf400(y);
    }
    if y % 100 == 0 {
      MultipleOf100(y);
    }
  }

  lemma EndOfFebruary(y: int)
    ensures EpochDay(y, 3, 1) == EpochDay(y, 2, DaysInMonth(y, 2)) + 1
  {
    MarchYearLength(y);
  }

  /** The date a day-month-year text denotes once java.time's default (smart)
      resolution has moved a day past the end of its month back to the last
      day of that month. */
  function ResolvedDay(y: int, m: int, d: int): (r: Day)
    requires 1 <= m <= 12 && 1 <= d
    ensures IsValidDate(y, m, d) ==> r == EpochDay(y, m, d)
    ensures !IsValidDate(y, m, d) ==> r == EpochDay(y, m, DaysInMonth(y, m))
  {
    EpochDay(y, m, if d <= DaysInMonth(y, m) then d else DaysInMonth(y, m))
  }

  function DaysBetween(from: Day, to: Day): int
  {
    to - from
  }
}
