/** Days of the proleptic Gregorian calendar. */
module Calendar {
  import opened Arithmetic

  datatype Date = Date(year: nat, month: nat, day: nat)

  predicate IsLeap(year: nat) {
    year % 4 == 0 && (year % 100 != 0 || year % 400 == 0)
  }

  function YearLength(year: nat): nat {
    if IsLeap(year) then 366 else 365
  }

  function MonthLength(year: nat, month: nat): nat {
    if month == 2 then (if IsLeap(year) then 29 else 28)
    else if month == 4 || month == 6 || month == 9 || month == 11 then 30
    else 31
  }

  predicate IsDate(d: Date) {
    1 <= d.month <= 12 && 1 <= d.day <= MonthLength(d.year, d.month)
  }

  function DaysBeforeYear(year: nat): nat {
    if year == 0 then 0 else DaysBeforeYear(year - 1) + YearLength(year - 1)
  }

  function DaysBeforeMonth(year: nat, month: nat): nat {
    if month <= 1 then 0 else DaysBeforeMonth(year, month - 1) + MonthLength(year, month - 1)
  }

  /** Days since the first of January 1970. */
  function DayNumber(d: Date): int {
    DaysBeforeYear(d.year) + DaysBeforeMonth(d.year, d.month) + d.day - 1 - DaysBeforeYear(1970)
  }

  function NextDay(d: Date): Date {
    if d.day < MonthLength(d.year, d.month) then d.(day := d.day + 1)
    else if d.month < 12 then Date(d.year, d.month + 1, 1)
    else Date(d.year + 1, 1, 1)
  }

  predicate Before(a: Date, b: Date) {
    || a.year < b.year
    || (a.year == b.year && (a.month < b.month || (a.month == b.month && a.day < b.day)))
  }

  // ---- Laws ------------------------------------------------------------------------------

  lemma {:induction false} ClosedForm(year: nat)
    ensures DaysBeforeYear(year) == 365 * year + (year + 3) / 4 - (year + 99) / 100 + (year + 399) / 400
    decreases year
  {
    if year > 0 {
      ClosedForm(year - 1);
      OneMore(year - 1, 4);
      OneMore(year - 1, 100);
      OneMore(year - 1, 400);
      Nested(year - 1);
    }
  }

  lemma OneMore(n: nat, d: nat)
    requires d == 4 || d == 100 || d == 400
    ensures (n + d) / d == (n + d - 1) / d + if n % d == 0 then 1 else 0
  {
  }

  lemma Nested(n: nat)
    ensures n % 400 == 0 ==> n % 100 == 0
    ensures n % 100 == 0 ==> n % 4 == 0
  {
    if n % 400 == 0 {
      QuotientIs(n, 100, n / 400 * 4, 0);
    }
    if n % 100 == 0 {
      QuotientIs(n, 4, n / 100 * 25, 0);
    }
  }

  lemma YearIsItsMonths(year: nat)
    ensures DaysBeforeMonth(year, 13) == YearLength(year)
  {
    assert DaysBeforeMonth(year, 2) == 31;
    assert DaysBeforeMonth(year, 4) == DaysBeforeMonth(year, 2) + MonthLength(year, 2) + 31;
    assert DaysBeforeMonth(year, 6) == DaysBeforeMonth(year, 4) + 61;
    assert DaysBeforeMonth(year, 8) == DaysBeforeMonth(year, 6) + 61;
    assert DaysBeforeMonth(year, 10) == DaysBeforeMonth(year, 8) + 61;
    assert DaysBeforeMonth(year, 12) == DaysBeforeMonth(year, 10) + 61;
  }

  /** Where each month begins: thirty days have April, June, September and November. */
  lemma MonthStarts(year: nat)
    ensures var leap := if year % 400 == 0 || (year % 4 == 0 && year % 100 != 0) then 1 else 0;
      && DaysBeforeMonth(year, 1) == 0 && DaysBeforeMonth(year, 2) == 31 && DaysBeforeMonth(year, 3) == 59 + leap
      && DaysBeforeMonth(year, 4) == 90 + leap && DaysBeforeMonth(year, 5) == 120 + leap
      && DaysBeforeMonth(year, 6) == 151 + leap && DaysBeforeMonth(year, 7) == 181 + leap
      && DaysBeforeMonth(year, 8) == 212 + leap && DaysBeforeMonth(year, 9) == 243 + leap
      && DaysBeforeMonth(year, 10) == 273 + leap && DaysBeforeMonth(year, 11) == 304 + leap
      && DaysBeforeMonth(year, 12) == 334 + leap && DaysBeforeMonth(year, 13) == 365 + leap
  {
    YearIsItsMonths(year);
    assert year % 400 == 0 ==> year % 4 == 0 by {
      Nested(year);
    }
  }

  /** Consecutive dates are a day apart, over month and year ends, from the epoch on either
      side. */
  lemma {:induction false} NextDayIsOneLater(d: Date)
    requires IsDate(d)
    ensures IsDate(NextDay(d)) && DayNumber(NextDay(d)) == DayNumber(d) + 1
    ensures DayNumber(Date(1970, 1, 1)) == 0
  {
    hide DaysBeforeYear, DaysBeforeMonth, MonthLength, YearLength;
    MonthsHaveDays(d.year, d.month + 1);
    MonthsHaveDays(d.year + 1, 1);
    NextCount(d.year, d.month);
  }

  lemma NextCount(year: nat, month: nat)
    requires 1 <= month <= 12
    ensures DaysBeforeMonth(year, month + 1) == DaysBeforeMonth(year, month) + MonthLength(year, month)
    ensures DaysBeforeYear(year + 1) == DaysBeforeYear(year) + DaysBeforeMonth(year, 13)
    ensures DaysBeforeMonth(year, 1) == DaysBeforeMonth(1970, 1) == DaysBeforeMonth(year + 1, 1) == 0
  {
    YearIsItsMonths(year);
    hide MonthLength, YearLength;
  }

  /** A date is a day of one of the twelve months, each as long as the next one begins later. */
  lemma DatesFillMonths(d: Date)
    ensures IsDate(d) <==>
      && (d.month == 1 || d.month == 2 || d.month == 3 || d.month == 4 || d.month == 5 || d.month == 6 || d.month == 7
          || d.month == 8 || d.month == 9 || d.month == 10 || d.month == 11 || d.month == 12)
      && 1 <= d.day <= DaysBeforeMonth(d.year, d.month + 1) - DaysBeforeMonth(d.year, d.month)
  {
    hide MonthLength;
  }

  lemma MonthsHaveDays(year: nat, month: nat)
    ensures MonthLength(year, month) >= 28
  {
  }

  lemma {:induction false} MonthsInOrder(year: nat, m: nat, n: nat)
    requires 1 <= m < n <= 13
    ensures DaysBeforeMonth(year, m) + MonthLength(year, m) <= DaysBeforeMonth(year, n)
    decreases n
  {
    if m + 1 < n {
      MonthsInOrder(year, m, n - 1);
    }
  }

  lemma {:induction false} YearsInOrder(y: nat, z: nat)
    requires y < z
    ensures DaysBeforeYear(y) + YearLength(y) <= DaysBeforeYear(z)
    decreases z
  {
    if y + 1 < z {
      YearsInOrder(y, z - 1);
    }
  }

  /** The calendar's order is the order of the day numbers. */
  lemma DaysInOrder(a: Date, b: Date)
    requires IsDate(a) && IsDate(b)
    ensures Before(a, b) <==> DayNumber(a) < DayNumber(b)
  {
    LaterDate(a, b);
    LaterDate(b, a);
  }

  lemma LaterDate(a: Date, b: Date)
    requires IsDate(a) && IsDate(b)
    ensures Before(a, b) ==> DayNumber(a) < DayNumber(b)
  {
    hide DaysBeforeYear, DaysBeforeMonth, MonthLength, YearLength;
    WithinYear(a);
    if a.year < b.year {
      YearsInOrder(a.year, b.year);
    } else if a.year == b.year && a.month < b.month {
      MonthsInOrder(a.year, a.month, b.month);
    }
  }

  lemma WithinYear(d: Date)
    requires IsDate(d)
    ensures DaysBeforeMonth(d.year, d.month) + d.day <= YearLength(d.year)
  {
    YearIsItsMonths(d.year);
    MonthsInOrder(d.year, d.month, 13);
  }
}
