/** The date conversion of `timestampFromDateTime` against a leap-year day count. */
module Calendar {
  import opened Basics

  /** Solidity's signed division truncates toward zero. */
  function TruncDiv(a: int, b: int): int
    requires b > 0
  {
    if a >= 0 then a / b else -((-a) / b)
  }

  /** The Julian-day formula, shifted so that 1970-01-01 is day 0. */
  function DayNumber(year: int, month: int, day: int): int {
    var a := TruncDiv(month - 14, 12);
    day - 32075 + TruncDiv(1461 * (year + 4800 + a), 4)
    + TruncDiv(367 * (month - 2 - a * 12), 12)
    - TruncDiv(3 * TruncDiv(year + 4900 + a, 100), 4)
    - 2440588
  }

  /** A negative day number would become a huge uint256 and overflow the multiplication by 24. */
  function TimestampFromDateTime(year: nat, month: nat, day: nat, hour: nat, minute: nat, second: nat): Result<nat> {
    var days := DayNumber(year, month, day);
    :- Require(year >= 1970);
    :- Require(1 <= month <= 12);
    :- Require(1 <= day <= 31);
    :- Require(hour <= 23);
    :- Require(minute <= 59);
    :- Require(second <= 59);
    if days < 0 then Revert else Ok(((days * 24 + hour) * 60 + minute) * 60 + second)
  }

  // ---------------------------------------------------------------- the Gregorian calendar

  predicate Leap(year: nat) { year % 4 == 0 && (year % 100 != 0 || year % 400 == 0) }

  function YearDays(year: nat): nat { if Leap(year) then 366 else 365 }

  function MonthDays(year: nat, month: nat): nat {
    if month == 2 then (if Leap(year) then 29 else 28)
    else if month == 4 || month == 6 || month == 9 || month == 11 then 30
    else 31
  }

  function DaysBeforeYear(year: nat): nat
    requires year >= 1970
  {
    if year == 1970 then 0 else DaysBeforeYear(year - 1) + YearDays(year - 1)
  }

  function DaysBeforeMonth(year: nat, month: nat): nat
    requires month >= 1
  {
    if month == 1 then 0 else DaysBeforeMonth(year, month - 1) + MonthDays(year, month - 1)
  }

  datatype DateTime = DateTime(year: nat, month: nat, day: nat, hour: nat, minute: nat, second: nat) {
    /** A date and time of day that exist (no leap seconds). */
    predicate InCalendar() {
      && 1 <= month <= 12 && 1 <= day <= MonthDays(year, month)
      && hour <= 23 && minute <= 59 && second <= 59
    }

    predicate Real() { year >= 1970 && InCalendar() }

    /** What two digits each (four for the year) can write, whether it exists or not. */
    predicate Written() { year < 10000 && month < 100 && day < 100 && hour < 100 && minute < 100 && second < 100 }

    /** The contract's own range checks, which let 31 days pass for every month. */
    predicate InChecks() {
      year >= 1970 && 1 <= month <= 12 && 1 <= day <= 31 && hour <= 23 && minute <= 59 && second <= 59
    }

    /** Days past the end of the month count on into the next one. */
    function Rolled(): (t: DateTime)
      requires InChecks()
      ensures t.Real() && (t == this <==> Real())
    {
      if day <= MonthDays(year, month) then this
      else DateTime(year, month + 1, day - MonthDays(year, month), hour, minute, second)
    }

    /** What the contract makes of a written date. */
    function Read(): Result<nat> {
      if InChecks() then Ok(Rolled().UnixSeconds()) else Revert
    }

    function Days(): nat
      requires Real()
    {
      DaysBeforeYear(year) + DaysBeforeMonth(year, month) + day - 1
    }

    function SecondOfDay(): nat { hour * 3600 + minute * 60 + second }

    function UnixSeconds(): nat
      requires Real()
    {
      86400 * Days() + SecondOfDay()
    }

    /** Earlier in the order of the calendar. */
    predicate Before(that: DateTime) {
      year < that.year || (year == that.year && (month < that.month || (month == that.month &&
      (day < that.day || (day == that.day && (hour < that.hour || (hour == that.hour &&
      (minute < that.minute || (minute == that.minute && second < that.second)))))))))
    }
  }

  // ---------------------------------------------------------------- the formula is the count

  function LeapDays(year: nat): int { year / 4 - year / 100 + year / 400 }

  lemma LeapDaysStep(year: nat)
    requires year >= 1
    ensures LeapDays(year) == LeapDays(year - 1) + if Leap(year) then 1 else 0
  {
    Multiples(year, 4);
    Multiples(year, 100);
    Multiples(year, 400);
    MultipleOfMultiple(year, 100, 4);
    MultipleOfMultiple(year, 4, 25);
  }

  lemma MultipleOfMultiple(n: nat, k: nat, j: nat)
    requires k >= 1 && j >= 1
    ensures n % (k * j) == 0 ==> n % k == 0
  {
    if n % (k * j) == 0 {
      var q := n / (k * j);
      assert n == (k * j) * q == (q * j) * k;
      SplitNumber(q * j, 0, k);
    }
  }

  lemma Multiples(n: nat, k: nat)
    requires n >= 1 && k >= 1
    ensures n / k == (n - 1) / k + if n % k == 0 then 1 else 0
  {
    var q, r := n / k, n % k;
    assert n == q * k + r;
    if r > 0 {
      SplitNumber(q, r - 1, k);
    } else {
      assert n - 1 == (q - 1) * k + (k - 1);
      assert q >= 1;
      SplitNumber(q - 1, k - 1, k);
    }
  }

  lemma {:induction false} DaysBeforeYearClosed(year: nat)
    requires year >= 1970
    ensures DaysBeforeYear(year) == 365 * (year - 1970) + LeapDays(year - 1) - 477
  {
    if year == 1970 {
    } else {
      DaysBeforeYearClosed(year - 1);
      LeapDaysStep(year - 1);
    }
  }

  /** The year part of the formula counts 365 days a year and the leap days. */
  lemma YearPart(year: nat)
    ensures TruncDiv(1461 * (year + 4800), 4) - TruncDiv(3 * TruncDiv(year + 4900, 100), 4)
         == 365 * year + LeapDays(year) + 1753164
  {
    assert 1461 * (year + 4800) / 4 == 365 * (year + 4800) + (year + 4800) / 4;
    var c := year / 100;
    assert (year + 4900) / 100 == c + 49;
    assert year / 400 == c / 4;
    assert 3 * (c + 49) / 4 == c + 36 - c / 4;
  }

  lemma MonthTable(year: nat)
    ensures DaysBeforeMonth(year, 1) == 0 && DaysBeforeMonth(year, 2) == 31
    ensures forall m :: 3 <= m <= 12 ==>
      DaysBeforeMonth(year, m) == (if Leap(year) then 60 else 59) + [0, 31, 61, 92, 122, 153, 184, 214, 245, 275][m - 3]
  {
    assert DaysBeforeMonth(year, 4) == DaysBeforeMonth(year, 3) + 31;
    assert DaysBeforeMonth(year, 6) == DaysBeforeMonth(year, 5) + 31;
    assert DaysBeforeMonth(year, 8) == DaysBeforeMonth(year, 7) + 31;
    assert DaysBeforeMonth(year, 10) == DaysBeforeMonth(year, 9) + 30;
    assert DaysBeforeMonth(year, 12) == DaysBeforeMonth(year, 11) + 30;
  }

  /** The month part of the formula counts the days before the month, from March on. */
  lemma MonthPart(month: nat)
    requires 1 <= month <= 12
    ensures TruncDiv(month - 14, 12) == if month <= 2 then -1 else 0
    ensures month <= 2 ==> TruncDiv(367 * (month + 10), 12) == 336 + [0, 31][month - 1]
    ensures month >= 3 ==>
      TruncDiv(367 * (month - 2), 12) == 30 + [0, 31, 61, 92, 122, 153, 184, 214, 245, 275][month - 3]
  {}

  lemma DayNumberParts(year: nat, month: nat, day: int)
    requires year >= 1 && 1 <= month <= 12
    ensures DayNumber(year, month, day) == 365 * year + LeapDays(year - 1) + DaysBeforeMonth(year, month) + day - 719528
  {
    MonthPart(month);
    MonthTable(year);
    LeapDaysStep(year);
    var y := if month <= 2 then year - 1 else year;
    YearPart(y);
    assert DayNumber(year, month, day) == day - 32075 + (365 * y + LeapDays(y) + 1753164)
      + TruncDiv(367 * (if month <= 2 then month + 10 else month - 2), 12) - 2440588;
  }

  /**
   The Julian-day formula, with its truncating divisions, is the number of days since 1970-01-01,
   also for a day number past the end of the month.
   */
  lemma DayNumberCounts(year: nat, month: nat, day: int)
    requires year >= 1970 && 1 <= month <= 12 && day >= 1
    ensures DayNumber(year, month, day) == DaysBeforeYear(year) + DaysBeforeMonth(year, month) + day - 1
  {
    DaysBeforeYearClosed(year);
    DayNumberParts(year, month, day);
  }

  /** For every real date the contract's timestamp is the Unix time. */
  lemma TimestampIsUnixTime(t: DateTime)
    requires t.Real()
    ensures TimestampFromDateTime(t.year, t.month, t.day, t.hour, t.minute, t.second) == Ok(t.UnixSeconds())
  {
    DayNumberCounts(t.year, t.month, t.day);
  }

  /** Every accepted date has a day number: the conversion reverts on the range checks alone. */
  lemma AcceptedExactlyInRange(year: nat, month: nat, day: nat, hour: nat, minute: nat, second: nat)
    ensures TimestampFromDateTime(year, month, day, hour, minute, second).Ok? <==>
            year >= 1970 && 1 <= month <= 12 && 1 <= day <= 31 && hour <= 23 && minute <= 59 && second <= 59
  {
    if year >= 1970 && 1 <= month <= 12 && day >= 1 {
      DayNumberCounts(year, month, day);
    }
  }

  lemma {:induction false} YearBound(year: nat)
    requires year >= 1970
    ensures DaysBeforeYear(year) <= 366 * (year - 1970)
  {
    if year == 1970 {
    } else {
      YearBound(year - 1);
    }
  }

  /** Below the year 10000 the timestamp is far below 2^64, so the cast of `notAfter` to uint64 is exact. */
  lemma TimestampBound(year: nat, month: nat, day: nat, hour: nat, minute: nat, second: nat)
    requires year < 10000
    ensures var r := TimestampFromDateTime(year, month, day, hour, minute, second); r.Ok? ==> r.value < 300_000_000_000
  {
    if TimestampFromDateTime(year, month, day, hour, minute, second).Ok? {
      DayNumberCounts(year, month, day);
      YearBound(year);
      MonthTable(year);
    }
  }

  // ---------------------------------------------------------------- order

  lemma {:induction false} YearsAccumulate(y1: nat, y2: nat)
    requires 1970 <= y1 < y2
    ensures DaysBeforeYear(y1) + YearDays(y1) <= DaysBeforeYear(y2)
  {
    if y1 + 1 == y2 {
    } else {
      YearsAccumulate(y1, y2 - 1);
    }
  }

  lemma {:induction false} MonthsAccumulate(year: nat, m1: nat, m2: nat)
    requires 1 <= m1 < m2
    ensures DaysBeforeMonth(year, m1) + MonthDays(year, m1) <= DaysBeforeMonth(year, m2)
  {
    if m1 + 1 == m2 {
    } else {
      MonthsAccumulate(year, m1, m2 - 1);
    }
  }

  lemma MonthWithinYear(year: nat, month: nat)
    requires 1 <= month <= 12
    ensures DaysBeforeMonth(year, month) + MonthDays(year, month) <= YearDays(year)
  {
    MonthTable(year);
    if month < 12 { MonthsAccumulate(year, month, 12); }
  }

  lemma LaterDate(a: DateTime, b: DateTime)
    requires a.Real() && b.Real() && a.Before(b)
    ensures a.Days() < b.Days() || (a.Days() == b.Days() && a.SecondOfDay() < b.SecondOfDay())
  {
    if a.year < b.year {
      YearsAccumulate(a.year, b.year);
      MonthWithinYear(a.year, a.month);
    } else if a.month < b.month {
      MonthsAccumulate(a.year, a.month, b.month);
    }
  }

  /** Unix time is strictly monotone on real dates, so two real dates share a timestamp only if they are equal. */
  lemma UnixTimeOrder(a: DateTime, b: DateTime)
    requires a.Real() && b.Real()
    ensures a.Before(b) <==> a.UnixSeconds() < b.UnixSeconds()
    ensures a.UnixSeconds() == b.UnixSeconds() <==> a == b
  {
    if a.Before(b) {
      LaterDate(a, b);
    } else if b.Before(a) {
      LaterDate(b, a);
    }
  }

  /**
   Every accepted date, existing or not, gets the Unix time of the date that its day count reaches: the date itself
   exactly when its day lies in its month, and otherwise, always before December, a day of the next month.
   */
  lemma NonDatesAlias(t: DateTime)
    requires TimestampFromDateTime(t.year, t.month, t.day, t.hour, t.minute, t.second).Ok?
    ensures t.InChecks() && (t.Real() <==> t.day <= MonthDays(t.year, t.month))
    ensures TimestampFromDateTime(t.year, t.month, t.day, t.hour, t.minute, t.second) == Ok(t.Rolled().UnixSeconds())
    ensures !t.Real() ==>
      t.month < 12
      && t.Rolled() == DateTime(t.year, t.month + 1, t.day - MonthDays(t.year, t.month), t.hour, t.minute, t.second)
  {
    AcceptedExactlyInRange(t.year, t.month, t.day, t.hour, t.minute, t.second);
    DayNumberCounts(t.year, t.month, t.day);
  }

  /** The conversion on all inputs: the Unix time that the date counts to, or a revert outside the range checks. */
  lemma DateTimeIsRead(t: DateTime)
    ensures TimestampFromDateTime(t.year, t.month, t.day, t.hour, t.minute, t.second) == t.Read()
  {
    hide DayNumber;
    AcceptedExactlyInRange(t.year, t.month, t.day, t.hour, t.minute, t.second);
    if t.InChecks() { NonDatesAlias(t); }
  }

  /** 29 February 2023 passes for 1 March. */
  lemma NonDateInstance()
    ensures !DateTime(2023, 2, 29, 0, 0, 0).Real()
    ensures TimestampFromDateTime(2023, 2, 29, 0, 0, 0) == Ok(DateTime(2023, 3, 1, 0, 0, 0).UnixSeconds())
  {
    hide DayNumber, DateTime.UnixSeconds;
    AcceptedExactlyInRange(2023, 2, 29, 0, 0, 0);
    NonDatesAlias(DateTime(2023, 2, 29, 0, 0, 0));
  }
}
