/**
  The proleptic Gregorian calendar as used by `std::chrono`: which dates
  exist (`year_month_day::ok`) and how many days separate a date from
  1970-01-01 (the conversion of a `year_month_day` to `sys_days`).
 */
module Calendar {
  import opened Numerals

  /** Leap years of the proleptic Gregorian calendar. */
  predicate IsLeap(y: int) {
    y % 4 == 0 && (y % 100 != 0 || y % 400 == 0)
  }

  /** Length of month m of year y. */
  function DaysInMonth(y: int, m: nat): (n: nat)
    requires 1 <= m <= 12
    ensures 28 <= n <= 31
    ensures m == 2 ==> (n == 29 <==> IsLeap(y))
  {
    if m == 2 then (if IsLeap(y) then 29 else 28)
    else if m == 4 || m == 6 || m == 9 || m == 11 then 30
    else 31
  }

  /** A day that exists in the calendar, whatever the year. */
  predicate IsDate(y: int, m: nat, d: nat) {
    1 <= m <= 12 && 1 <= d <= DaysInMonth(y, m)
  }

  /** `year_month_day::ok`: the year lies in -32767..32767 and the day exists. */
  predicate ValidDate(y: int, m: nat, d: nat) {
    -32767 <= y <= 32767 && IsDate(y, m, d)
  }

  /**
    Days from 1970-01-01 to y-m-d. Years are counted from March, so the
    leap day closes a year; `era` is a 400-year cycle of 146097 days and
    `/` here is floor division, which is what the C++ formulation obtains
    by adjusting negative years before dividing.
   */
  function DaysFromCivil(y: int, m: nat, d: nat): int
    requires 1 <= m <= 12
  {
    var yp := if m <= 2 then y - 1 else y;
    var era := yp / 400;
    var yoe := yp - era * 400;
    var doy := DayOfYear(m, d);
    era * 146097 + yoe * 365 + yoe / 4 - yoe / 100 + doy - 719468
  }

  /** Days from March 1st to the first of month m, plus the day within the month. */
  function DayOfYear(m: nat, d: nat): int
    requires 1 <= m <= 12
  {
    var mp := if m > 2 then m - 3 else m + 9;
    (153 * mp + 2) / 5 + d - 1
  }

  /** Days from 0000-03-01 to March 1st of year y. */
  function MarchDays(y: int): int {
    365 * y + y / 4 - y / 100 + y / 400
  }

  /** The date that follows y-m-d. */
  function NextDay(y: int, m: nat, d: nat): (r: (int, nat, nat))
    requires IsDate(y, m, d)
    ensures IsDate(r.0, r.1, r.2)
  {
    if d < DaysInMonth(y, m) then (y, m, d + 1)
    else if m < 12 then (y, m + 1, 1)
    else (y + 1, 1, 1)
  }

  /** The cycle-based count and the closed form agree. */
  lemma EraForm(y: int, m: nat, d: nat)
    requires 1 <= m <= 12
    ensures DaysFromCivil(y, m, d) == MarchDays(if m <= 2 then y - 1 else y) + DayOfYear(m, d) - 719468
  {
    var yp := if m <= 2 then y - 1 else y;
    var era := yp / 400;
    var yoe := yp - era * 400;
    assert yp == 400 * era + yoe && 0 <= yoe < 400;
    CycleDiv(era, yoe, 4, 100);
    CycleDiv(era, yoe, 100, 4);
    CycleDiv(era, yoe, 400, 1);
  }

  lemma CycleDiv(era: int, yoe: int, k: nat, q: nat)
    requires k > 0 && k * q == 400 && 0 <= yoe < 400
    ensures (400 * era + yoe) / k == q * era + yoe / k
  {
    var r := yoe % k;
    assert yoe == k * (yoe / k) + r;
    assert 400 * era + yoe == k * (q * era + yoe / k) + r;
    DivModUnique(400 * era + yoe, k, q * era + yoe / k, r);
  }

  /** Floor division by k advances by one exactly at the multiples of k. */
  lemma StepDiv(y: int, k: nat)
    requires k > 0
    ensures (y + 1) / k == y / k + (if (y + 1) % k == 0 then 1 else 0)
  {
    var q := y / k;
    var r := y % k;
    assert y == k * q + r && 0 <= r < k;
    if r == k - 1 {
      DivModUnique(y + 1, k, q + 1, 0);
    } else {
      DivModUnique(y + 1, k, q, r + 1);
    }
  }

  /** A year counted from March has 366 days exactly when the February that ends it is a leap one. */
  lemma YearLength(y: int)
    ensures MarchDays(y + 1) == MarchDays(y) + 365 + (if IsLeap(y + 1) then 1 else 0)
  {
    StepDiv(y, 4);
    StepDiv(y, 100);
    StepDiv(y, 400);
    DivisorsOf400(y + 1);
  }

  lemma DivisorsOf400(n: int)
    ensures n % 400 == 0 ==> n % 100 == 0
    ensures n % 100 == 0 ==> n % 4 == 0
  {
    if n % 400 == 0 {
      DivModUnique(n, 100, 4 * (n / 400), 0);
    }
    if n % 100 == 0 {
      DivModUnique(n, 4, 25 * (n / 100), 0);
    }
  }

  /** Days between March 1st and the first of each following month. */
  lemma MonthLength(y: int, m: nat)
    requires 1 <= m < 12 && m != 2
    ensures DayOfYear(m + 1, 1) == DayOfYear(m, 1) + DaysInMonth(y, m)
  {
  }

  /** The day count advances by exactly one from each date to the next. */
  lemma NextDayAddsOne(y: int, m: nat, d: nat)
    requires IsDate(y, m, d)
    ensures var (y', m', d') := NextDay(y, m, d); DaysFromCivil(y', m', d') == DaysFromCivil(y, m, d) + 1
  {
    if d < DaysInMonth(y, m) {
      EraForm(y, m, d);
      EraForm(y, m, d + 1);
    } else if m < 12 {
      MonthEndStep(y, m);
    } else {
      EraForm(y, 12, 31);
      EraForm(y + 1, 1, 1);
    }
  }

  /** From the last day of a month other than December to the first of the next. */
  lemma MonthEndStep(y: int, m: nat)
    requires 1 <= m < 12
    ensures DaysFromCivil(y, m + 1, 1) == DaysFromCivil(y, m, DaysInMonth(y, m)) + 1
  {
    EraForm(y, m, DaysInMonth(y, m));
    EraForm(y, m + 1, 1);
    if m == 2 {
      YearLength(y - 1);
    } else {
      MonthLength(y, m);
    }
  }

  /** The epoch is day zero. */
  lemma EpochIsDayZero()
    ensures DaysFromCivil(1970, 1, 1) == 0
  {
  }

  /** Over whole years the closed form never decreases. */
  lemma {:induction false} MarchDaysMonotone(a: int, b: int)
    requires a <= b
    ensures MarchDays(a) <= MarchDays(b)
    decreases b - a
  {
    if a < b {
      YearLength(a);
      MarchDaysMonotone(a + 1, b);
    }
  }

  /** A date has a non-negative day count exactly when it is on or after 1970-01-01. */
  lemma NonNegativeFromEpoch(y: int, m: nat, d: nat)
    requires IsDate(y, m, d)
    ensures DaysFromCivil(y, m, d) >= 0 <==> y >= 1970
  {
    EraForm(y, m, d);
    var yp := if m <= 2 then y - 1 else y;
    assert MarchDays(1968) == 718797 && MarchDays(1969) == 719162 && MarchDays(1970) == 719527;
    if yp >= 1970 {
      MarchDaysMonotone(1970, yp);
    } else if yp <= 1968 {
      MarchDaysMonotone(yp, 1968);
    }
  }

  /** The last day of year 9999 is day 2932896. */
  lemma DaysBound(y: int, m: nat, d: nat)
    requires IsDate(y, m, d) && y <= 9999
    ensures DaysFromCivil(y, m, d) <= 2932896
  {
    EraForm(y, m, d);
    var yp := if m <= 2 then y - 1 else y;
    assert MarchDays(9998) == 3651694 && MarchDays(9999) == 3652059;
    if yp <= 9998 {
      MarchDaysMonotone(yp, 9998);
    }
  }
}
