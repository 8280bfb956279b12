/**
 * Day-granularity date arithmetic in the proleptic Gregorian calendar, the part of
 * the date library the calendar view relies on: ISO weekdays and weeks, the civil
 * (year, month, day) reading of a day number, month boundaries, and the month step
 * with end-of-month clamping.
 *
 * Day 0 is 1970-01-01, a Thursday.
 */
module Dates {
  import opened Records

  const EpochYear: int := 1970

  /** ISO weekday: Monday is 1, Sunday is 7. */
  function IsoWeekday(d: Day): (w: int)
    ensures 1 <= w <= 7
    ensures d == 0 ==> w == 4
  {
    (d + 3) % 7 + 1
  }

  /** The ISO weekday advances by one each day and wraps from Sunday to Monday. */
  lemma WeekdayNext(d: Day)
    ensures IsoWeekday(d + 1) == if IsoWeekday(d) == 7 then 1 else IsoWeekday(d) + 1
  {
  }

  /** `startOf("isoWeek")`: the Monday on or before `d`. */
  function StartOfIsoWeek(d: Day): (r: Day)
    ensures IsoWeekday(r) == 1
    ensures r <= d < r + 7
    ensures r + 3 == 7 * ((d + 3) / 7)
  {
    d - (IsoWeekday(d) - 1)
  }

  /** `endOf("isoWeek")`, at day granularity: the Sunday on or after `d`. */
  function EndOfIsoWeek(d: Day): (r: Day)
    ensures IsoWeekday(r) == 7
    ensures r - 7 < d <= r
  {
    StartOfIsoWeek(d) + 6
  }

  /** Two Mondays are a whole number of weeks apart. */
  lemma MondaysWeeksApart(a: Day, b: Day)
    requires IsoWeekday(a) == 1 && IsoWeekday(b) == 1
    ensures (b - a) % 7 == 0
  {
    var qa, qb := (a + 3) / 7, (b + 3) / 7;
    assert a + 3 == 7 * qa;
    assert b + 3 == 7 * qb;
    SevenDivides(qb - qa);
  }

  lemma SevenDivides(k: int)
    ensures (7 * k) % 7 == 0
  {
    var n := 7 * k;
    var q, r := n / 7, n % 7;
    assert n == 7 * q + r && 0 <= r < 7;
    assert 7 * (k - q) == r;
  }

  predicate IsLeapYear(y: int)
  {
    y % 4 == 0 && (y % 100 != 0 || y % 400 == 0)
  }

  function YearLength(y: int): (n: int)
    ensures n == 365 || n == 366
  {
    if IsLeapYear(y) then 366 else 365
  }

  /** Days in the months of year `y` before month `m` (so month 13 gives the year's length). */
  function DaysBeforeMonth(y: int, m: int): (n: int)
    requires 1 <= m <= 13
  {
    var leap := if IsLeapYear(y) && m > 2 then 1 else 0;
    leap +
      (if m == 1 then 0 else if m == 2 then 31 else if m == 3 then 59
       else if m == 4 then 90 else if m == 5 then 120 else if m == 6 then 151
       else if m == 7 then 181 else if m == 8 then 212 else if m == 9 then 243
       else if m == 10 then 273 else if m == 11 then 304 else if m == 12 then 334
       else 365)
  }

  /** Length of month `m` of year `y`: thirty days in April, June, September and November, February 28 or 29. */
  function MonthLength(y: int, m: int): (n: int)
    requires 1 <= m <= 12
    ensures 28 <= n <= 31
    ensures m == 2 ==> n == if IsLeapYear(y) then 29 else 28
    ensures m in {4, 6, 9, 11} ==> n == 30
    ensures m in {1, 3, 5, 7, 8, 10, 12} ==> n == 31
  {
    DaysBeforeMonth(y, m + 1) - DaysBeforeMonth(y, m)
  }

  lemma YearLengthByMonths(y: int)
    ensures DaysBeforeMonth(y, 1) == 0 && DaysBeforeMonth(y, 13) == YearLength(y)
  {
  }

  lemma {:induction false} DaysBeforeMonthMonotone(y: int, a: int, b: int)
    requires 1 <= a <= b <= 13
    ensures DaysBeforeMonth(y, a) + 28 * (b - a) <= DaysBeforeMonth(y, b)
    decreases b - a
  {
    if a < b {
      DaysBeforeMonthMonotone(y, a + 1, b);
      assert DaysBeforeMonth(y, a + 1) == DaysBeforeMonth(y, a) + MonthLength(y, a);
    }
  }

  /** Day number of January 1st of year `y`. */
  function YearStart(y: int): Day
    decreases if y < EpochYear then EpochYear - y else y - EpochYear
  {
    if y == EpochYear then 0
    else if y > EpochYear then YearStart(y - 1) + YearLength(y - 1)
    else YearStart(y + 1) - YearLength(y)
  }

  lemma YearStartStep(y: int)
    ensures YearStart(y + 1) == YearStart(y) + YearLength(y)
  {
  }

  lemma {:induction false} YearStartMonotone(a: int, b: int)
    requires a <= b
    ensures YearStart(a) + 365 * (b - a) <= YearStart(b)
    decreases b - a
  {
    if a < b {
      YearStartStep(a);
      YearStartMonotone(a + 1, b);
    }
  }

  /** Search forward from year `y` for the year holding day `d`. */
  function YearForward(y: int, d: Day): (r: int)
    requires YearStart(y) <= d
    ensures YearStart(r) <= d < YearStart(r + 1)
    decreases d - YearStart(y)
  {
    YearStartStep(y);
    if d < YearStart(y + 1) then y else YearForward(y + 1, d)
  }

  /** Search backward from year `y` for the year holding day `d`. */
  function YearBackward(y: int, d: Day): (r: int)
    requires d < YearStart(y + 1)
    ensures YearStart(r) <= d < YearStart(r + 1)
    decreases YearStart(y + 1) - d
  {
    YearStartStep(y);
    if YearStart(y) <= d then y else YearBackward(y - 1, d)
  }

  /** The year that day `d` falls in. */
  function YearOf(d: Day): (y: int)
    ensures YearStart(y) <= d < YearStart(y + 1)
  {
    if d < 0 then YearBackward(EpochYear - 1, d) else YearForward(EpochYear, d)
  }

  /** Only one year holds a given day. */
  lemma YearOfUnique(y: int, d: Day)
    requires YearStart(y) <= d < YearStart(y + 1)
    ensures YearOf(d) == y
  {
    var z := YearOf(d);
    if z < y {
      YearStartMonotone(z + 1, y);
    } else if y < z {
      YearStartMonotone(y + 1, z);
    }
  }

  /** Search downward from month `m` for the month holding day-of-year `doy`. */
  function MonthSearch(y: int, m: int, doy: int): (r: int)
    requires 1 <= m <= 12 && 0 <= doy < DaysBeforeMonth(y, m + 1)
    ensures 1 <= r <= m
    ensures DaysBeforeMonth(y, r) <= doy < DaysBeforeMonth(y, r + 1)
  {
    if DaysBeforeMonth(y, m) <= doy then m else MonthSearch(y, m - 1, doy)
  }

  lemma MonthUnique(y: int, m: int, doy: int)
    requires 1 <= m <= 12 && DaysBeforeMonth(y, m) <= doy < DaysBeforeMonth(y, m + 1)
    ensures MonthSearch(y, 12, doy) == m
  {
    var n := MonthSearch(y, 12, doy);
    if n < m {
      DaysBeforeMonthMonotone(y, n + 1, m);
    } else if m < n {
      DaysBeforeMonthMonotone(y, m + 1, n);
    }
  }

  datatype CivilDate = CivilDate(year: int, month: int, day: int)

  predicate ValidCivil(c: CivilDate)
  {
    1 <= c.month <= 12 && 1 <= c.day <= MonthLength(c.year, c.month)
  }

  /** Day number of a civil date. */
  function ToDay(c: CivilDate): Day
    requires ValidCivil(c)
  {
    YearStart(c.year) + DaysBeforeMonth(c.year, c.month) + c.day - 1
  }

  /** The civil date of day `d`; it is valid and names `d` back. */
  function Civil(d: Day): (c: CivilDate)
    ensures ValidCivil(c) && ToDay(c) == d
  {
    var y := YearOf(d);
    var doy := d - YearStart(y);
    YearLengthByMonths(y);
    var m := MonthSearch(y, 12, doy);
    CivilDate(y, m, doy - DaysBeforeMonth(y, m) + 1)
  }

  /** Reading a valid civil date as a day number and back gives the same date. */
  lemma CivilOfToDay(c: CivilDate)
    requires ValidCivil(c)
    ensures Civil(ToDay(c)) == c
  {
    var d := ToDay(c);
    var doy := DaysBeforeMonth(c.year, c.month) + c.day - 1;
    DaysBeforeMonthMonotone(c.year, c.month + 1, 13);
    YearLengthByMonths(c.year);
    YearStartStep(c.year);
    YearOfUnique(c.year, d);
    MonthUnique(c.year, c.month, doy);
  }

  /** The epoch: day 0 is Thursday 1970-01-01. */
  lemma Epoch()
    ensures Civil(0) == CivilDate(1970, 1, 1) && IsoWeekday(0) == 4
  {
    var c := CivilDate(1970, 1, 1);
    assert ToDay(c) == 0;
    CivilOfToDay(c);
  }

  /** `startOf("month")`: the first day of the month holding `d`. */
  function FirstOfMonth(d: Day): (r: Day)
    ensures r <= d
    ensures Civil(r) == CivilDate(Civil(d).year, Civil(d).month, 1)
  {
    var c := Civil(d);
    CivilOfToDay(CivilDate(c.year, c.month, 1));
    d - (c.day - 1)
  }

  /** `endOf("month")`, at day granularity: the last day of the month holding `d`. */
  function LastOfMonth(d: Day): (r: Day)
    ensures d <= r
    ensures Civil(r) == CivilDate(Civil(d).year, Civil(d).month, MonthLength(Civil(d).year, Civil(d).month))
  {
    var c := Civil(d);
    var last := CivilDate(c.year, c.month, MonthLength(c.year, c.month));
    CivilOfToDay(last);
    d + (last.day - c.day)
  }

  /** Euclidean division by 12 of `12 * q + r`. */
  lemma DivMod12(q: int, r: int)
    requires 0 <= r < 12
    ensures (12 * q + r) / 12 == q && (12 * q + r) % 12 == r
  {
  }

  /**
   * The civil date `k` months after `c`: the same day of the month, clamped to the
   * length of the target month.
   */
  function MonthsLater(c: CivilDate, k: int): (r: CivilDate)
    requires ValidCivil(c)
    ensures ValidCivil(r)
    ensures r.year * 12 + (r.month - 1) == c.year * 12 + (c.month - 1) + k
    ensures r.day == c.day || c.day > r.day == MonthLength(r.year, r.month)
  {
    var t := c.year * 12 + (c.month - 1) + k;
    CivilDate(t / 12, t % 12 + 1, Min(c.day, MonthLength(t / 12, t % 12 + 1)))
  }

  /**
   * `add(k, "month")`: the same day of the month `k` months later, clamped to the
   * length of the target month (January 31st plus one month is February 28th or 29th).
   */
  function AddMonths(d: Day, k: int): (r: Day)
    ensures Civil(r) == MonthsLater(Civil(d), k)
  {
    var target := MonthsLater(Civil(d), k);
    CivilOfToDay(target);
    ToDay(target)
  }

  /** The next month of a valid date, with its day clamped. */
  lemma NextMonth(c: CivilDate)
    requires ValidCivil(c)
    ensures c.month < 12 ==> MonthsLater(c, 1) == CivilDate(c.year, c.month + 1, Min(c.day, MonthLength(c.year, c.month + 1)))
    ensures c.month == 12 ==> MonthsLater(c, 1) == CivilDate(c.year + 1, 1, c.day)
  {
    if c.month < 12 {
      DivMod12(c.year, c.month);
    } else {
      DivMod12(c.year + 1, 0);
    }
  }

  /** The previous month of a valid date, with its day clamped. */
  lemma PreviousMonth(c: CivilDate)
    requires ValidCivil(c)
    ensures c.month > 1 ==> MonthsLater(c, -1) == CivilDate(c.year, c.month - 1, Min(c.day, MonthLength(c.year, c.month - 1)))
    ensures c.month == 1 ==> MonthsLater(c, -1) == CivilDate(c.year - 1, 12, c.day)
  {
    if c.month > 1 {
      DivMod12(c.year, c.month - 2);
    } else {
      DivMod12(c.year - 1, 11);
    }
  }

  function Min(a: int, b: int): int
  {
    if a <= b then a else b
  }
}
