/** The proleptic Gregorian calendar with days numbered from 1 January 1970
    (day 0), the day count ECMA-262 (2024 edition) section 21.4.1 builds its dates on. */
module Calendar {

  /** A calendar date; `month` is 1..12 and `day` 1..31 when Valid. */
  datatype Date = Date(year: int, month: int, day: int)

  predicate IsLeapYear(y: int) {
    y % 4 == 0 && (y % 100 != 0 || y % 400 == 0)
  }

  function DaysInYear(y: int): int {
    if IsLeapYear(y) then 366 else 365
  }

  function DaysInMonth(y: int, m: int): int
    requires 1 <= m <= 12
  {
    if m == 2 then (if IsLeapYear(y) then 29 else 28)
    else if m == 4 || m == 6 || m == 9 || m == 11 then 30
    else 31
  }

  predicate Valid(d: Date) {
    1 <= d.month <= 12 && 1 <= d.day <= DaysInMonth(d.year, d.month)
  }

  /** The following calendar day. */
  function NextDay(d: Date): (r: Date)
    requires Valid(d)
    ensures Valid(r)
  {
    if d.day < DaysInMonth(d.year, d.month) then Date(d.year, d.month, d.day + 1)
    else if d.month < 12 then Date(d.year, d.month + 1, 1)
    else Date(d.year + 1, 1, 1)
  }

  /** The preceding calendar day. */
  function PrevDay(d: Date): (r: Date)
    requires Valid(d)
    ensures Valid(r)
  {
    if d.day > 1 then Date(d.year, d.month, d.day - 1)
    else if d.month > 1 then Date(d.year, d.month - 1, DaysInMonth(d.year, d.month - 1))
    else Date(d.year - 1, 12, 31)
  }

  /** Moving by a day changes the year by at most one. */
  lemma NeighbourYears(d: Date)
    requires Valid(d)
    ensures d.year <= NextDay(d).year <= d.year + 1
    ensures d.year - 1 <= PrevDay(d).year <= d.year
  {
  }

  /** The day after (k = 1) or before (k = -1) a date. */
  function Neighbour(d: Date, k: int): (r: Date)
    requires Valid(d) && (k == 1 || k == -1)
    ensures Valid(r) && d.year - 1 <= r.year <= d.year + 1
  {
    if k == 1 then NextDay(d) else PrevDay(d)
  }

  lemma NextPrevInverse(d: Date)
    requires Valid(d)
    ensures PrevDay(NextDay(d)) == d
    ensures NextDay(PrevDay(d)) == d
  {
  }

  /** Days in the months before month m (the month table of MonthFromTime, section 21.4.1.11). */
  function DaysBeforeMonth(y: int, m: int): int
    requires 1 <= m <= 12
  {
    var common :=
      if m == 1 then 0 else if m == 2 then 31 else if m == 3 then 59
      else if m == 4 then 90 else if m == 5 then 120 else if m == 6 then 151
      else if m == 7 then 181 else if m == 8 then 212 else if m == 9 then 243
      else if m == 10 then 273 else if m == 11 then 304 else 334;
    common + (if m > 2 && IsLeapYear(y) then 1 else 0)
  }

  /** The day number of 1 January of year y, counted year by year from 1970. */
  function DayFromYear(y: int): int
    decreases if y >= 1970 then y - 1970 else 1970 - y
  {
    if y == 1970 then 0
    else if y > 1970 then DayFromYear(y - 1) + DaysInYear(y - 1)
    else DayFromYear(y + 1) - DaysInYear(y)
  }

  /** The day number of day d of month m of year y; d may lie outside the
      month, as MakeDay (section 21.4.1.28) allows. */
  function DayNumber(y: int, m: int, d: int): int
    requires 1 <= m <= 12
  {
    DayFromYear(y) + DaysBeforeMonth(y, m) + d - 1
  }

  function DayOf(d: Date): int
    requires 1 <= d.month <= 12
  {
    DayNumber(d.year, d.month, d.day)
  }

  /** The date with day number n, found by walking from 1 January 1970. */
  function FromDayNumber(n: int): (d: Date)
    ensures Valid(d)
    decreases if n >= 0 then n else -n
  {
    if n == 0 then Date(1970, 1, 1)
    else if n > 0 then NextDay(FromDayNumber(n - 1))
    else PrevDay(FromDayNumber(n + 1))
  }

  /** Day of the week, 0 for Sunday (WeekDay, section 21.4.1.13): day 0 was a Thursday. */
  function WeekDay(n: int): (w: int)
    ensures 0 <= w < 7
  {
    (n + 4) % 7
  }

  /** Consecutive days have consecutive weekdays. */
  lemma WeekDayNext(n: int)
    ensures WeekDay(n + 1) == (WeekDay(n) + 1) % 7
    ensures WeekDay(n + 7) == WeekDay(n)
  {
  }

  lemma DayFromYearStep(y: int)
    ensures DayFromYear(y + 1) == DayFromYear(y) + DaysInYear(y)
  {
  }

  lemma MonthStep(y: int, m: int)
    requires 1 <= m <= 12
    ensures m < 12 ==> DaysBeforeMonth(y, m + 1) == DaysBeforeMonth(y, m) + DaysInMonth(y, m)
    ensures m == 12 ==> DaysBeforeMonth(y, m) + DaysInMonth(y, m) == DaysInYear(y)
  {
  }

  lemma DaysBeforeMonthIncreasing(y: int, m1: int, m2: int)
    requires 1 <= m1 < m2 <= 12
    ensures DaysBeforeMonth(y, m1) + DaysInMonth(y, m1) <= DaysBeforeMonth(y, m2)
  {
  }

  lemma {:induction false} DayFromYearIncreasing(a: int, b: int)
    requires a < b
    ensures DayFromYear(a + 1) <= DayFromYear(b)
    decreases b - a
  {
    DayFromYearStep(a);
    if a + 1 < b {
      DayFromYearIncreasing(a, b - 1);
      DayFromYearStep(b - 1);
    }
  }

  /** Moving to the next day adds one to the day number. */
  lemma NextDayNumber(d: Date)
    requires Valid(d)
    ensures DayOf(NextDay(d)) == DayOf(d) + 1
  {
    MonthStep(d.year, d.month);
    DayFromYearStep(d.year);
  }

  lemma PrevDayNumber(d: Date)
    requires Valid(d)
    ensures DayOf(PrevDay(d)) == DayOf(d) - 1
  {
    NextDayNumber(PrevDay(d));
    NextPrevInverse(d);
  }

  /** FromDayNumber finds a date with the requested day number. */
  lemma {:induction false} FromDayNumberDay(n: int)
    ensures DayOf(FromDayNumber(n)) == n
    decreases if n >= 0 then n else -n
  {
    if n > 0 {
      FromDayNumberDay(n - 1);
      NextDayNumber(FromDayNumber(n - 1));
    } else if n < 0 {
      FromDayNumberDay(n + 1);
      PrevDayNumber(FromDayNumber(n + 1));
    }
  }

  /** A valid date lies within its own year's day numbers. */
  lemma YearBounds(d: Date)
    requires Valid(d)
    ensures DayFromYear(d.year) <= DayOf(d) < DayFromYear(d.year + 1)
  {
    DayFromYearStep(d.year);
    if d.month < 12 {
      DaysBeforeMonthIncreasing(d.year, d.month, 12);
    }
    MonthStep(d.year, 12);
  }

  /** Different valid dates have different day numbers. */
  lemma DayOfInjective(a: Date, b: Date)
    requires Valid(a) && Valid(b) && DayOf(a) == DayOf(b)
    ensures a == b
  {
    YearBounds(a);
    YearBounds(b);
    if a.year < b.year {
      DayFromYearIncreasing(a.year, b.year);
      assert false;
    } else if b.year < a.year {
      DayFromYearIncreasing(b.year, a.year);
      assert false;
    }
    if a.month < b.month {
      DaysBeforeMonthIncreasing(a.year, a.month, b.month);
      assert false;
    } else if b.month < a.month {
      DaysBeforeMonthIncreasing(a.year, b.month, a.month);
      assert false;
    }
  }

  /** Day numbers and valid dates are in one-to-one correspondence. */
  lemma FromDayNumberOfDate(d: Date)
    requires Valid(d)
    ensures FromDayNumber(DayOf(d)) == d
  {
    FromDayNumberDay(DayOf(d));
    DayOfInjective(FromDayNumber(DayOf(d)), d);
  }

  lemma FromDayNumberNext(n: int)
    ensures FromDayNumber(n + 1) == NextDay(FromDayNumber(n))
    ensures FromDayNumber(n) == PrevDay(FromDayNumber(n + 1))
  {
    FromDayNumberDay(n);
    FromDayNumberDay(n + 1);
    NextDayNumber(FromDayNumber(n));
    PrevDayNumber(FromDayNumber(n + 1));
    DayOfInjective(FromDayNumber(n + 1), NextDay(FromDayNumber(n)));
    DayOfInjective(FromDayNumber(n), PrevDay(FromDayNumber(n + 1)));
  }

  /** The closed form of DayFromYear (section 21.4.1.6). */
  function DayFromYearFormula(y: int): int {
    365 * (y - 1970) + (y - 1969) / 4 - (y - 1901) / 100 + (y - 1601) / 400
  }

  lemma FloorStep(x: int, k: int)
    requires k == 4 || k == 100 || k == 400
    ensures (x + 1) / k - x / k == if (x + 1) % k == 0 then 1 else 0
  {
  }

  lemma FormulaStep(y: int)
    ensures DayFromYearFormula(y + 1) == DayFromYearFormula(y) + DaysInYear(y)
  {
    FloorStep(y - 1969, 4);
    FloorStep(y - 1901, 100);
    FloorStep(y - 1601, 400);
  }

  /** The year-by-year count agrees with the closed form for every year. */
  lemma {:induction false} DayFromYearClosedForm(y: int)
    ensures DayFromYear(y) == DayFromYearFormula(y)
    decreases if y >= 1970 then y - 1970 else 1970 - y
  {
    if y > 1970 {
      DayFromYearClosedForm(y - 1);
      FormulaStep(y - 1);
    } else if y < 1970 {
      DayFromYearClosedForm(y + 1);
      FormulaStep(y);
    }
  }
}
