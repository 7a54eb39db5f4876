/** JavaScript Date values as the reservation code uses them (ECMA-262,
    2024 edition, section 21.4). A time value is an integer count of milliseconds since
    1 January 1970 UTC, or NaN, written here as Option<int> with None for NaN.

    The server reads dates through their UTC accessors; the client builds
    dates at local midnight and moves them with setMonth and setDate. Local
    dates are modelled by their local day number, which makes them independent
    of the time zone. */
module JsDate {
  import opened Wrappers
  import opened JsNumber
  import Calendar
  import Patterns

  const MsPerDay: int := 86400000

  /** TimeClip (section 21.4.1.31) keeps |t| <= 8.64e15 ms: 10^8 days either side of 1970. */
  const MaxTime: int := 8640000000000000
  const MaxDays: int := 100000000

  /** The day number holding time value t (section 21.4.1.3, Day): a floor division. */
  function Day(t: int): int {
    t / MsPerDay
  }

  // ---------------------------------------------------------------------------
  // The UTC side: Date.parse, getUTCDay and toUTCString

  /** A string of the form YYYY-MM-DD naming a real calendar date: the
      date-only form of the date time string format (section 21.4.1.32). */
  predicate IsIsoDate(s: string) {
    |s| == 10 && Patterns.MatchAt(Patterns.DatePattern, s, 0) && Calendar.Valid(IsoFields(s))
  }

  function IsoFields(s: string): Calendar.Date
    requires |s| == 10 && Patterns.MatchAt(Patterns.DatePattern, s, 0)
  {
    Calendar.Date(DigitsValue(s[..4]), DigitsValue(s[5..7]), DigitsValue(s[8..10]))
  }

  /** The time value of `new Date(s)`. A date-only string is UTC midnight of
      that date; any other string is left to the engine, whose answer is the
      `otherwise` parameter, clipped as TimeClip clips it. */
  function ParseDate(s: string, otherwise: Option<int>): (t: Option<int>)
    ensures IsIsoDate(s) ==> t == Some(Calendar.DayOf(IsoFields(s)) * MsPerDay)
    ensures t.Some? ==> -MaxTime <= t.value <= MaxTime
  {
    if IsIsoDate(s) then
      DigitsValueBound(s[..4]);
      IsoDayRange(IsoFields(s));
      Some(Calendar.DayOf(IsoFields(s)) * MsPerDay)
    else
      match otherwise
      case Some(v) => if -MaxTime <= v <= MaxTime then Some(v) else None
      case None => None
  }

  /** A date of years 0..9999 lies well inside the range TimeClip allows. */
  lemma IsoDayRange(c: Calendar.Date)
    requires Calendar.Valid(c) && 0 <= c.year <= 9999
    ensures -1000000 <= Calendar.DayOf(c) <= 3000000
  {
    Calendar.YearBounds(c);
    Calendar.DayFromYearClosedForm(c.year);
    Calendar.DayFromYearClosedForm(c.year + 1);
    YearFormulaRange(c.year);
    YearFormulaRange(c.year + 1);
  }

  lemma YearFormulaRange(y: int)
    requires 0 <= y <= 10000
    ensures -1000000 <= Calendar.DayFromYearFormula(y) <= 3000000
  {
  }

  /** getUTCDay: the UTC weekday, 0 for Sunday; NaN for an invalid date. */
  function UtcWeekDay(t: Option<int>): Option<int> {
    match t
    case None => None
    case Some(v) => Some(Calendar.WeekDay(Day(v)))
  }

  const WeekdayNames: seq<string> := ["Sun", "Mon", "Tue", "Wed", "Thu", "Fri", "Sat"]
  const MonthNames: seq<string> :=
    ["Jan", "Feb", "Mar", "Apr", "May", "Jun", "Jul", "Aug", "Sep", "Oct", "Nov", "Dec"]

  /** String.prototype.padStart(n, "0"). */
  function PadStart(s: string, n: nat): (r: string)
    ensures |r| == if |s| >= n then |s| else n
  {
    if |s| >= n then s else Zeros(n - |s|) + s
  }

  /** ToZeroPaddedDecimalString, with which toUTCString pads the day and the year. */
  function Padded(n: nat, width: nat): string {
    PadStart(NatToString(n), width)
  }

  /** The date part of toUTCString (section 21.4.4.43): "Www, DD Mon YYYY",
      with a "-" before the year for years before year 0. */
  function UtcDateText(day: int): string {
    var c := Calendar.FromDayNumber(day);
    WeekdayNames[Calendar.WeekDay(day)] + ", " + Padded(c.day, 2) + " " + MonthNames[c.month - 1] + " "
    + (if c.year < 0 then "-" else "") + Padded(if c.year < 0 then -c.year else c.year, 4)
  }

  /** String.prototype.slice(0, n). */
  function Take(s: string, n: nat): (r: string)
    ensures |r| == (if |s| <= n then |s| else n) && r == s[..|r|]
  {
    if |s| <= n then s else s[..n]
  }

  /** toUTCString().slice(0, 16). The date part is never shorter than 16
      characters, so the time of day that follows it never reaches the slice. */
  function UtcPrefix(t: Option<int>): (r: string)
    ensures t.None? <==> r == "Invalid Date"
    ensures t.Some? ==> |r| == 16 && r[3..5] == ", "
  {
    match t
    case None => "Invalid Date"
    case Some(v) =>
      var text := UtcDateText(Day(v));
      assert |WeekdayNames[Calendar.WeekDay(Day(v))]| == 3;
      assert text[3..5] == ", ";
      Take(text, 16)
  }

  // ---------------------------------------------------------------------------
  // Lemmas about the UTC prefix

  lemma {:induction false} ZerosAreZero(n: nat)
    ensures forall i | 0 <= i < n :: Zeros(n)[i] == '0'
  {
    if n > 0 {
      ZerosAreZero(n - 1);
      assert Zeros(n) == "0" + Zeros(n - 1);
    }
  }

  lemma {:induction false} AllZeroValue(z: string)
    requires forall i | 0 <= i < |z| :: z[i] == '0'
    ensures AllDigits(z) && DigitsValue(z) == 0
    decreases |z|
  {
    if z != [] {
      AllZeroValue(z[..|z| - 1]);
    }
  }

  lemma ZerosValue(n: nat)
    ensures DigitsValue(Zeros(n)) == 0
  {
    ZerosAreZero(n);
    AllZeroValue(Zeros(n));
  }

  lemma {:induction false} LeadingZeros(z: string, s: string)
    requires AllDigits(z) && DigitsValue(z) == 0 && AllDigits(s)
    ensures AllDigits(z + s) && DigitsValue(z + s) == DigitsValue(s)
    decreases |s|
  {
    if s != [] {
      var t := z + s;
      assert t[..|t| - 1] == z + s[..|s| - 1];
      LeadingZeros(z, s[..|s| - 1]);
    } else {
      assert z + s == z;
    }
  }

  /** A padded field reads back as the number it was made from. */
  lemma PaddedValue(n: nat, width: nat)
    ensures AllDigits(Padded(n, width)) && DigitsValue(Padded(n, width)) == n
    ensures n < Pow10(width) && width >= 1 ==> |Padded(n, width)| == width
  {
    NatToStringValue(n);
    var s := NatToString(n);
    if |s| < width {
      ZerosValue(width - |s|);
      LeadingZeros(Zeros(width - |s|), s);
    }
    if n < Pow10(width) && width >= 1 {
      NatToStringLength(n, width);
    }
  }

  lemma MonthNamesDistinct(i: int, j: int)
    requires 0 <= i < 12 && 0 <= j < 12 && MonthNames[i] == MonthNames[j]
    ensures i == j
  {
    assert MonthNames[i][0] == MonthNames[j][0];
    assert MonthNames[i][1] == MonthNames[j][1];
    assert MonthNames[i][2] == MonthNames[j][2];
  }

  /** For a year of 0..9999 the date part is exactly the 16 characters kept,
      with the day of the month at 5..7, the month at 8..11 and the year at 12..16. */
  lemma UtcDateTextLayout(day: int)
    requires 0 <= Calendar.FromDayNumber(day).year <= 9999
    ensures |UtcDateText(day)| == 16
    ensures UtcDateText(day)[5..7] == Padded(Calendar.FromDayNumber(day).day, 2)
    ensures UtcDateText(day)[8..11] == MonthNames[Calendar.FromDayNumber(day).month - 1]
    ensures UtcDateText(day)[12..16] == Padded(Calendar.FromDayNumber(day).year, 4)
  {
    var c := Calendar.FromDayNumber(day);
    var w := WeekdayNames[Calendar.WeekDay(day)];
    var dd := Padded(c.day, 2);
    var mon := MonthNames[c.month - 1];
    var yyyy := Padded(c.year, 4);
    PaddedValue(c.day, 2);
    PaddedValue(c.year, 4);
    assert Pow10(4) == 10000;
    assert |w| == 3 && |mon| == 3;
    var text := w + ", " + dd + " " + mon + " " + "" + yyyy;
    assert UtcDateText(day) == text;
    assert text[5..7] == dd;
    assert text[8..11] == mon;
    assert text[12..16] == yyyy;
  }

  /** Between years 0 and 9999 the 16-character prefix names the UTC day:
      two time values have the same prefix exactly when they fall on the same day. */
  lemma UtcPrefixNamesDay(t1: int, t2: int)
    requires 0 <= Calendar.FromDayNumber(Day(t1)).year <= 9999
    requires 0 <= Calendar.FromDayNumber(Day(t2)).year <= 9999
    ensures UtcPrefix(Some(t1)) == UtcPrefix(Some(t2)) <==> Day(t1) == Day(t2)
  {
    var c1 := Calendar.FromDayNumber(Day(t1));
    var c2 := Calendar.FromDayNumber(Day(t2));
    UtcDateTextLayout(Day(t1));
    UtcDateTextLayout(Day(t2));
    if UtcPrefix(Some(t1)) == UtcPrefix(Some(t2)) {
      var a := UtcDateText(Day(t1));
      var b := UtcDateText(Day(t2));
      assert a == b;
      PaddedValue(c1.day, 2);
      PaddedValue(c2.day, 2);
      PaddedValue(c1.year, 4);
      PaddedValue(c2.year, 4);
      assert a[5..7] == b[5..7] && a[12..16] == b[12..16];
      assert c1.day == c2.day && c1.year == c2.year;
      MonthNamesDistinct(c1.month - 1, c2.month - 1);
      assert c1 == c2;
      Calendar.FromDayNumberDay(Day(t1));
      Calendar.FromDayNumberDay(Day(t2));
    }
  }

  /** The server's past-date test on a date at UTC midnight: an earlier time
      value whose prefix differs from now's is exactly an earlier UTC day. */
  lemma EarlierUtcDay(day: int, now: int)
    requires 0 <= Calendar.FromDayNumber(day).year <= 9999
    requires 0 <= Calendar.FromDayNumber(Day(now)).year <= 9999
    ensures (day * MsPerDay < now && UtcPrefix(Some(day * MsPerDay)) != UtcPrefix(Some(now)))
            <==> day < Day(now)
  {
    assert Day(day * MsPerDay) == day;
    UtcPrefixNamesDay(day * MsPerDay, now);
  }

  // ---------------------------------------------------------------------------
  // The local side: the Date constructor, getters and setters

  /** A Date at local midnight, given by its local day number, or an invalid date. */
  datatype LocalDate = InvalidDate | LocalDay(day: int)

  /** TimeClip on a local midnight. */
  function ClipDay(day: int): (d: LocalDate)
    ensures d.LocalDay? <==> -MaxDays <= day <= MaxDays
    ensures d.LocalDay? ==> d.day == day
  {
    if -MaxDays <= day <= MaxDays then LocalDay(day) else InvalidDate
  }

  /** MakeDay (section 21.4.1.28): year, month counted from 0 and day of the
      month, any of them out of range; a month past 11 or below 0 carries
      into the year. None when an argument is not finite. */
  function MakeDay(year: Num, month: Num, date: Num): (r: Option<int>)
    ensures r.Some? <==> year.Finite? && month.Finite? && date.Finite?
    ensures r.Some? && 0 <= Truncate(month) < 12 ==>
              r.value == Calendar.DayNumber(Truncate(year), Truncate(month) + 1, 1) + Truncate(date) - 1
  {
    if !year.Finite? || !month.Finite? || !date.Finite? then None
    else
      var y := Truncate(year);
      var m := Truncate(month);
      var dt := Truncate(date);
      assert 0 <= m < 12 ==> m / 12 == 0 && m % 12 == m;
      Some(Calendar.DayNumber(y + m / 12, m % 12 + 1, 1) + dt - 1)
  }

  /** `new Date(year, month, date)` (section 21.4.2.1): a year 0..99 means 1900..1999. */
  function Construct(year: Num, month: Num, date: Num): (d: LocalDate)
    ensures !year.Finite? || !month.Finite? || !date.Finite? ==> d.InvalidDate?
    ensures d.LocalDay? ==> -MaxDays <= d.day <= MaxDays
  {
    var yr := if year.Finite? && 0 <= Truncate(year) <= 99 then FromInt(1900 + Truncate(year)) else year;
    match MakeDay(yr, month, date)
    case None => InvalidDate
    case Some(day) => ClipDay(day)
  }

  function GetFullYear(d: LocalDate): Num {
    if d.InvalidDate? then NaN else FromInt(Calendar.FromDayNumber(d.day).year)
  }

  /** getMonth counts months from 0. */
  function GetMonth(d: LocalDate): Num {
    if d.InvalidDate? then NaN else FromInt(Calendar.FromDayNumber(d.day).month - 1)
  }

  function GetDate(d: LocalDate): Num {
    if d.InvalidDate? then NaN else FromInt(Calendar.FromDayNumber(d.day).day)
  }

  /** The value setMonth(month) leaves in the date (section 21.4.4.25). */
  function SetMonthValue(d: LocalDate, month: Num): (r: LocalDate)
    ensures d.InvalidDate? || !month.Finite? ==> r.InvalidDate?
    ensures r.LocalDay? ==> -MaxDays <= r.day <= MaxDays
  {
    if d.InvalidDate? then InvalidDate
    else
      var c := Calendar.FromDayNumber(d.day);
      match MakeDay(FromInt(c.year), month, FromInt(c.day))
      case None => InvalidDate
      case Some(day) => ClipDay(day)
  }

  /** The value setDate(date) leaves in the date (section 21.4.4.20). */
  function SetDateValue(d: LocalDate, date: Num): (r: LocalDate)
    ensures d.InvalidDate? || !date.Finite? ==> r.InvalidDate?
    ensures r.LocalDay? ==> -MaxDays <= r.day <= MaxDays
  {
    if d.InvalidDate? then InvalidDate
    else
      var c := Calendar.FromDayNumber(d.day);
      match MakeDay(FromInt(c.year), FromInt(c.month - 1), date)
      case None => InvalidDate
      case Some(day) => ClipDay(day)
  }

  /** A Date object: its time value changes in place under the setters. */
  class DateObject {
    var value: LocalDate

    constructor(year: Num, month: Num, date: Num)
      ensures value == Construct(year, month, date)
    {
      value := Construct(year, month, date);
    }

    function FullYear(): Num
      reads this
    {
      GetFullYear(value)
    }

    function Month(): Num
      reads this
    {
      GetMonth(value)
    }

    function Date(): Num
      reads this
    {
      GetDate(value)
    }

    method SetMonth(month: Num)
      modifies this
      ensures value == SetMonthValue(old(value), month)
    {
      value := SetMonthValue(value, month);
    }

    method SetDate(date: Num)
      modifies this
      ensures value == SetDateValue(old(value), date)
    {
      value := SetDateValue(value, date);
    }
  }

  // ---------------------------------------------------------------------------
  // Lemmas about the local side

  /** MakeDay on a valid date's own fields, with k days added to the day of
      the month, lands k days after that date. */
  lemma MakeDayOfDate(c: Calendar.Date, k: int)
    requires Calendar.Valid(c)
    ensures MakeDay(FromInt(c.year), FromInt(c.month - 1), FromInt(c.day + k)) == Some(Calendar.DayOf(c) + k)
  {
    TruncateFromInt(c.year);
    TruncateFromInt(c.month - 1);
    TruncateFromInt(c.day + k);
    var m := c.month - 1;
    assert m / 12 == 0 && m % 12 == m;
    assert Calendar.DayNumber(c.year, c.month, 1) + (c.day + k) - 1 == Calendar.DayOf(c) + k;
  }

  /** Setting a date's month to its own month leaves the date as it is. */
  lemma SetOwnMonth(d: LocalDate)
    requires d.LocalDay? && -MaxDays <= d.day <= MaxDays
    ensures SetMonthValue(d, GetMonth(d)) == d
  {
    var c := Calendar.FromDayNumber(d.day);
    MakeDayOfDate(c, 0);
    Calendar.FromDayNumberDay(d.day);
  }

  /** Setting the day of the month to the current one plus k moves the date by k days. */
  lemma SetDateBy(d: LocalDate, k: int)
    requires d.LocalDay?
    ensures SetDateValue(d, Add(GetDate(d), FromInt(k))) == ClipDay(d.day + k)
  {
    var c := Calendar.FromDayNumber(d.day);
    assert Add(FromInt(c.day), FromInt(k)) == FromInt(c.day + k);
    MakeDayOfDate(c, k);
    Calendar.FromDayNumberDay(d.day);
  }

  /** Constructing a date from a valid date's year (100 or later), month
      counted from 0 and day gives that date's day number. */
  lemma ConstructDate(c: Calendar.Date)
    requires Calendar.Valid(c) && c.year >= 100
    requires -MaxDays <= Calendar.DayOf(c) <= MaxDays
    ensures Construct(FromInt(c.year), FromInt(c.month - 1), FromInt(c.day)) == LocalDay(Calendar.DayOf(c))
  {
    TruncateFromInt(c.year);
    MakeDayOfDate(c, 0);
  }

  /** Years 0..99 given to the constructor mean 1900..1999. */
  lemma ConstructTwoDigitYear(y: int, m: int, d: int)
    requires 0 <= y <= 99 && Calendar.Valid(Calendar.Date(1900 + y, m, d))
    ensures Construct(FromInt(y), FromInt(m - 1), FromInt(d)) == LocalDay(Calendar.DayOf(Calendar.Date(1900 + y, m, d)))
  {
    var c := Calendar.Date(1900 + y, m, d);
    TruncateFromInt(y);
    TruncateFromInt(1900 + y);
    MakeDayOfDate(c, 0);
    IsoDayRange(c);
  }
}
