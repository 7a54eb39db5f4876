/** The client's date and time helpers (front-end/src/utils/date-time.js):
    the YYYY-MM-DD form of a local Date, extracting a date or time from a
    longer string, stepping a YYYY-MM-DD string one day forward or back, and
    the human-readable forms of dates, times and phone numbers. */
module DateTime {
  import opened Wrappers
  import opened JsNumber
  import opened JsValues
  import opened Patterns
  import Calendar
  import opened JsDate

  // ---------------------------------------------------------------------------
  // asDateString

  /** `${getFullYear()}-${getMonth() + 1 padded}-${getDate() padded}`, every
      number printed with toString(10). An invalid date prints "NaN-NaN-NaN". */
  function AsDateString(d: LocalDate): (r: string)
    ensures d.InvalidDate? ==> r == "NaN-NaN-NaN"
  {
    assert d.InvalidDate? ==> Add(GetMonth(d), FromInt(1)) == NaN;
    NumberToString(GetFullYear(d)) + "-" + PadStart(NumberToString(Add(GetMonth(d), FromInt(1))), 2)
    + "-" + PadStart(NumberToString(GetDate(d)), 2)
  }

  /** The text of a calendar date: the year unpadded, month and day padded to two digits. */
  function DateText(c: Calendar.Date): string
    requires Calendar.Valid(c) && 0 <= c.year
  {
    NatToString(c.year) + "-" + Padded(c.month, 2) + "-" + Padded(c.day, 2)
  }

  /** A whole number below 100000 prints as its decimal form. */
  lemma SmallNumberText(i: nat)
    requires i <= 99999
    ensures NumberToString(FromInt(i)) == NatToString(i)
  {
    assert Pow10(21) >= 100000 by {
      assert Pow10(5) == 100000;
      Pow10Monotone(5, 21);
    }
    IntegerToString(i);
  }

  /** asDateString of a local date whose getters give year y, month m and day dd. */
  lemma AsDateStringFields(d: LocalDate, y: nat, m: nat, dd: nat)
    requires y <= 99999 && 1 <= m <= 12 && dd <= 31
    requires GetFullYear(d) == FromInt(y) && GetMonth(d) == FromInt(m - 1) && GetDate(d) == FromInt(dd)
    ensures AsDateString(d) == NatToString(y) + "-" + Padded(m, 2) + "-" + Padded(dd, 2)
  {
    SmallNumberText(y);
    FromIntAdd(m - 1, 1);
    SmallNumberText(m);
    SmallNumberText(dd);
  }

  /** asDateString of a valid local date is the text of its calendar date. */
  lemma AsDateStringOfDay(n: int, c: Calendar.Date)
    requires Calendar.FromDayNumber(n) == c && 0 <= c.year <= 99999
    ensures AsDateString(LocalDay(n)) == DateText(c)
  {
    AsDateStringFields(LocalDay(n), c.year, c.month, c.day);
  }

  /** A four-digit year has a four-character decimal form. */
  lemma FourDigitYear(y: nat)
    requires 1000 <= y <= 9999
    ensures |NatToString(y)| == 4
  {
    assert Pow10(4) == 10000;
    NatToStringLength(y, 4);
    NatToStringValue(y);
    DigitsValueBound(NatToString(y));
    assert Pow10(3) == 1000;
    Pow10Monotone(|NatToString(y)|, 3);
  }

  /** For years 1000..9999 the text of a date has the form the date pattern
      matches, and reads back as the same date. */
  lemma DateTextIso(c: Calendar.Date)
    requires Calendar.Valid(c) && 1000 <= c.year <= 9999
    ensures IsIsoDate(DateText(c)) && IsoFields(DateText(c)) == c
  {
    var y := NatToString(c.year);
    var mm := Padded(c.month, 2);
    var dd := Padded(c.day, 2);
    FourDigitYear(c.year);
    NatToStringValue(c.year);
    assert Pow10(2) == 100;
    PaddedValue(c.month, 2);
    PaddedValue(c.day, 2);
    var s := DateText(c);
    assert s == y + "-" + mm + "-" + dd;
    assert s[..4] == y && s[5..7] == mm && s[8..10] == dd;
    assert s[4] == '-' && s[7] == '-';
    assert IsDigit(y[0]) && IsDigit(y[1]) && IsDigit(y[2]) && IsDigit(y[3]);
    assert IsDigit(mm[0]) && IsDigit(mm[1]) && IsDigit(dd[0]) && IsDigit(dd[1]);
    assert MatchAt(DatePattern, s, 0);
  }

  lemma {:induction false} ZerosSnoc(k: nat)
    ensures Zeros(k) + "0" == Zeros(k + 1)
  {
    ZerosAreZero(k);
    ZerosAreZero(k + 1);
    assert forall i | 0 <= i < k + 1 :: (Zeros(k) + "0")[i] == Zeros(k + 1)[i];
  }

  /** Padding the decimal form of a digit string's value back to the
      string's length gives the string again. */
  lemma {:induction false} PadDigits(t: string)
    requires AllDigits(t) && |t| >= 1
    ensures PadStart(NatToString(DigitsValue(t)), |t|) == t
    decreases |t|
  {
    var u := t[..|t| - 1];
    var c := t[|t| - 1];
    assert t == u + [c];
    if u == [] {
      var d := DigitValue(c);
      assert DigitChar(d) == c;
      assert DigitsValue(t) == 10 * DigitsValue(u) + d;
      assert DigitsValue(u) == 0;
      assert NatToString(DigitsValue(t)) == [c];
    } else {
      PadDigits(u);
      PadStep(t);
    }
  }

  /** One more digit on a string that pads back to itself. */
  lemma PadStep(t: string)
    requires AllDigits(t) && |t| >= 2
    requires PadStart(NatToString(DigitsValue(t[..|t| - 1])), |t| - 1) == t[..|t| - 1]
    ensures PadStart(NatToString(DigitsValue(t)), |t|) == t
  {
    var u := t[..|t| - 1];
    var c := t[|t| - 1];
    assert t == u + [c];
    var v := DigitsValue(u);
    var sv := NatToString(v);
    assert |sv| <= |u| by {
      DigitsValueBound(u);
      NatToStringLength(v, |u|);
    }
    if v == 0 {
      PadZeroCase(u, c, DigitsValue(t));
    } else {
      PadPositiveCase(u, c, v, DigitsValue(t));
    }
  }

  /** After digits of value 0, the value is the last digit alone. */
  lemma PadZeroCase(u: string, c: char, n: nat)
    requires |u| >= 1 && IsDigit(c) && n == DigitValue(c)
    requires PadStart(NatToString(0), |u|) == u
    ensures PadStart(NatToString(n), |u| + 1) == u + [c]
  {
    assert NatToString(0) == "0";
    assert NatToString(n) == [c] by {
      assert DigitChar(n) == c;
    }
    assert u == Zeros(|u| - 1) + "0";
    ZerosSnoc(|u| - 1);
  }

  /** After digits of positive value v, the decimal form grows by the last digit. */
  lemma PadPositiveCase(u: string, c: char, v: nat, n: nat)
    requires v >= 1 && IsDigit(c) && n == 10 * v + DigitValue(c)
    requires |NatToString(v)| <= |u| && PadStart(NatToString(v), |u|) == u
    ensures PadStart(NatToString(n), |u| + 1) == u + [c]
  {
    var sv := NatToString(v);
    assert u == Zeros(|u| - |sv|) + sv;
    assert n / 10 == v && n % 10 == DigitValue(c);
    assert DigitChar(n % 10) == c;
    assert NatToString(n) == sv + [c];
    assert PadStart(sv + [c], |u| + 1) == Zeros(|u| - |sv|) + sv + [c];
  }

  /** A four-digit field of value 1000 or more is the decimal form of its value. */
  lemma YearDigits(t: string)
    requires |t| == 4 && AllDigits(t) && DigitsValue(t) >= 1000
    ensures NatToString(DigitsValue(t)) == t
  {
    PadDigits(t);
    DigitsValueBound(t);
    assert Pow10(4) == 10000;
    FourDigitYear(DigitsValue(t));
  }

  /** A YYYY-MM-DD string of a year 1000..9999 is the text of the date it names. */
  lemma IsoText(s: string)
    requires IsIsoDate(s) && 1000 <= IsoFields(s).year
    ensures DateText(IsoFields(s)) == s
  {
    var c := IsoFields(s);
    assert AllDigits(s[..4]) && AllDigits(s[5..7]) && AllDigits(s[8..10]);
    YearDigits(s[..4]);
    PadDigits(s[5..7]);
    PadDigits(s[8..10]);
    assert s == s[..4] + "-" + s[5..7] + "-" + s[8..10];
  }

  // ---------------------------------------------------------------------------
  // formatAsDate and formatAsTime

  /** Indexing the null that match returns when nothing matches throws. */
  const NullIndexError: string := "Cannot read properties of null (reading '0')"

  /** `s.match(p)[0]`: the leftmost match, or the TypeError of reading [0] of null. */
  function MatchOrThrow(p: Pattern, s: string): (r: Result<string, string>)
    ensures r.Ok? <==> Matches(p, s)
    ensures r.Err? ==> r.error == NullIndexError
    ensures r.Ok? ==> |r.value| == Width(p)
    ensures r.Ok? ==> exists i :: MatchAt(p, s, i) && r.value == s[i..i + Width(p)]
                                  && forall j | 0 <= j < i :: !MatchAt(p, s, j)
  {
    match MatchText(p, s)
    case Some(m) => Ok(m)
    case None => Err(NullIndexError)
  }

  function FormatAsDate(dateString: string): (r: Result<string, string>)
    ensures r.Ok? <==> Matches(DatePattern, dateString)
    ensures r.Ok? ==> |r.value| == 10 && MatchAt(DatePattern, r.value, 0)
    ensures r.Ok? ==> exists i :: MatchAt(DatePattern, dateString, i) && r.value == dateString[i..i + 10]
                                  && forall j | 0 <= j < i :: !MatchAt(DatePattern, dateString, j)
  {
    var r := MatchOrThrow(DatePattern, dateString);
    if r.Ok? then MatchedSlice(DatePattern, dateString, r.value); r else r
  }

  function FormatAsTime(timeString: string): (r: Result<string, string>)
    ensures r.Ok? <==> Matches(TimePattern, timeString)
    ensures r.Ok? ==> |r.value| == 5 && MatchAt(TimePattern, r.value, 0)
    ensures r.Ok? ==> exists i :: MatchAt(TimePattern, timeString, i) && r.value == timeString[i..i + 5]
                                  && forall j | 0 <= j < i :: !MatchAt(TimePattern, timeString, j)
  {
    var r := MatchOrThrow(TimePattern, timeString);
    if r.Ok? then MatchedSlice(TimePattern, timeString, r.value); r else r
  }

  /** A slice where the pattern matches is itself matched at its start. */
  lemma MatchedSlice(p: Pattern, s: string, m: string)
    requires exists i :: MatchAt(p, s, i) && m == s[i..i + Width(p)]
    ensures |m| == Width(p) && MatchAt(p, m, 0)
  {
    var i :| MatchAt(p, s, i) && m == s[i..i + Width(p)];
    assert forall k | 0 <= k < Width(p) :: m[k] == s[i + k];
  }

  /** The pattern matches at the start of m, so m's leftmost match is m's prefix. */
  lemma MatchAtStart(p: Pattern, m: string)
    requires MatchAt(p, m, 0)
    ensures MatchOrThrow(p, m) == Ok(m[..Width(p)])
  {
    assert FirstMatch(p, m, 0) == Some(0);
  }

  /** Extracting again from an extracted date or time changes nothing. */
  lemma FormatIdempotent(s: string)
    ensures FormatAsDate(s).Ok? ==> FormatAsDate(FormatAsDate(s).value) == FormatAsDate(s)
    ensures FormatAsTime(s).Ok? ==> FormatAsTime(FormatAsTime(s).value) == FormatAsTime(s)
  {
    if FormatAsDate(s).Ok? {
      var m := FormatAsDate(s).value;
      MatchAtStart(DatePattern, m);
      assert m[..10] == m;
    }
    if FormatAsTime(s).Ok? {
      var m := FormatAsTime(s).value;
      MatchAtStart(TimePattern, m);
      assert m[..5] == m;
    }
  }

  /** A stored timestamp such as 2024-06-10T00:00:00.000Z gives its date part,
      and a time such as 18:30:00 its hours and minutes. */
  lemma FormatLeadingFields(s: string)
    ensures MatchAt(DatePattern, s, 0) ==> FormatAsDate(s) == Ok(s[..10])
    ensures MatchAt(TimePattern, s, 0) ==> FormatAsTime(s) == Ok(s[..5])
  {
    if MatchAt(DatePattern, s, 0) {
      MatchAtStart(DatePattern, s);
    }
    if MatchAt(TimePattern, s, 0) {
      MatchAtStart(TimePattern, s);
    }
  }

  // ---------------------------------------------------------------------------
  // previous and next

  /** String.prototype.split with a one-character separator. */
  function Split(s: string, sep: char): (r: seq<string>)
    ensures |r| >= 1
    decreases |s|
  {
    if s == [] then [""]
    else
      var rest := Split(s[1..], sep);
      if s[0] == sep then [""] + rest else [[s[0]] + rest[0]] + rest[1..]
  }

  /** Array.prototype.join with a one-character separator. */
  function JoinWith(parts: seq<string>, sep: char): string
    requires |parts| >= 1
  {
    if |parts| == 1 then parts[0] else parts[0] + [sep] + JoinWith(parts[1..], sep)
  }

  /** Splitting loses nothing: the pieces, joined by the separator, give the
      string back, and no piece holds the separator. */
  lemma SplitJoin(s: string, sep: char)
    ensures JoinWith(Split(s, sep), sep) == s
    ensures forall k | 0 <= k < |Split(s, sep)| :: sep !in Split(s, sep)[k]
  {
    SplitJoinBack(s, sep);
    SplitPiecesFree(s, sep);
  }

  lemma {:induction false} SplitJoinBack(s: string, sep: char)
    ensures JoinWith(Split(s, sep), sep) == s
    decreases |s|
  {
    if s != [] {
      SplitJoinBack(s[1..], sep);
      var rest := Split(s[1..], sep);
      assert s == [s[0]] + s[1..];
      if s[0] == sep {
        assert Split(s, sep)[1..] == rest;
      } else {
        JoinCons(s[0], rest, sep);
      }
    }
  }

  /** Prefixing a character to the first piece prefixes it to the join. */
  lemma JoinCons(c: char, rest: seq<string>, sep: char)
    requires |rest| >= 1
    ensures JoinWith([[c] + rest[0]] + rest[1..], sep) == [c] + JoinWith(rest, sep)
  {
    var r := [[c] + rest[0]] + rest[1..];
    assert r[0] == [c] + rest[0] && r[1..] == rest[1..];
  }

  lemma {:induction false} SplitPiecesFree(s: string, sep: char)
    ensures forall k | 0 <= k < |Split(s, sep)| :: sep !in Split(s, sep)[k]
    decreases |s|
  {
    if s != [] {
      SplitPiecesFree(s[1..], sep);
      var rest := Split(s[1..], sep);
      var r := Split(s, sep);
      if s[0] == sep {
        assert r[1..] == rest;
      } else {
        forall k | 0 <= k < |r|
          ensures sep !in r[k]
        {
          if k > 0 {
            assert r[k] == rest[k];
          }
        }
      }
    }
  }

  lemma {:induction false} SplitWithout(a: string, sep: char)
    requires sep !in a
    ensures Split(a, sep) == [a]
    decreases |a|
  {
    if a != [] {
      SplitWithout(a[1..], sep);
      assert [a[0]] + a[1..] == a;
    }
  }

  lemma {:induction false} SplitAfter(a: string, b: string, sep: char)
    requires sep !in a
    ensures Split(a + [sep] + b, sep) == [a] + Split(b, sep)
    decreases |a|
  {
    var s := a + [sep] + b;
    if a == [] {
      assert s[1..] == b;
    } else {
      assert s[1..] == a[1..] + [sep] + b;
      SplitAfter(a[1..], b, sep);
      assert [a[0]] + a[1..] == a;
    }
  }

  /** A YYYY-MM-DD string splits on "-" into its three fields. */
  lemma SplitIso(s: string)
    requires |s| == 10 && MatchAt(DatePattern, s, 0)
    ensures Split(s, '-') == [s[..4], s[5..7], s[8..10]]
  {
    var y, m, d := s[..4], s[5..7], s[8..10];
    assert '-' !in y by { assert forall k | 0 <= k < 4 :: y[k] == s[k]; }
    assert '-' !in m by { assert m[0] == s[5] && m[1] == s[6]; }
    assert '-' !in d by { assert d[0] == s[8] && d[1] == s[9]; }
    assert s == y + ['-'] + (m + ['-'] + d);
    SplitAfter(y, m + ['-'] + d, '-');
    SplitAfter(m, d, '-');
    SplitWithout(d, '-');
  }

  /** `let [a, b, c] = parts` reads missing elements as undefined. */
  function Part(parts: seq<string>, i: nat): Value {
    if i < |parts| then Str(parts[i]) else Undefined
  }

  /** The local date previous and next build: split the string and pass
      year, month - 1 and day to the Date constructor. */
  function Built(currentDate: string): (d: LocalDate)
    ensures '-' !in currentDate ==> d.InvalidDate?
    ensures d.LocalDay? ==> -MaxDays <= d.day <= MaxDays
  {
    assert '-' !in currentDate ==> |Split(currentDate, '-')| == 1 by {
      if '-' !in currentDate {
        SplitWithout(currentDate, '-');
      }
    }
    var (year, month, day) := BuiltArgs(currentDate);
    Construct(year, month, day)
  }

  /** The year, month - 1 and day handed to the constructor. */
  function BuiltArgs(currentDate: string): (Num, Num, Num) {
    var parts := Split(currentDate, '-');
    (ToNumberValue(Part(parts, 0)), Subtract(ToNumberValue(Part(parts, 1)), FromInt(1)),
     ToNumberValue(Part(parts, 2)))
  }

  /** The setters previous and next apply: setMonth with the date's own
      month, then setDate with the day of the month plus k. */
  function SetterSteps(d: LocalDate, k: int): (r: LocalDate)
    ensures d.InvalidDate? ==> r.InvalidDate?
    ensures r.LocalDay? ==> -MaxDays <= r.day <= MaxDays
  {
    var sameMonth := SetMonthValue(d, GetMonth(d));
    SetDateValue(sameMonth, Add(GetDate(sameMonth), FromInt(k)))
  }

  /** The two setter steps, with the day moved by adding or subtracting one. */
  lemma SetterStepsUnfold(d: LocalDate, k: int)
    requires k == 1 || k == -1
    ensures var sameMonth := SetMonthValue(d, GetMonth(d));
            SetterSteps(d, k) == SetDateValue(sameMonth,
              if k == 1 then Add(GetDate(sameMonth), FromInt(1)) else Subtract(GetDate(sameMonth), FromInt(1)))
  {
  }

  /** What previous (k = -1) and next (k = 1) compute. */
  function MovedBy(currentDate: string, k: int): (r: string)
    ensures '-' !in currentDate ==> r == "NaN-NaN-NaN"
  {
    AsDateString(SetterSteps(Built(currentDate), k))
  }

  /** A digit field converts to the Number of its value. */
  lemma FieldNumber(t: string)
    requires t != [] && AllDigits(t)
    ensures ToNumberValue(Str(t)) == FromInt(DigitsValue(t))
  {
    ToNumberOfStr(t);
    DigitsToNumber(t);
  }

  /** For a YYYY-MM-DD string the constructor receives the three fields as
      numbers, the month lowered by one. */
  lemma BuiltFields(s: string)
    requires |s| == 10 && MatchAt(DatePattern, s, 0)
    ensures Built(s) == Construct(FromInt(IsoFields(s).year), FromInt(IsoFields(s).month - 1), FromInt(IsoFields(s).day))
  {
    IsoFieldDigits(s);
    SplitIso(s);
    BuiltOfParts(s, s[..4], s[5..7], s[8..10]);
  }

  /** A string splitting into three digit fields hands their values over. */
  lemma BuiltOfParts(s: string, y: string, m: string, d: string)
    requires y != [] && AllDigits(y) && m != [] && AllDigits(m) && d != [] && AllDigits(d)
    requires Split(s, '-') == [y, m, d]
    ensures BuiltArgs(s) == (FromInt(DigitsValue(y)), FromInt(DigitsValue(m) - 1), FromInt(DigitsValue(d)))
  {
    PartsOfThree([y, m, d], y, m, d);
    FieldNumber(y);
    MonthArg(m);
    FieldNumber(d);
  }

  lemma PartsOfThree(parts: seq<string>, y: string, m: string, d: string)
    requires parts == [y, m, d]
    ensures Part(parts, 0) == Str(y) && Part(parts, 1) == Str(m) && Part(parts, 2) == Str(d)
  {
  }

  /** The month field as the constructor receives it, lowered by one. */
  lemma MonthArg(m: string)
    requires m != [] && AllDigits(m)
    ensures Subtract(ToNumberValue(Str(m)), FromInt(1)) == FromInt(DigitsValue(m) - 1)
  {
    FieldNumber(m);
    LowerByOne(ToNumberValue(Str(m)), DigitsValue(m));
  }

  lemma LowerByOne(x: Num, v: int)
    requires x == FromInt(v)
    ensures Subtract(x, FromInt(1)) == FromInt(v - 1)
  {
    FromIntCompare(v, 1);
  }

  lemma IsoFieldDigits(s: string)
    requires |s| == 10 && MatchAt(DatePattern, s, 0)
    ensures AllDigits(s[..4]) && AllDigits(s[5..7]) && AllDigits(s[8..10])
  {
  }

  lemma IsoYearBound(s: string)
    requires |s| == 10 && MatchAt(DatePattern, s, 0)
    ensures IsoFields(s).year <= 9999
  {
    assert AllDigits(s[..4]);
    DigitsValueBound(s[..4]);
    assert Pow10(4) == 10000;
  }

  /** The setters move a local date of day number n by k days. */
  lemma SetterStepsMove(n: int, k: int)
    requires -MaxDays <= n <= MaxDays && -MaxDays <= n + k <= MaxDays
    ensures SetterSteps(LocalDay(n), k) == LocalDay(n + k)
  {
    var d := LocalDay(n);
    assert SetMonthValue(d, GetMonth(d)) == d by {
      SetOwnMonth(d);
    }
    SetDateBy(d, k);
  }

  /** The day numbers either side of n are the calendar days either side. */
  lemma NeighbourDay(n: int, k: int)
    requires k == 1 || k == -1
    ensures Calendar.FromDayNumber(n + k)
            == Calendar.Neighbour(Calendar.FromDayNumber(n), k)
  {
    if k == 1 {
      Calendar.FromDayNumberNext(n);
    } else {
      Calendar.FromDayNumberNext(n - 1);
    }
  }

  /** Once the constructor has produced the local date of calendar date c,
      the setters and asDateString give the text of the day before or after c. */
  lemma MovedFrom(s: string, c: Calendar.Date, k: int)
    requires Calendar.Valid(c) && 1 <= c.year <= 9999 && (k == 1 || k == -1)
    requires Built(s) == LocalDay(Calendar.DayOf(c))
    ensures MovedBy(s, k) == DateText(Calendar.Neighbour(c, k))
  {
    var n := Calendar.DayOf(c);
    var m := n + k;
    var e := Calendar.Neighbour(c, k);
    assert -MaxDays <= n - 1 && n + 1 <= MaxDays by {
      IsoDayRange(c);
    }
    MovedFromDay(s, n, k);
    assert Calendar.FromDayNumber(m) == e by {
      Calendar.FromDayNumberOfDate(c);
      NeighbourDay(n, k);
    }
    AsDateStringOfDay(m, e);
  }

  /** Once the constructor has produced local day n, the setters move it to day n + k. */
  lemma MovedFromDay(s: string, n: int, k: int)
    requires -MaxDays <= n <= MaxDays && -MaxDays <= n + k <= MaxDays
    requires Built(s) == LocalDay(n)
    ensures MovedBy(s, k) == AsDateString(LocalDay(n + k))
  {
    SetterStepsMove(n, k);
  }

  /** The constructor builds the local date of a YYYY-MM-DD string's date
      for years from 100 on. */
  lemma BuiltIso(s: string)
    requires IsIsoDate(s) && 100 <= IsoFields(s).year
    ensures Built(s) == LocalDay(Calendar.DayOf(IsoFields(s)))
  {
    var c := IsoFields(s);
    assert c.year <= 9999 by {
      IsoYearBound(s);
    }
    assert -MaxDays <= Calendar.DayOf(c) <= MaxDays by {
      IsoDayRange(c);
    }
    assert Built(s) == Construct(FromInt(c.year), FromInt(c.month - 1), FromInt(c.day)) by {
      BuiltFields(s);
    }
    ConstructDate(c);
  }

  /** The date of the same month and day in year 1900 + y. */
  function TwentiethCentury(f: Calendar.Date): (c: Calendar.Date)
    ensures c.year == 1900 + f.year && c.month == f.month && c.day == f.day
  {
    Calendar.Date(1900 + f.year, f.month, f.day)
  }

  /** For years 0..99 it builds the local date of the same day in 1900..1999. */
  lemma BuiltTwoDigitYear(s: string)
    requires IsIsoDate(s) && IsoFields(s).year <= 99
    requires Calendar.Valid(TwentiethCentury(IsoFields(s)))
    ensures Built(s) == LocalDay(Calendar.DayOf(TwentiethCentury(IsoFields(s))))
  {
    var f := IsoFields(s);
    assert 0 <= f.year <= 99 && Calendar.Valid(TwentiethCentury(f));
    BuiltFields(s);
    TwoDigitConstruct(Built(s), f);
  }

  /** ConstructTwoDigitYear for the fields of a date. */
  lemma TwoDigitConstruct(b: LocalDate, f: Calendar.Date)
    requires 0 <= f.year <= 99 && Calendar.Valid(TwentiethCentury(f))
    requires b == Construct(FromInt(f.year), FromInt(f.month - 1), FromInt(f.day))
    ensures b == LocalDay(Calendar.DayOf(TwentiethCentury(f)))
  {
    ConstructTwoDigitYear(f.year, f.month, f.day);
  }

  /** previous and next on a YYYY-MM-DD date of a year from 100 on give the
      text of the calendar day before or after it; month and year boundaries
      and leap days are those of the Gregorian calendar. */
  lemma MovedByDate(s: string, k: int)
    requires IsIsoDate(s) && 100 <= IsoFields(s).year && (k == 1 || k == -1)
    ensures MovedBy(s, k) == DateText(Calendar.Neighbour(IsoFields(s), k))
  {
    var c := IsoFields(s);
    IsoYearBound(s);
    BuiltIso(s);
    MovedFrom(s, c, k);
  }

  /** MovedFrom for a date of the twentieth century. */
  lemma MovedFromTwentieth(s: string, c: Calendar.Date, k: int)
    requires Calendar.Valid(c) && 1900 <= c.year <= 1999 && (k == 1 || k == -1)
    requires Built(s) == LocalDay(Calendar.DayOf(c))
    ensures MovedBy(s, k) == DateText(Calendar.Neighbour(c, k))
  {
    MovedFrom(s, c, k);
  }

  /** Years 0..99 are read by the Date constructor as 1900..1999, so
      previous and next move such a date into the twentieth century:
      next("0024-03-05") is "1924-03-06". */
  lemma MovedByTwoDigitYear(s: string, k: int)
    requires IsIsoDate(s) && IsoFields(s).year <= 99 && (k == 1 || k == -1)
    requires Calendar.Valid(TwentiethCentury(IsoFields(s)))
    ensures MovedBy(s, k) == DateText(Calendar.Neighbour(TwentiethCentury(IsoFields(s)), k))
  {
    var c := TwentiethCentury(IsoFields(s));
    assert Built(s) == LocalDay(Calendar.DayOf(c)) by {
      BuiltTwoDigitYear(s);
    }
    MovedFromTwentieth(s, c, k);
  }

  /** next then previous, and previous then next, give back the date
      (for dates whose neighbour still has a four-digit year). */
  lemma NextPreviousInverse(s: string)
    requires IsIsoDate(s) && 1000 <= IsoFields(s).year
    ensures Calendar.NextDay(IsoFields(s)).year <= 9999 ==> MovedBy(MovedBy(s, 1), -1) == s
    ensures 1000 <= Calendar.PrevDay(IsoFields(s)).year ==> MovedBy(MovedBy(s, -1), 1) == s
  {
    var c := IsoFields(s);
    IsoYearBound(s);
    IsoText(s);
    Calendar.NextPrevInverse(c);
    if Calendar.NextDay(c).year <= 9999 {
      MovedByDate(s, 1);
      DateTextIso(Calendar.NextDay(c));
      MovedByDate(DateText(Calendar.NextDay(c)), -1);
    }
    if 1000 <= Calendar.PrevDay(c).year {
      MovedByDate(s, -1);
      DateTextIso(Calendar.PrevDay(c));
      MovedByDate(DateText(Calendar.PrevDay(c)), 1);
    }
  }

  /** The date a literal YYYY-MM-DD string names, read digit by digit. */
  lemma IsoLiteral(s: string, c: Calendar.Date)
    requires |s| == 10 && MatchAt(DatePattern, s, 0) && Calendar.Valid(c) && 1000 <= c.year
    requires 1000 * DigitValue(s[0]) + 100 * DigitValue(s[1]) + 10 * DigitValue(s[2]) + DigitValue(s[3]) == c.year
    requires 10 * DigitValue(s[5]) + DigitValue(s[6]) == c.month
    requires 10 * DigitValue(s[8]) + DigitValue(s[9]) == c.day
    ensures IsIsoDate(s) && IsoFields(s) == c && DateText(c) == s
  {
    assert AllDigits(s[..4]) && AllDigits(s[5..7]) && AllDigits(s[8..10]);
    DigitsValueSmall(s[..4]);
    DigitsValueSmall(s[5..7]);
    DigitsValueSmall(s[8..10]);
    IsoText(s);
  }

  /** One step between two literal dates: a step from date a of calendar
      date ca lands on date b when b names the neighbouring day of ca. */
  lemma Step(a: string, ca: Calendar.Date, b: string, cb: Calendar.Date, k: int)
    requires IsIsoDate(a) && IsoFields(a) == ca && 1000 <= ca.year && (k == 1 || k == -1)
    requires IsIsoDate(b) && IsoFields(b) == cb && 1000 <= cb.year
    requires cb == Calendar.Neighbour(ca, k)
    ensures MovedBy(a, k) == b
  {
    MovedByDate(a, k);
    IsoText(b);
  }

  /** next across the end of a year: 2023-12-31 to 2024-01-01. */
  lemma NextAcrossYear()
    ensures MovedBy("2023-12-31", 1) == "2024-01-01"
  {
    IsoLiteral("2023-12-31", Calendar.Date(2023, 12, 31));
    IsoLiteral("2024-01-01", Calendar.Date(2024, 1, 1));
    Step("2023-12-31", Calendar.Date(2023, 12, 31), "2024-01-01", Calendar.Date(2024, 1, 1), 1);
  }

  /** next onto a leap day: 2024-02-28 to 2024-02-29. */
  lemma NextLeapDay()
    ensures MovedBy("2024-02-28", 1) == "2024-02-29"
  {
    IsoLiteral("2024-02-28", Calendar.Date(2024, 2, 28));
    IsoLiteral("2024-02-29", Calendar.Date(2024, 2, 29));
    Step("2024-02-28", Calendar.Date(2024, 2, 28), "2024-02-29", Calendar.Date(2024, 2, 29), 1);
  }

  /** next past the end of February in a common year: 2023-02-28 to 2023-03-01. */
  lemma NextCommonYear()
    ensures MovedBy("2023-02-28", 1) == "2023-03-01"
  {
    IsoLiteral("2023-02-28", Calendar.Date(2023, 2, 28));
    IsoLiteral("2023-03-01", Calendar.Date(2023, 3, 1));
    Step("2023-02-28", Calendar.Date(2023, 2, 28), "2023-03-01", Calendar.Date(2023, 3, 1), 1);
  }

  /** previous back across the start of a year: 2024-01-01 to 2023-12-31. */
  lemma PreviousAcrossYear()
    ensures MovedBy("2024-01-01", -1) == "2023-12-31"
  {
    IsoLiteral("2023-12-31", Calendar.Date(2023, 12, 31));
    IsoLiteral("2024-01-01", Calendar.Date(2024, 1, 1));
    Step("2024-01-01", Calendar.Date(2024, 1, 1), "2023-12-31", Calendar.Date(2023, 12, 31), -1);
  }

  /** previous back onto a leap day: 2024-03-01 to 2024-02-29. */
  lemma PreviousLeapDay()
    ensures MovedBy("2024-03-01", -1) == "2024-02-29"
  {
    IsoLiteral("2024-02-29", Calendar.Date(2024, 2, 29));
    IsoLiteral("2024-03-01", Calendar.Date(2024, 3, 1));
    Step("2024-03-01", Calendar.Date(2024, 3, 1), "2024-02-29", Calendar.Date(2024, 2, 29), -1);
  }

  /** next: the date one day after a YYYY-MM-DD string, moved on a local Date object. */
  method Next(currentDate: string) returns (r: string)
    ensures r == MovedBy(currentDate, 1)
    ensures IsIsoDate(currentDate) && 100 <= IsoFields(currentDate).year
            ==> r == DateText(Calendar.NextDay(IsoFields(currentDate)))
  {
    var parts := Split(currentDate, '-');
    var year, month, day := Part(parts, 0), Part(parts, 1), Part(parts, 2);
    month := Number(Subtract(ToNumberValue(month), FromInt(1)));
    var date := new DateObject(ToNumberValue(year), ToNumberValue(month), ToNumberValue(day));
    assert date.value == Built(currentDate);
    date.SetMonth(date.Month());
    date.SetDate(Add(date.Date(), FromInt(1)));
    assert date.value == SetterSteps(Built(currentDate), 1) by {
      SetterStepsUnfold(Built(currentDate), 1);
    }
    r := AsDateString(date.value);
    if IsIsoDate(currentDate) && 100 <= IsoFields(currentDate).year {
      MovedByDate(currentDate, 1);
    }
  }

  /** previous: the date one day before a YYYY-MM-DD string. */
  method Previous(currentDate: string) returns (r: string)
    ensures r == MovedBy(currentDate, -1)
    ensures IsIsoDate(currentDate) && 100 <= IsoFields(currentDate).year
            ==> r == DateText(Calendar.PrevDay(IsoFields(currentDate)))
  {
    var parts := Split(currentDate, '-');
    var year, month, day := Part(parts, 0), Part(parts, 1), Part(parts, 2);
    month := Number(Subtract(ToNumberValue(month), FromInt(1)));
    var date := new DateObject(ToNumberValue(year), ToNumberValue(month), ToNumberValue(day));
    assert date.value == Built(currentDate);
    date.SetMonth(date.Month());
    date.SetDate(Subtract(date.Date(), FromInt(1)));
    assert date.value == SetterSteps(Built(currentDate), -1) by {
      SetterStepsUnfold(Built(currentDate), -1);
    }
    r := AsDateString(date.value);
    if IsIsoDate(currentDate) && 100 <= IsoFields(currentDate).year {
      MovedByDate(currentDate, -1);
    }
  }
  // ---------------------------------------------------------------------------
  // formatDate

  /** String.prototype.slice(start, end) for start <= end: both ends are
      clamped to the length of the string. */
  function Slice(s: string, start: nat, end: nat): (r: string)
    requires start <= end
    ensures |r| == Min(end, |s|) - Min(start, |s|)
    ensures end <= |s| ==> r == s[start..end]
  {
    var from := Min(start, |s|);
    var to := Min(end, |s|);
    s[from..to]
  }

  /** The object formatDate looks month names up in, keyed by the property
      names its numeric keys 1..12 become. */
  const Months: map<string, string> := map[
    "1" := "January", "2" := "February", "3" := "March", "4" := "April",
    "5" := "May", "6" := "June", "7" := "July", "8" := "August",
    "9" := "September", "10" := "October", "11" := "November", "12" := "December"]

  const MonthNamesLong: seq<string> :=
    ["January", "February", "March", "April", "May", "June", "July", "August",
     "September", "October", "November", "December"]

  /** months[n]: the number is turned into a property name; a missing
      property reads as undefined. */
  function MonthOf(n: Num): (r: Value)
    ensures r.Str? || r.Undefined?
    ensures r.Str? ==> r.s in Months.Values
    ensures !n.Finite? ==> r.Undefined?
  {
    var key := NumberToString(n);
    if key in Months then Str(Months[key]) else Undefined
  }

  /** `${month} ${day}, ${year}` from the fields at 5..7, 8..10 and 0..4. */
  function FormatDate(date: string): string {
    var month := MonthOf(ToNumber(Slice(date, 5, 7)));
    var day := ToNumber(Slice(date, 8, 10));
    var year := ToNumber(Slice(date, 0, 4));
    ToString(month) + " " + NumberToString(day) + ", " + NumberToString(year)
  }

  /** The month table holds the decimal forms of 1..12 and no other number. */
  lemma MonthsTable(m: nat)
    ensures NatToString(m) in Months <==> 1 <= m <= 12
    ensures 1 <= m <= 12 ==> Months[NatToString(m)] == MonthNamesLong[m - 1]
  {
    if 1 <= m <= 12 {
      MonthEntry(m);
    } else {
      KeyInRange(m);
    }
  }

  /** The months 1..12 each have their English name in the table. */
  lemma MonthEntry(m: nat)
    requires 1 <= m <= 12
    ensures NatToString(m) in Months && Months[NatToString(m)] == MonthNamesLong[m - 1]
  {
    var key := NatToString(m);
    if m < 10 {
      assert key == [DigitChar(m)];
    } else {
      assert key == NatToString(1) + [DigitChar(m - 10)];
    }
    if m == 1 { assert key == "1"; } else if m == 2 { assert key == "2"; }
    else if m == 3 { assert key == "3"; } else if m == 4 { assert key == "4"; }
    else if m == 5 { assert key == "5"; } else if m == 6 { assert key == "6"; }
    else if m == 7 { assert key == "7"; } else if m == 8 { assert key == "8"; }
    else if m == 9 { assert key == "9"; } else if m == 10 { assert key == "10"; }
    else if m == 11 { assert key == "11"; } else { assert key == "12"; }
  }

  /** Only the decimal forms of 1..12 are keys of the table. */
  lemma KeyInRange(m: nat)
    ensures NatToString(m) in Months ==> 1 <= m <= 12
  {
    var key := NatToString(m);
    if key in Months {
      NatToStringValue(m);
      KeyValue(key);
    }
  }

  /** Each key of the month table is the decimal form of 1..12. */
  lemma KeyValue(key: string)
    requires key in Months
    ensures AllDigits(key) && 1 <= DigitsValue(key) <= 12
  {
    MonthKeys(key);
    if |key| == 2 {
      TwoDigitKey(key);
    } else {
      OneDigitKey(key);
    }
  }

  lemma MonthKeys(key: string)
    requires key in Months
    ensures key == "10" || key == "11" || key == "12" || (|key| == 1 && '1' <= key[0] <= '9')
  {
  }

  lemma OneDigitKey(key: string)
    requires |key| == 1 && '1' <= key[0] <= '9'
    ensures AllDigits(key) && 1 <= DigitsValue(key) <= 9
  {
    assert key[..0] == [];
  }

  lemma TwoDigitKey(key: string)
    requires key == "10" || key == "11" || key == "12"
    ensures AllDigits(key) && 10 <= DigitsValue(key) <= 12
  {
    assert key[..1] == "1";
    DigitsValueSmall(key);
  }

  /** A field of up to four digits converts to the Number of its value,
      which prints as its decimal form. */
  lemma FieldText(s: string, i: nat, j: nat)
    requires i < j <= |s| && j - i <= 4 && AllDigits(s[i..j])
    ensures ToNumber(Slice(s, i, j)) == FromInt(DigitsValue(s[i..j]))
    ensures NumberToString(ToNumber(Slice(s, i, j))) == NatToString(DigitsValue(s[i..j]))
  {
    var t := s[i..j];
    DigitsToNumber(t);
    assert DigitsValue(t) < Pow10(21) by {
      DigitsValueBound(t);
      Pow10Monotone(|t|, 21);
    }
    IntegerToString(DigitsValue(t));
  }

  /** The month name formatDate prints for a month number m. */
  lemma MonthText(m: nat)
    requires m < 100
    ensures ToString(MonthOf(FromInt(m))) == if 1 <= m <= 12 then MonthNamesLong[m - 1] else "undefined"
  {
    assert NumberToString(FromInt(m)) == NatToString(m) by {
      assert Pow10(21) >= 100 by {
        assert Pow10(2) == 100;
        Pow10Monotone(2, 21);
      }
      IntegerToString(m);
    }
    MonthsTable(m);
  }

  /** The month number formatDate reads from a string starting YYYY-MM-DD. */
  lemma IsoMonthNumber(s: string)
    requires |s| >= 10 && MatchAt(DatePattern, s, 0)
    ensures AllDigits(s[5..7])
    ensures ToNumber(Slice(s, 5, 7)) == FromInt(DigitsValue(s[5..7])) && DigitsValue(s[5..7]) < 100
  {
    assert AllDigits(s[5..7]);
    DigitsToNumber(s[5..7]);
    DigitsValueBound(s[5..7]);
    assert Pow10(2) == 100;
  }

  /** The day and year formatDate prints for a string starting YYYY-MM-DD. */
  lemma IsoDayYearText(s: string)
    requires |s| >= 10 && MatchAt(DatePattern, s, 0)
    ensures AllDigits(s[..4]) && AllDigits(s[8..10])
    ensures NumberToString(ToNumber(Slice(s, 8, 10))) == NatToString(DigitsValue(s[8..10]))
    ensures NumberToString(ToNumber(Slice(s, 0, 4))) == NatToString(DigitsValue(s[..4]))
  {
    assert AllDigits(s[0..4]) && AllDigits(s[8..10]);
    assert s[0..4] == s[..4];
    FieldText(s, 0, 4);
    FieldText(s, 8, 10);
  }

  /** For a string starting YYYY-MM-DD, formatDate gives the English name
      of a month 01..12 (undefined for any other), then the day and the year
      as decimal numbers without leading zeros. */
  lemma FormatDateOfIso(s: string)
    requires |s| >= 10 && MatchAt(DatePattern, s, 0)
    ensures AllDigits(s[..4]) && AllDigits(s[5..7]) && AllDigits(s[8..10])
    ensures var y, m, d := DigitsValue(s[..4]), DigitsValue(s[5..7]), DigitsValue(s[8..10]);
            FormatDate(s) == (if 1 <= m <= 12 then MonthNamesLong[m - 1] else "undefined")
                             + " " + NatToString(d) + ", " + NatToString(y)
  {
    IsoMonthNumber(s);
    MonthText(DigitsValue(s[5..7]));
    IsoDayYearText(s);
  }

  /** A digit string without a leading zero is the decimal form of its value. */
  lemma NoLeadingZero(t: string)
    requires AllDigits(t) && |t| >= 1 && t[0] != '0'
    ensures NatToString(DigitsValue(t)) == t
  {
    var x := NatToString(DigitsValue(t));
    PadDigits(t);
    ZerosAreZero(|t| - |x|);
  }

  /** When neither the year nor the day starts with 0, formatDate copies
      them as written. */
  lemma FormatDateCopies(s: string)
    requires |s| >= 10 && MatchAt(DatePattern, s, 0) && s[0] != '0' && s[8] != '0'
    ensures var m := DigitsValue(s[5..7]);
            FormatDate(s) == (if 1 <= m <= 12 then MonthNamesLong[m - 1] else "undefined")
                             + " " + s[8..10] + ", " + s[..4]
  {
    assert AllDigits(s[..4]) && AllDigits(s[8..10]);
    NoLeadingZero(s[..4]);
    NoLeadingZero(s[8..10]);
    FormatDateOfIso(s);
  }

  // ---------------------------------------------------------------------------
  // formatTime

  /** What formatTime prints for any string: hour and minutes are the
      strings time[0] + time[1] and time[3] + time[4]; an hour of 12 or more
      becomes PM, 12 stays 12 and a later hour loses 12. */
  function ClockFace(time: string): string {
    var hour := Plus(CharAt(time, 0), CharAt(time, 1));
    var minutes := Plus(CharAt(time, 3), CharAt(time, 4));
    var h := ToNumberValue(hour);
    if LessEq(FromInt(12), h) then
      var shown := if Equal(h, FromInt(12)) then Number(FromInt(12)) else Number(Subtract(h, FromInt(12)));
      ToString(shown) + ":" + ToString(minutes) + " PM"
    else ToString(hour) + ":" + ToString(minutes) + " AM"
  }

  /** The twelve-hour form of a time starting HH:MM, read as whole numbers:
      hours before noon keep their two characters, 12 is printed 12 and
      later hours are printed from 1 unpadded; the minutes are copied. */
  function TwelveHour(time: string): string
    requires MatchAt(TimePattern, time, 0)
  {
    var h := DigitsValue(time[..2]);
    if h < 12 then time[..2] + ":" + time[3..5] + " AM"
    else (if h == 12 then "12" else NatToString(h - 12)) + ":" + time[3..5] + " PM"
  }

  /** On a time starting HH:MM, formatTime's hour string is the first two
      characters and converts to their value, which is below 100. */
  lemma ClockHour(time: string)
    requires MatchAt(TimePattern, time, 0)
    ensures Plus(CharAt(time, 0), CharAt(time, 1)) == Str(time[..2])
    ensures ToNumberValue(Str(time[..2])) == FromInt(DigitsValue(time[..2]))
    ensures DigitsValue(time[..2]) < 100
  {
    var hh := time[..2];
    assert hh == time[0..2] && AllDigits(hh);
    TwoCharacters(time, 0);
    FieldNumber(hh);
    TwoDigitsBelow100(hh);
  }

  lemma TwoDigitsBelow100(t: string)
    requires |t| == 2 && AllDigits(t)
    ensures DigitsValue(t) < 100
  {
    DigitsValueBound(t);
    assert Pow10(2) == 100;
  }

  lemma ClockFaceOfTime(time: string)
    requires MatchAt(TimePattern, time, 0)
    ensures ClockFace(time) == TwelveHour(time)
  {
    var h := DigitsValue(time[..2]);
    ClockFaceOfDigits(time, time[..2], time[3..5], h);
    ClockFaceByHour(ClockFace(time), time[..2], time[3..5], h);
  }

  /** formatTime on a time starting HH:MM, with its hour read as the number HH. */
  lemma ClockFaceOfDigits(time: string, hour: string, minutes: string, h: nat)
    requires MatchAt(TimePattern, time, 0)
    requires hour == time[..2] && minutes == time[3..5] && h == DigitsValue(hour)
    ensures h < 100
    ensures ClockFace(time) ==
      if LessEq(FromInt(12), FromInt(h)) then
        (if Equal(FromInt(h), FromInt(12)) then NumberToString(FromInt(12)) else NumberToString(Subtract(FromInt(h), FromInt(12))))
        + ":" + minutes + " PM"
      else hour + ":" + minutes + " AM"
  {
    assert Plus(CharAt(time, 0), CharAt(time, 1)) == Str(hour) && ToNumberValue(Str(hour)) == FromInt(h) && h < 100 by {
      ClockHour(time);
    }
    assert Plus(CharAt(time, 3), CharAt(time, 4)) == Str(minutes) by {
      TwoCharacters(time, 3);
      assert minutes == time[3..3 + 2];
    }
    ClockFaceShape(time, hour, minutes, FromInt(h));
  }

  /** The printed form chosen by formatTime's comparisons, once they are known
      to be the integer comparisons on a whole-number hour h. */
  lemma ClockFaceByHour(face: string, hour: string, minutes: string, h: nat)
    requires h < 100
    requires face ==
      if LessEq(FromInt(12), FromInt(h)) then
        (if Equal(FromInt(h), FromInt(12)) then NumberToString(FromInt(12)) else NumberToString(Subtract(FromInt(h), FromInt(12))))
        + ":" + minutes + " PM"
      else hour + ":" + minutes + " AM"
    ensures face ==
      if h < 12 then hour + ":" + minutes + " AM"
      else (if h == 12 then "12" else NatToString(h - 12)) + ":" + minutes + " PM"
  {
    HourCases(h);
  }

  /** formatTime once its hour and minute strings and the hour's Number are known. */
  lemma ClockFaceShape(time: string, hour: string, minutes: string, hv: Num)
    requires Plus(CharAt(time, 0), CharAt(time, 1)) == Str(hour)
    requires Plus(CharAt(time, 3), CharAt(time, 4)) == Str(minutes)
    requires ToNumberValue(Str(hour)) == hv
    ensures ClockFace(time) ==
      if LessEq(FromInt(12), hv) then
        (if Equal(hv, FromInt(12)) then NumberToString(FromInt(12)) else NumberToString(Subtract(hv, FromInt(12))))
        + ":" + minutes + " PM"
      else hour + ":" + minutes + " AM"
  {
  }

  /** The comparisons formatTime makes on a whole-number hour h, and what it prints for it. */
  lemma HourCases(h: nat)
    requires h < 100
    ensures LessEq(FromInt(12), FromInt(h)) <==> h >= 12
    ensures Equal(FromInt(h), FromInt(12)) <==> h == 12
    ensures NumberToString(FromInt(12)) == "12"
    ensures h > 12 ==> NumberToString(Subtract(FromInt(h), FromInt(12))) == NatToString(h - 12)
  {
    FromIntCompare(h, 12);
    TwelveText();
    if h > 12 {
      assert Pow10(21) >= 100 by {
        assert Pow10(2) == 100;
        Pow10Monotone(2, 21);
      }
      IntegerToString(h - 12);
    }
  }

  lemma TwelveText()
    ensures NumberToString(FromInt(12)) == "12"
  {
    assert PositiveToString(12, 0) == NatToString(12);
    assert NatToString(12) == NatToString(1) + [DigitChar(2)];
  }

  /** The hour of a time starting HH:MM, digit by digit. */
  lemma HourDigits(t: string)
    requires MatchAt(TimePattern, t, 0)
    ensures DigitsValue(t[..2]) == 10 * DigitValue(t[0]) + DigitValue(t[1])
  {
    DigitsValueSmall(t[..2]);
  }

  /** Before noon the hour keeps its leading zero: 00:15 is 00:15 AM. */
  lemma ClockFaceMidnight(t: string)
    requires t == "00:15"
    ensures ClockFace(t) == "00:15 AM"
  {
    assert t[..2] == "00" && t[3..5] == "15";
    assert "00" + ":" + "15" + " AM" == "00:15 AM";
    assert MatchAt(TimePattern, t, 0);
    assert DigitsValue(t[..2]) == 0 by {
      HourDigits(t);
    }
    assert TwelveHour(t) == t[..2] + ":" + t[3..5] + " AM";
    ClockFaceOfTime(t);
  }

  /** Noon stays 12: 12:30 is 12:30 PM. */
  lemma ClockFaceNoon(t: string)
    requires t == "12:30"
    ensures ClockFace(t) == "12:30 PM"
  {
    assert t[3..5] == "30";
    assert "12" + ":" + "30" + " PM" == "12:30 PM";
    assert MatchAt(TimePattern, t, 0);
    assert DigitsValue(t[..2]) == 12 by {
      HourDigits(t);
    }
    assert TwelveHour(t) == "12" + ":" + t[3..5] + " PM";
    ClockFaceOfTime(t);
  }

  /** After noon the hour is printed without padding: 18:05 is 6:05 PM. */
  lemma ClockFaceEvening(t: string)
    requires t == "18:05"
    ensures ClockFace(t) == "6:05 PM"
  {
    assert t[3..5] == "05";
    assert NatToString(6) == "6";
    assert "6" + ":" + "05" + " PM" == "6:05 PM";
    assert MatchAt(TimePattern, t, 0);
    assert DigitsValue(t[..2]) == 18 by {
      HourDigits(t);
    }
    assert TwelveHour(t) == NatToString(6) + ":" + t[3..5] + " PM";
    ClockFaceOfTime(t);
  }

  /** formatTime: hour and meridiem are reassigned when the hour is 12 or later. */
  method FormatTime(time: string) returns (r: string)
    ensures r == ClockFace(time)
    ensures MatchAt(TimePattern, time, 0) ==> r == TwelveHour(time)
  {
    var hour := Plus(CharAt(time, 0), CharAt(time, 1));
    var minutes := Plus(CharAt(time, 3), CharAt(time, 4));
    var meridiem := "AM";
    if LessEq(FromInt(12), ToNumberValue(hour)) {
      meridiem := "PM";
      if Equal(ToNumberValue(hour), FromInt(12)) {
        hour := Number(FromInt(12));
      } else {
        hour := Number(Subtract(ToNumberValue(hour), FromInt(12)));
      }
    }
    r := ToString(hour) + ":" + ToString(minutes) + " " + meridiem;
    assert r == ClockFace(time);
    if MatchAt(TimePattern, time, 0) {
      ClockFaceOfTime(time);
    }
  }

  // ---------------------------------------------------------------------------
  // formatPhone

  /** replace(/\D/g, ""): the digits of s, in order. */
  function DigitsOnly(s: string): (r: string)
    ensures AllDigits(r) && |r| <= |s|
  {
    if s == [] then []
    else (if IsDigit(s[0]) then [s[0]] else []) + DigitsOnly(s[1..])
  }

  lemma {:induction false} DigitsOnlyOfDigits(s: string)
    requires AllDigits(s)
    ensures DigitsOnly(s) == s
  {
    if s != [] {
      DigitsOnlyOfDigits(s[1..]);
      assert [s[0]] + s[1..] == s;
    }
  }

  /** A single character survives exactly when it is a digit. */
  lemma DigitsOnlyChar(c: char)
    ensures DigitsOnly([c]) == if IsDigit(c) then [c] else []
  {
    assert [c][1..] == [];
  }

  /** Every digit occurs in the result as often as in the input. */
  lemma {:induction false} DigitsOnlyCounts(s: string)
    ensures forall c | IsDigit(c) :: multiset(DigitsOnly(s))[c] == multiset(s)[c]
  {
    if s != [] {
      DigitsOnlyCounts(s[1..]);
      assert s == [s[0]] + s[1..];
      assert multiset(s) == multiset([s[0]]) + multiset(s[1..]);
    }
  }

  lemma {:induction false} DigitsOnlyConcat(a: string, b: string)
    ensures DigitsOnly(a + b) == DigitsOnly(a) + DigitsOnly(b)
  {
    if a != [] {
      assert (a + b)[1..] == a[1..] + b;
      DigitsOnlyConcat(a[1..], b);
    } else {
      assert a + b == b;
    }
  }

  /** The groups of a match of /^(1|)?(\d{3})?(\d{3})(\d{4})$/: whether the
      leading 1 was taken, the area code if present, then 3 and 4 digits. */
  datatype PhoneGroups = PhoneGroups(intl: bool, area: Option<string>, exchange: string, line: string)

  /** The subject has the shape of the pattern with the optional "1" taken
      when intl and the optional area code taken when area. */
  predicate Fits(c: string, intl: bool, area: bool) {
    var start := if intl then 1 else 0;
    && |c| == start + (if area then 3 else 0) + 7
    && (intl ==> c[0] == '1')
    && AllDigits(c[start..])
  }

  /** The match, tried in the order the pattern's greedy optional groups
      backtrack: 1 and area code, 1 alone, area code alone, neither. */
  function PhoneMatch(c: string): (r: Option<PhoneGroups>)
    ensures r.Some? ==> Fits(c, r.value.intl, r.value.area.Some?)
    ensures r.None? <==> forall intl: bool, area: bool :: !Fits(c, intl, area)
    ensures r.Some? ==> |r.value.exchange| == 3 && |r.value.line| == 4
                        && (r.value.area.Some? ==> |r.value.area.value| == 3)
                        && (if r.value.intl then "1" else "") + (if r.value.area.Some? then r.value.area.value else "")
                           + r.value.exchange + r.value.line == c
    ensures r.Some? ==> AllDigits(r.value.exchange) && AllDigits(r.value.line)
                        && (r.value.area.Some? ==> AllDigits(r.value.area.value))
  {
    if Fits(c, true, true) then
      assert c == "1" + c[1..4] + c[4..7] + c[7..] by { assert c[..1] == "1"; }
      Some(PhoneGroups(true, Some(c[1..4]), c[4..7], c[7..]))
    else if Fits(c, true, false) then
      assert c == "1" + c[1..4] + c[4..] by { assert c[..1] == "1"; }
      Some(PhoneGroups(true, None, c[1..4], c[4..]))
    else if Fits(c, false, true) then
      assert c == c[..3] + c[3..6] + c[6..];
      Some(PhoneGroups(false, Some(c[..3]), c[3..6], c[6..]))
    else if Fits(c, false, false) then
      assert c == c[..3] + c[3..];
      Some(PhoneGroups(false, None, c[..3], c[3..]))
    else None
  }

  /** The lengths 11, 8, 10 and 7 tell the four shapes apart, so a subject
      fits at most one of them and the backtracking order decides nothing. */
  lemma FitsUnique(c: string, intl1: bool, area1: bool, intl2: bool, area2: bool)
    requires Fits(c, intl1, area1) && Fits(c, intl2, area2)
    ensures intl1 == intl2 && area1 == area2
  {
  }

  function PhoneText(g: PhoneGroups): string {
    (if g.intl then "+1 " else "") + (if g.area.Some? then "(" + g.area.value + ")" else "")
    + g.exchange + "-" + g.line
  }

  /** The digits formatPhone works on: those of "" + number. */
  function Cleaned(number: Value): string {
    DigitsOnly(ToString(Plus(Str(""), number)))
  }

  /** The digits of a formatted number: the groups in order, after the 1 of "+1 ". */
  lemma PhoneTextDigits(g: PhoneGroups)
    requires AllDigits(g.exchange) && AllDigits(g.line) && (g.area.Some? ==> AllDigits(g.area.value))
    ensures DigitsOnly(PhoneText(g)) ==
              (if g.intl then "1" else "") + (if g.area.Some? then g.area.value else "") + g.exchange + g.line
  {
    var p := if g.intl then "+1 " else "";
    var a := if g.area.Some? then "(" + g.area.value + ")" else "";
    assert DigitsOnly(p) == if g.intl then "1" else "" by {
      if g.intl {
        IntlPrefixDigits();
      } else {
        assert p == [];
      }
    }
    assert DigitsOnly(a) == if g.area.Some? then g.area.value else "" by {
      if g.area.Some? {
        AreaCodeDigits(g.area.value);
      } else {
        assert a == [];
      }
    }
    assert PhoneText(g) == p + a + g.exchange + "-" + g.line;
    GroupsDigits(p, a, g.exchange, g.line);
  }

  lemma IntlPrefixDigits()
    ensures DigitsOnly("+1 ") == "1"
  {
    assert "+1 " == "+" + ("1" + " ");
    DigitsOnlyConcat("+", "1" + " ");
    DigitsOnlyConcat("1", " ");
    DigitsOnlyChar('+');
    DigitsOnlyChar('1');
    DigitsOnlyChar(' ');
  }

  lemma AreaCodeDigits(v: string)
    requires AllDigits(v)
    ensures DigitsOnly("(" + v + ")") == v
  {
    DigitsOnlyConcat("(" + v, ")");
    DigitsOnlyConcat("(", v);
    DigitsOnlyChar('(');
    DigitsOnlyChar(')');
    DigitsOnlyOfDigits(v);
  }

  lemma GroupsDigits(p: string, a: string, e: string, l: string)
    requires AllDigits(e) && AllDigits(l)
    ensures DigitsOnly(p + a + e + "-" + l) == DigitsOnly(p) + DigitsOnly(a) + e + l
  {
    DropDash(p + a + e, l);
    DigitsOnlyConcat(p + a, e);
    DigitsOnlyConcat(p, a);
    DigitsOnlyOfDigits(e);
    DigitsOnlyOfDigits(l);
  }

  /** formatPhone: the formatted digits when they match, the argument itself
      otherwise. The formatted text keeps exactly the digits it was made from. */
  function FormatPhone(number: Value): (r: Value)
    ensures PhoneMatch(Cleaned(number)).None? ==> r == number
    ensures PhoneMatch(Cleaned(number)).Some? ==> r.Str? && Cleaned(r) == Cleaned(number)
  {
    match PhoneMatch(Cleaned(number))
    case Some(g) =>
      PhoneTextDigits(g);
      CleanedString(PhoneText(g));
      Str(PhoneText(g))
    case None => number
  }

  /** Formatting a formatted number changes nothing. */
  lemma FormatPhoneIdempotent(number: Value)
    ensures FormatPhone(FormatPhone(number)) == FormatPhone(number)
  {
  }

  /** Inputs whose digits agree and match format alike, whatever else they hold. */
  lemma FormatPhoneDigitsOnly(a: Value, b: Value)
    requires Cleaned(a) == Cleaned(b) && PhoneMatch(Cleaned(a)).Some?
    ensures FormatPhone(a) == FormatPhone(b)
  {
  }

  /** "" + s is s for a string. */
  lemma CleanedString(s: string)
    ensures Cleaned(Str(s)) == DigitsOnly(s)
  {
    assert Plus(Str(""), Str(s)) == Str("" + s);
    assert "" + s == s;
  }

  /** The four layouts of a digit string, and no match for other lengths. */
  lemma PhoneLayouts(c: string)
    requires AllDigits(c)
    ensures |c| == 10 ==> PhoneMatch(c).Some? && PhoneText(PhoneMatch(c).value) == "(" + c[..3] + ")" + c[3..6] + "-" + c[6..]
    ensures |c| == 11 && c[0] == '1' ==> PhoneMatch(c).Some? && PhoneText(PhoneMatch(c).value) == "+1 (" + c[1..4] + ")" + c[4..7] + "-" + c[7..]
    ensures |c| == 7 ==> PhoneMatch(c).Some? && PhoneText(PhoneMatch(c).value) == c[..3] + "-" + c[3..]
    ensures |c| == 8 && c[0] == '1' ==> PhoneMatch(c).Some? && PhoneText(PhoneMatch(c).value) == "+1 " + c[1..4] + "-" + c[4..]
    ensures |c| != 10 && |c| != 7 && !((|c| == 11 || |c| == 8) && c[0] == '1') ==> PhoneMatch(c).None?
  {
    if |c| == 10 {
      assert Fits(c, false, true);
    } else if |c| == 11 && c[0] == '1' {
      assert Fits(c, true, true);
      assert "+1 " + ("(" + c[1..4] + ")") == "+1 (" + c[1..4] + ")";
    } else if |c| == 7 {
      assert Fits(c, false, false);
    } else if |c| == 8 && c[0] == '1' {
      assert Fits(c, true, false);
    }
  }

  /** formatPhone in its four layouts, and the argument returned unchanged
      for any other count of digits. */
  lemma FormatPhoneCases(number: Value)
    ensures var c := Cleaned(number);
      && (|c| == 10 ==> FormatPhone(number) == Str("(" + c[..3] + ")" + c[3..6] + "-" + c[6..]))
      && (|c| == 11 && c[0] == '1' ==> FormatPhone(number) == Str("+1 (" + c[1..4] + ")" + c[4..7] + "-" + c[7..]))
      && (|c| == 7 ==> FormatPhone(number) == Str(c[..3] + "-" + c[3..]))
      && (|c| == 8 && c[0] == '1' ==> FormatPhone(number) == Str("+1 " + c[1..4] + "-" + c[4..]))
      && (|c| != 10 && |c| != 7 && !((|c| == 11 || |c| == 8) && c[0] == '1') ==> FormatPhone(number) == number)
  {
    PhoneLayouts(Cleaned(number));
  }

  /** A dash is dropped by the cleaning step. */
  lemma DropDash(x: string, y: string)
    ensures DigitsOnly(x + "-" + y) == DigitsOnly(x) + DigitsOnly(y)
  {
    var dash := "-";
    assert DigitsOnly(dash) == [] by {
      assert dash[1..] == [];
    }
    DigitsOnlyConcat(x + dash, y);
    DigitsOnlyConcat(x, dash);
  }

  /** Dashes between digit groups are dropped by the cleaning step. */
  lemma DigitsOnlyDashed(a: string, b: string, c: string)
    requires AllDigits(a) && AllDigits(b) && AllDigits(c)
    ensures DigitsOnly(a + "-" + b + "-" + c) == a + b + c
  {
    DropDash(a + "-" + b, c);
    DropDash(a, b);
    DigitsOnlyOfDigits(a);
    DigitsOnlyOfDigits(b);
    DigitsOnlyOfDigits(c);
  }

  /** A ten-digit number written 3-3-4 with dashes gets its area code in parentheses. */
  lemma FormatPhoneDashed(a: string, b: string, c: string)
    requires AllDigits(a) && AllDigits(b) && AllDigits(c)
    requires |a| == 3 && |b| == 3 && |c| == 4
    ensures FormatPhone(Str(a + "-" + b + "-" + c)) == Str("(" + a + ")" + b + "-" + c)
  {
    var s := a + "-" + b + "-" + c;
    DigitsOnlyDashed(a, b, c);
    CleanedString(s);
    var digits := a + b + c;
    assert digits[..3] == a && digits[3..6] == b && digits[6..] == c;
    FormatPhoneCases(Str(s));
  }

  lemma FormatPhoneExample(s: string)
    requires s == "555-123-4567"
    ensures FormatPhone(Str(s)) == Str("(555)123-4567")
  {
    assert s == "555" + "-" + "123" + "-" + "4567";
    assert "(" + "555" + ")" + "123" + "-" + "4567" == "(555)123-4567";
    FormatPhoneDashed("555", "123", "4567");
  }
}
