/** Calendar arithmetic of `calendarUtils.ts`, over proleptic Gregorian civil
    dates. A JavaScript `Date` is modelled by the civil day it falls on (the
    gap between local time and UTC is not modelled); day numbers count days
    from 1970-01-01, which was a Thursday. */
module Calendar {
  import opened Common
  import opened Text
  import opened JsNumbers

  // ---------------------------------------------------------------------------
  // Gregorian calendar

  predicate IsLeapYear(y: int)
  {
    (y % 4 == 0 && y % 100 != 0) || y % 400 == 0
  }

  function DaysInMonth(y: int, m: int): (n: int)
    requires 1 <= m <= 12
    ensures 28 <= n <= 31
    ensures m == 2 ==> (n == 29 <==> IsLeapYear(y)) && (n == 28 <==> !IsLeapYear(y))
    ensures m in {4, 6, 9, 11} ==> n == 30
    ensures m in {1, 3, 5, 7, 8, 10, 12} ==> n == 31
  {
    if m == 2 then (if IsLeapYear(y) then 29 else 28)
    else if m in {4, 6, 9, 11} then 30
    else 31
  }

  datatype Date = Date(year: int, month: int, day: int)

  predicate ValidDate(d: Date)
  {
    1 <= d.month <= 12 && 1 <= d.day <= DaysInMonth(d.year, d.month)
  }

  type CivilDate = d: Date | ValidDate(d) witness Date(1970, 1, 1)

  /** Leap years strictly before year `y` (counted from year 1). */
  function LeapYearsBefore(y: int): int
  {
    (y - 1) / 4 - (y - 1) / 100 + (y - 1) / 400
  }

  function DaysBeforeYear(y: int): int
  {
    365 * (y - 1970) + LeapYearsBefore(y) - LeapYearsBefore(1970)
  }

  function DaysBeforeMonth(y: int, m: int): int
    requires 1 <= m <= 12
  {
    var common := [0, 31, 59, 90, 120, 151, 181, 212, 243, 273, 304, 334][m - 1];
    if m > 2 && IsLeapYear(y) then common + 1 else common
  }

  /** Days since 1970-01-01 (negative before it). */
  function DayNumber(d: CivilDate): int
  {
    DaysBeforeYear(d.year) + DaysBeforeMonth(d.year, d.month) + d.day - 1
  }

  lemma DayNumberEpoch()
    ensures DayNumber(Date(1970, 1, 1)) == 0
  {
  }

  /** `date.getDay()`: 0 is Sunday, 6 is Saturday. */
  function Weekday(d: CivilDate): (w: int)
    ensures 0 <= w < 7
  {
    WeekdayOf(DayNumber(d))
  }

  /** The weekday of day number `n`. */
  function WeekdayOf(n: int): (w: int)
    ensures 0 <= w < 7
  {
    (n + 4) % 7
  }

  lemma DivStep(y: int, k: int)
    requires k == 4 || k == 100 || k == 400
    ensures y / k - (y - 1) / k == if y % k == 0 then 1 else 0
  {
  }

  /** Year `y` adds one to the leap years counted before the next year
      exactly when it is a leap year itself. */
  lemma LeapStep(y: int)
    ensures LeapYearsBefore(y + 1) - LeapYearsBefore(y) == if IsLeapYear(y) then 1 else 0
  {
    DivStep(y, 4);
    DivStep(y, 100);
    DivStep(y, 400);
    if y % 400 == 0 {
      var q := y / 400;
      assert y == 100 * (4 * q);
    }
    if y % 100 == 0 {
      var q := y / 100;
      assert y == 4 * (25 * q);
    }
  }

  /** A year has 366 days exactly when it is a leap year. */
  lemma YearLength(y: int)
    ensures DaysBeforeYear(y + 1) - DaysBeforeYear(y) == if IsLeapYear(y) then 366 else 365
  {
    LeapStep(y);
  }

  lemma MonthLength(y: int, m: int)
    requires 1 <= m < 12
    ensures DaysBeforeMonth(y, m + 1) == DaysBeforeMonth(y, m) + DaysInMonth(y, m)
  {
  }

  lemma LastMonthLength(y: int)
    ensures DaysBeforeMonth(y, 12) + DaysInMonth(y, 12) == DaysBeforeYear(y + 1) - DaysBeforeYear(y)
  {
    YearLength(y);
  }

  /** The civil day before `d` (`setDate(getDate() - 1)`). */
  function PrevDay(d: CivilDate): CivilDate
  {
    if d.day > 1 then Date(d.year, d.month, d.day - 1)
    else if d.month > 1 then Date(d.year, d.month - 1, DaysInMonth(d.year, d.month - 1))
    else Date(d.year - 1, 12, 31)
  }

  /** The day before `d` has the day number one less. */
  lemma PrevDayNumber(d: CivilDate)
    ensures DayNumber(PrevDay(d)) == DayNumber(d) - 1
  {
    if d.day == 1 {
      if d.month > 1 {
        MonthLength(d.year, d.month - 1);
      } else {
        LastMonthLength(d.year - 1);
      }
    }
  }

  /** The day `k` days before `d`, reached one day at a time. */
  function DaysBack(d: CivilDate, k: nat): CivilDate
  {
    if k == 0 then d else PrevDay(DaysBack(d, k - 1))
  }

  /** Walking back `k` days lowers the day number by `k`. */
  lemma {:induction false} DaysBackNumber(d: CivilDate, k: nat)
    ensures DayNumber(DaysBack(d, k)) == DayNumber(d) - k
  {
    if k > 0 {
      DaysBackNumber(d, k - 1);
      PrevDayNumber(DaysBack(d, k - 1));
    }
  }

  lemma WeekdayOfPrevDay(d: CivilDate)
    ensures Weekday(PrevDay(d)) == (Weekday(d) + 6) % 7
  {
    PrevDayNumber(d);
    WeekdayStep(DayNumber(d));
  }

  lemma WeekdayStep(n: int)
    ensures WeekdayOf(n - 1) == (WeekdayOf(n) + 6) % 7
  {
  }

  // ---------------------------------------------------------------------------
  // The JavaScript `Date(year, monthIndex, day)` constructor

  /** Years 0 to 99 given to the `Date` constructor mean 1900 to 1999. */
  function JsFullYear(year: int): int
  {
    if 0 <= year <= 99 then 1900 + year else year
  }

  /** `new Date(year, monthIndex, 1)`: an out-of-range month index rolls over
      into the neighbouring years. */
  function FirstOfMonth(year: int, monthIndex: int): (d: CivilDate)
    ensures d.day == 1
    ensures 0 <= monthIndex < 12 ==> d.year == JsFullYear(year) && d.month == monthIndex + 1
  {
    Date(JsFullYear(year) + monthIndex / 12, monthIndex % 12 + 1, 1)
  }

  /** `new Date(year, monthIndex, 0)`: day 0 is the last day of the month before. */
  function DayZeroOfMonth(year: int, monthIndex: int): CivilDate
  {
    PrevDay(FirstOfMonth(year, monthIndex))
  }

  /** The range of `getMonthRange` and of the monthly overview: from
      `new Date(year, month - 1, 1)` to `new Date(year, month, 0)`. */
  function MonthBounds(year: int, month: int): (r: (CivilDate, CivilDate))
  {
    (FirstOfMonth(year, month - 1), DayZeroOfMonth(year, month))
  }

  /** The range starts on day 1 and ends on the last day of the same month
      (Gregorian leap rule for February), so it spans 28 to 31 days; a month
      in 1..12 of a year outside 0..99 is that very month. */
  lemma {:induction false} MonthBoundsSpan(year: int, month: int)
    ensures var (s, e) := MonthBounds(year, month);
      && s.day == 1
      && e.year == s.year && e.month == s.month
      && e.day == DaysInMonth(s.year, s.month)
      && DayNumber(s) <= DayNumber(e)
      && DayNumber(e) - DayNumber(s) + 1 == DaysInMonth(s.year, s.month)
    ensures 1 <= month <= 12 && !(0 <= year <= 99) ==>
      MonthBounds(year, month).0 == Date(year, month, 1)
  {
    var (s, e) := MonthBounds(year, month);
    var next := FirstOfMonth(year, month);
    var y := JsFullYear(year);
    if (month - 1) % 12 == 11 {
      assert month / 12 == (month - 1) / 12 + 1;
      assert next == Date(s.year + 1, 1, 1);
    } else {
      assert month / 12 == (month - 1) / 12;
      assert next == Date(s.year, s.month + 1, 1);
    }
  }

  /** `getMonthRange("YYYY-MM")`: split on "-" and read the first two fields
      with `Number`; a missing month field is `undefined`, which is NaN. */
  function GetMonthRange(monthStr: string): Option<(CivilDate, CivilDate)>
  {
    var parts := Split(monthStr, '-');
    MonthRangeOf(JsNumber(parts[0]), if |parts| >= 2 then JsNumber(parts[1]) else NaN)
  }

  /** `new Date(year, month - 1, 1)` and `new Date(year, month, 0)`: the
      constructor cuts each value to its integer part (after `month - 1` is
      computed); NaN or an infinity gives an invalid date (`None`). */
  function MonthRangeOf(year: JsNum, month: JsNum): Option<(CivilDate, CivilDate)>
  {
    if year.Finite? && month.Finite? then
      var y := Trunc(year.value);
      Some((FirstOfMonth(y, Trunc(month.value - 1.0)), DayZeroOfMonth(y, Trunc(month.value))))
    else None
  }

  /** Integral values give the bounds of month `m` of year `y`. */
  lemma MonthRangeOfInts(y: int, m: int)
    ensures MonthRangeOf(Finite(y as real), Finite(m as real)) == Some(MonthBounds(y, m))
  {
    TruncOfInt(y);
    TruncOfInt(m);
    assert m as real - 1.0 == (m - 1) as real;
    TruncOfInt(m - 1);
  }

  /** Two fields free of "-" that `Number` reads as the integers `y` and `m`
      give the bounds of month `m` of year `y`. */
  lemma MonthRangeOfFields(ys: string, ms: string, y: int, m: int)
    requires '-' !in ys && '-' !in ms
    requires JsNumber(ys) == Finite(y as real) && JsNumber(ms) == Finite(m as real)
    ensures GetMonthRange(ys + "-" + ms) == Some(MonthBounds(y, m))
  {
    SplitPair(ys, ms);
    MonthRangeOfInts(y, m);
  }

  /** A field that is not a number makes the range invalid. */
  lemma MonthRangeOfNaN(ys: string, ms: string)
    requires '-' !in ys && '-' !in ms
    requires JsNumber(ys) == NaN || JsNumber(ms) == NaN
    ensures GetMonthRange(ys + "-" + ms) == None
  {
    SplitPair(ys, ms);
  }

  /** A text with no "-" has no month field and is invalid. */
  lemma MonthRangeWithoutDash(s: string)
    requires '-' !in s
    ensures GetMonthRange(s) == None
  {
    assert Split(s, '-') == [s];
  }

  /** `Number` is loose about the month field: white space around the digits
      does not matter. */
  lemma SpacedMonthField(ys: string, y: int, w1: string, ms: string, w2: string)
    requires '-' !in ys && JsNumber(ys) == Finite(y as real)
    requires ms != [] && AllDigits(ms)
    requires forall i :: 0 <= i < |w1| ==> IsJsSpace(w1[i])
    requires forall i :: 0 <= i < |w2| ==> IsJsSpace(w2[i])
    ensures GetMonthRange(ys + "-" + (w1 + ms + w2)) == Some(MonthBounds(y, DigitsValue(ms)))
  {
    var field := w1 + ms + w2;
    assert '-' !in field by {
      DigitsExclude(ms, '-');
      assert forall i :: 0 <= i < |field| ==> field[i] != '-' by {
        forall i | 0 <= i < |field| ensures field[i] != '-' {
          if i < |w1| {
            assert field[i] == w1[i];
          } else if i < |w1| + |ms| {
            assert field[i] == ms[i - |w1|];
          } else {
            assert field[i] == w2[i - |w1| - |ms|];
          }
        }
      }
    }
    SpaceAroundIgnored(w1, ms, w2);
    DigitsRead(ms);
    MonthRangeOfFields(ys, field, y, DigitsValue(ms));
  }

  /** A `+` sign before the month digits does not matter. */
  lemma SignedMonthField(ys: string, y: int, ms: string)
    requires '-' !in ys && JsNumber(ys) == Finite(y as real)
    requires ms != [] && AllDigits(ms)
    ensures GetMonthRange(ys + "-" + ("+" + ms)) == Some(MonthBounds(y, DigitsValue(ms)))
  {
    DigitsExclude(ms, '-');
    assert '-' !in "+" + ms;
    SignedDigitsRead(ms, '+');
    MonthRangeOfFields(ys, "+" + ms, y, DigitsValue(ms));
  }

  /** A point and zeros after the month digits do not matter. */
  lemma ZeroFractionMonthField(ys: string, y: int, ms: string, z: string)
    requires '-' !in ys && JsNumber(ys) == Finite(y as real)
    requires ms != [] && AllDigits(ms) && AllChar(z, '0')
    ensures GetMonthRange(ys + "-" + (ms + ("." + z))) == Some(MonthBounds(y, DigitsValue(ms)))
  {
    DigitsExclude(ms, '-');
    assert '-' !in ms + ("." + z);
    ZeroFractionRead(ms, z);
    MonthRangeOfFields(ys, ms + ("." + z), y, DigitsValue(ms));
  }

  /** An exponent scales the month field: "1e1" is month 10. */
  lemma ExponentMonthField(ys: string, y: int, ms: string, es: string)
    requires '-' !in ys && JsNumber(ys) == Finite(y as real)
    requires ms != [] && AllDigits(ms) && es != [] && AllDigits(es)
    ensures GetMonthRange(ys + "-" + (ms + ("e" + es))) == Some(MonthBounds(y, DigitsValue(ms) * Pow10(DigitsValue(es))))
  {
    DigitsExclude(ms, '-');
    DigitsExclude(es, '-');
    assert '-' !in ms + ("e" + es);
    ExponentRead(ms, es);
    ScaleNat(DigitsValue(ms), DigitsValue(es));
    MonthRangeOfFields(ys, ms + ("e" + es), y, DigitsValue(ms) * Pow10(DigitsValue(es)));
  }

  // ---------------------------------------------------------------------------
  // ISO 8601 text

  /** `String(n).padStart(2, "0")`. */
  function Pad2(n: nat): string
  {
    PadStart(NatToString(n), 2, '0')
  }

  /** The year field of `toISOString`: four digits for years 0 to 9999, else a
      sign and at least six digits (the expanded form of ISO 8601). */
  function IsoYear(y: int): string
  {
    if 0 <= y <= 9999 then PadStart(NatToString(y), 4, '0')
    else (if y < 0 then "-" else "+") + PadStart(NatToString(if y < 0 then -y else y), 6, '0')
  }

  /** Calendar date in the extended complete form YYYY-MM-DD (ISO 8601:2004,
      section 4.1.2.2). */
  function IsoDateString(d: CivilDate): string
  {
    IsoYear(d.year) + "-" + Pad2(d.month) + "-" + Pad2(d.day)
  }

  /** `date.toISOString()` at midnight UTC. */
  function ToISOString(d: CivilDate): string
  {
    IsoDateString(d) + "T00:00:00.000Z"
  }

  /** `toISODate(date)`: the text of `toISOString()` before the first "T". */
  function ToISODate(d: CivilDate): string
  {
    Split(ToISOString(d), 'T')[0]
  }

  /** The part before the "T" is the whole calendar date. */
  lemma ToISODateIsDate(d: CivilDate)
    ensures ToISODate(d) == IsoDateString(d)
  {
    var date := IsoDateString(d);
    assert "T00:00:00.000Z" == ['T'] + "00:00:00.000Z";
    AppendAssoc(date, ['T'], "00:00:00.000Z");
    IsoDateHasNoT(d);
    SplitCons(date, 'T', "00:00:00.000Z");
  }

  lemma DigitsExclude(s: string, c: char)
    requires AllDigits(s) && !IsDigit(c)
    ensures c !in s
  {
  }

  lemma IsoYearHasNoT(y: int)
    ensures 'T' !in IsoYear(y)
  {
    var n := if y < 0 then -y else y;
    if 0 <= y <= 9999 {
      PaddedDigits(n, 4);
      DigitsExclude(PadStart(NatToString(n), 4, '0'), 'T');
    } else {
      PaddedDigits(n, 6);
      var p := PadStart(NatToString(n), 6, '0');
      DigitsExclude(p, 'T');
      NotInConcat(if y < 0 then "-" else "+", p, 'T');
    }
  }

  lemma NotInConcat(a: string, b: string, c: char)
    requires c !in a && c !in b
    ensures c !in a + b
  {
  }

  lemma IsoDateHasNoT(d: CivilDate)
    ensures 'T' !in IsoDateString(d)
  {
    var y := IsoYear(d.year);
    var m := Pad2(d.month);
    var dd := Pad2(d.day);
    IsoYearHasNoT(d.year);
    PaddedDigits(d.month, 2);
    PaddedDigits(d.day, 2);
    DigitsExclude(m, 'T');
    DigitsExclude(dd, 'T');
    NotInConcat(y, "-", 'T');
    NotInConcat(y + "-", m, 'T');
    NotInConcat(y + "-" + m, "-", 'T');
    NotInConcat(y + "-" + m + "-", dd, 'T');
  }

  /** Reading the three fields of a YYYY-MM-DD string back as numbers. */
  function ParseIsoDate(s: string): Option<Date>
  {
    var parts := Split(s, '-');
    if |parts| != 3 || !AllDigits(parts[0]) || !AllDigits(parts[1]) || !AllDigits(parts[2]) then None
    else Some(Date(DigitsValue(parts[0]), DigitsValue(parts[1]), DigitsValue(parts[2])))
  }

  lemma PaddedDigits(n: nat, width: nat)
    ensures AllDigits(PadStart(NatToString(n), width, '0'))
  {
    var s := NatToString(n);
    var p := PadStart(s, width, '0');
    assert p == p[..|p| - |s|] + s;
  }

  lemma PaddedValue(n: nat, width: nat)
    ensures AllDigits(PadStart(NatToString(n), width, '0'))
    ensures DigitsValue(PadStart(NatToString(n), width, '0')) == n
  {
    var s := NatToString(n);
    var p := PadStart(s, width, '0');
    assert p == p[..|p| - |s|] + s;
    DigitsValueLeadingZeros(p[..|p| - |s|], s);
    DigitsValueOfNatToString(n);
  }

  /** For four-digit years the ISO text reads back as the same date. */
  lemma {:induction false} IsoDateRoundTrip(d: CivilDate)
    requires 0 <= d.year <= 9999
    ensures ParseIsoDate(IsoDateString(d)) == Some(Date(d.year, d.month, d.day))
  {
    var y := IsoYear(d.year);
    var m := Pad2(d.month);
    var dd := Pad2(d.day);
    PaddedValue(d.year, 4);
    PaddedValue(d.month, 2);
    PaddedValue(d.day, 2);
    DigitsExclude(y, '-');
    DigitsExclude(m, '-');
    DigitsExclude(dd, '-');
    SplitThree(y, m, dd, '-');
  }

  lemma SplitThree(a: string, b: string, c: string, sep: char)
    requires sep !in a && sep !in b && sep !in c
    ensures Split(a + [sep] + b + [sep] + c, sep) == [a, b, c]
  {
    assert a + [sep] + b + [sep] + c == a + [sep] + (b + [sep] + c);
    SplitCons(a, sep, b + [sep] + c);
    SplitCons(b, sep, c);
  }

  /** `getCurrentMonth()` for the injected current date:
      `${getFullYear()}-${String(getMonth() + 1).padStart(2, "0")}`. */
  function GetCurrentMonth(today: CivilDate): string
  {
    IntToString(today.year) + "-" + Pad2(today.month)
  }

  /** The current-month text is the year's digits and the two-digit month
      split by one "-": the digits and the padded month hold no "-"; a
      negative year's sign splits off an empty field. */
  lemma CurrentMonthSplit(today: CivilDate)
    ensures |Pad2(today.month)| == 2
    ensures var s := GetCurrentMonth(today);
      && (today.year >= 0 ==> Split(s, '-') == [NatToString(today.year), Pad2(today.month)])
      && (today.year < 0 ==> Split(s, '-') == ["", NatToString(-today.year), Pad2(today.month)])
  {
    var y := NatToString(if today.year < 0 then -today.year else today.year);
    var m := Pad2(today.month);
    PaddedValue(today.month, 2);
    DigitsExclude(y, '-');
    DigitsExclude(m, '-');
    if today.year < 0 {
      assert IntToString(today.year) + "-" + m == "-" + y + "-" + m;
      SplitSignedPair(y, m);
    } else {
      SplitPair(y, m);
    }
  }

  lemma SplitPair(a: string, b: string)
    requires '-' !in a && '-' !in b
    ensures Split(a + "-" + b, '-') == [a, b]
  {
    SplitCons(a, '-', b);
    assert Split(b, '-') == [b];
  }

  lemma SplitSignedPair(a: string, b: string)
    requires '-' !in a && '-' !in b
    ensures Split("-" + a + "-" + b, '-') == ["", a, b]
  {
    assert "-" + a + "-" + b == [] + ['-'] + (a + "-" + b);
    SplitCons([], '-', a + "-" + b);
    SplitPair(a, b);
  }

  /** The month text is two digits in 01..12. */
  lemma CurrentMonthField(today: CivilDate)
    ensures var p := Pad2(today.month);
      |p| == 2 && AllDigits(p) && 1 <= DigitsValue(p) <= 12 && DigitsValue(p) == today.month
  {
    PaddedValue(today.month, 2);
  }

  /** Reading `getCurrentMonth()` with `getMonthRange` gives the bounds of the
      current month, for every year from 100 on. */
  lemma {:induction false} CurrentMonthRange(today: CivilDate)
    requires today.year >= 100
    ensures GetMonthRange(GetCurrentMonth(today)) ==
      Some((Date(today.year, today.month, 1), Date(today.year, today.month, DaysInMonth(today.year, today.month))))
  {
    var y := NatToString(today.year);
    var m := Pad2(today.month);
    DigitsValueOfNatToString(today.year);
    PaddedValue(today.month, 2);
    DigitsExclude(y, '-');
    DigitsExclude(m, '-');
    DigitsRead(y);
    DigitsRead(m);
    MonthRangeOfFields(y, m, today.year, today.month);
    MonthBoundsSpan(today.year, today.month);
  }

  // ---------------------------------------------------------------------------
  // Workdays

  /** Custom holidays as ISO dates; none are configured. */
  const HOLIDAYS: seq<string> := []

  /** `HOLIDAYS.includes(toISODate(date))`; the emptiness test in front only
      spares the date formatting when the list is empty, which is when
      `includes` is false anyway. */
  predicate IsHoliday(d: CivilDate)
  {
    |HOLIDAYS| > 0 && ToISODate(d) in HOLIDAYS
  }

  /** `isWorkday`: not a Sunday, not a Saturday, not a holiday. */
  predicate IsWorkday(d: CivilDate)
  {
    Weekday(d) != 0 && Weekday(d) != 6 && !IsHoliday(d)
  }

  /** With the holiday list empty, the workdays are exactly Monday to Friday. */
  lemma WorkdayIsWeekday(d: CivilDate)
    ensures IsWorkday(d) <==> 1 <= Weekday(d) <= 5
  {
    assert !IsHoliday(d);
  }

  /** How many days lie between `d` and the nearest workday at or before it. */
  function GapToWorkday(d: CivilDate): (g: nat)
    ensures g <= 2
    ensures g == 0 <==> IsWorkday(d)
  {
    WorkdayIsWeekday(d);
    GapOfWeekday(Weekday(d))
  }

  function GapOfWeekday(w: int): nat
  {
    if w == 0 then 2 else if w == 6 then 1 else 0
  }

  /** Stepping back from a non-workday brings the next workday one day nearer. */
  lemma GapShrinks(d: CivilDate)
    requires !IsWorkday(d)
    ensures GapToWorkday(PrevDay(d)) == GapToWorkday(d) - 1
  {
    WorkdayIsWeekday(d);
    var w := Weekday(d);
    WeekdayOfPrevDay(d);
    assert Weekday(PrevDay(d)) == (w + 6) % 7;
    assert w == 0 || w == 6;
    assert GapOfWeekday((w + 6) % 7) == GapOfWeekday(w) - 1;
  }

  /** Whether the day `k` days before `e` is a workday, told from day numbers alone. */
  ghost predicate WorkdayAt(e: CivilDate, k: nat)
  {
    1 <= WeekdayOf(DayNumber(e) - k) <= 5
  }

  lemma DaysBackWorkday(e: CivilDate, k: nat)
    ensures IsWorkday(DaysBack(e, k)) <==> WorkdayAt(e, k)
  {
    DaysBackNumber(e, k);
    WorkdayIsWeekday(DaysBack(e, k));
  }

  /** The state of the walk back from `e` after `steps` days: `ds` holds, in
      ascending order, every workday among the `steps` days looked at, and
      `offsets[i]` is how many days before `e` the date `ds[i]` lies. */
  ghost predicate Walked(e: CivilDate, steps: nat, current: CivilDate, ds: seq<CivilDate>, offsets: seq<nat>)
  {
    && |offsets| == |ds|
    && current == DaysBack(e, steps)
    && (forall i :: 0 <= i < |ds| ==> ds[i] == DaysBack(e, offsets[i]))
    && (forall i :: 0 <= i < |offsets| ==> offsets[i] < steps && WorkdayAt(e, offsets[i]))
    && (forall i, j :: 0 <= i < j < |offsets| ==> offsets[i] > offsets[j])
    && (forall k: nat :: k < steps && WorkdayAt(e, k) ==> k in offsets)
    && (WorkdayAt(e, 0) && steps > 0 ==> 0 < |offsets| && offsets[|offsets| - 1] == 0)
    && (steps == 0 ==> ds == [])
  }

  /** Looking at a workday puts it in front of the list. */
  lemma WalkTake(e: CivilDate, steps: nat, current: CivilDate, ds: seq<CivilDate>, offsets: seq<nat>)
    requires Walked(e, steps, current, ds, offsets) && WorkdayAt(e, steps)
    ensures Walked(e, steps + 1, PrevDay(current), [current] + ds, [steps] + offsets)
  {
    var offsets' := [steps] + offsets;
    assert steps == 0 ==> offsets' == [0];
    forall k: nat | k <= steps && WorkdayAt(e, k)
      ensures k in offsets'
    {
      if k < steps {
        assert k in offsets;
      } else {
        assert offsets'[0] == k;
      }
    }
  }

  /** Looking at a non-workday leaves the list as it is. */
  lemma WalkSkip(e: CivilDate, steps: nat, current: CivilDate, ds: seq<CivilDate>, offsets: seq<nat>)
    requires Walked(e, steps, current, ds, offsets) && !WorkdayAt(e, steps)
    ensures Walked(e, steps + 1, PrevDay(current), ds, offsets)
  {
    forall k: nat | k <= steps && WorkdayAt(e, k)
      ensures k in offsets
    {
      assert k != steps;
    }
  }

  /** One day of the walk: the day looked at is taken if it is a workday,
      and a day that is not one brings the next workday a day nearer. */
  lemma WalkStep(e: CivilDate, steps: nat, current: CivilDate, ds: seq<CivilDate>, offsets: seq<nat>)
    requires Walked(e, steps, current, ds, offsets)
    ensures IsWorkday(current) ==> Walked(e, steps + 1, PrevDay(current), [current] + ds, [steps] + offsets)
    ensures !IsWorkday(current) ==> Walked(e, steps + 1, PrevDay(current), ds, offsets)
    ensures !IsWorkday(current) ==> GapToWorkday(PrevDay(current)) == GapToWorkday(current) - 1
  {
    DaysBackWorkday(e, steps);
    if IsWorkday(current) {
      WalkTake(e, steps, current, ds, offsets);
    } else {
      WalkSkip(e, steps, current, ds, offsets);
      GapShrinks(current);
    }
  }

  /** `getLastNWorkdays(endDate, n)`: walk back from `endDate` one day at a
      time, putting each workday in front, until `n` are collected. */
  method GetLastNWorkdays(endDate: CivilDate, n: nat) returns (workdays: seq<CivilDate>)
    ensures |workdays| == n
    ensures forall i :: 0 <= i < n ==> IsWorkday(workdays[i])
    ensures forall i, j :: 0 <= i < j < n ==> DayNumber(workdays[i]) < DayNumber(workdays[j])
    ensures forall i :: 0 <= i < n ==> DayNumber(workdays[i]) <= DayNumber(endDate)
    ensures n > 0 ==> (workdays[n - 1] == endDate <==> IsWorkday(endDate))
    ensures n > 0 ==> forall k: nat ::
      k <= DayNumber(endDate) - DayNumber(workdays[0]) && IsWorkday(DaysBack(endDate, k)) ==>
        DaysBack(endDate, k) in workdays
  {
    workdays := [];
    var current := endDate;
    ghost var steps: nat := 0;
    ghost var offsets: seq<nat> := [];
    while |workdays| < n
      invariant |workdays| <= n
      invariant Walked(endDate, steps, current, workdays, offsets)
      decreases 7 * (n - |workdays|) + GapToWorkday(current)
    {
      WalkStep(endDate, steps, current, workdays, offsets);
      if IsWorkday(current) {
        workdays := [current] + workdays;
        offsets := [steps] + offsets;
      }
      current := PrevDay(current);
      steps := steps + 1;
    }
    WalkedDates(endDate, steps, current, workdays, offsets);
    if n > 0 {
      WalkedLast(endDate, steps, current, workdays, offsets);
      WalkedCover(endDate, steps, current, workdays, offsets);
    }
  }

  /** The dates a walk has collected are workdays, in ascending order, none after `e`. */
  lemma WalkedDates(e: CivilDate, steps: nat, current: CivilDate, ds: seq<CivilDate>, offsets: seq<nat>)
    requires Walked(e, steps, current, ds, offsets)
    ensures forall i :: 0 <= i < |ds| ==> IsWorkday(ds[i])
    ensures forall i, j :: 0 <= i < j < |ds| ==> DayNumber(ds[i]) < DayNumber(ds[j])
    ensures forall i :: 0 <= i < |ds| ==> DayNumber(ds[i]) <= DayNumber(e)
  {
    forall i | 0 <= i < |ds|
      ensures IsWorkday(ds[i]) && DayNumber(ds[i]) == DayNumber(e) - offsets[i]
    {
      DaysBackNumber(e, offsets[i]);
      DaysBackWorkday(e, offsets[i]);
    }
  }

  /** The walk's last date is `e` itself exactly when `e` is a workday. */
  lemma WalkedLast(e: CivilDate, steps: nat, current: CivilDate, ds: seq<CivilDate>, offsets: seq<nat>)
    requires Walked(e, steps, current, ds, offsets) && |ds| > 0
    ensures ds[|ds| - 1] == e <==> IsWorkday(e)
  {
    assert DaysBack(e, 0) == e;
    DaysBackWorkday(e, 0);
    var last := offsets[|ds| - 1];
    DaysBackNumber(e, last);
  }

  /** No workday between the walk's first date and `e` is missing from it. */
  lemma WalkedCover(e: CivilDate, steps: nat, current: CivilDate, ds: seq<CivilDate>, offsets: seq<nat>)
    requires Walked(e, steps, current, ds, offsets) && |ds| > 0
    ensures forall k: nat ::
      k <= DayNumber(e) - DayNumber(ds[0]) && IsWorkday(DaysBack(e, k)) ==> DaysBack(e, k) in ds
  {
    DaysBackNumber(e, offsets[0]);
    forall k: nat | k <= DayNumber(e) - DayNumber(ds[0]) && IsWorkday(DaysBack(e, k))
      ensures DaysBack(e, k) in ds
    {
      DaysBackWorkday(e, k);
      var i :| 0 <= i < |offsets| && offsets[i] == k;
      assert ds[i] == DaysBack(e, k);
    }
  }

  // ---------------------------------------------------------------------------
  // Instants

  const MS_PER_DAY: int := 86400000

  /** A JavaScript `Date` value: a UTC day and the milliseconds since its
      midnight. Stored dates are midnights. */
  datatype Instant = Instant(day: CivilDate, ms: int)

  function Midnight(d: CivilDate): Instant
  {
    Instant(d, 0)
  }

  /** The milliseconds since the epoch, by which instants are compared. */
  function EpochMs(t: Instant): int
  {
    DayNumber(t.day) * MS_PER_DAY + t.ms
  }
}
