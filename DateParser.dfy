/** DateParser: the date utilities of the library system, on whole days.
    A date is a (year, month, day) of the proleptic Gregorian calendar; the
    clock ("today") is a parameter of every operation that reads it. */
module DateParser {
  import opened Common

  datatype CalendarDate = CalendarDate(year: int, month: int, day: int)

  predicate IsLeapYear(year: int) {
    year % 4 == 0 && (year % 100 != 0 || year % 400 == 0)
  }

  function YearLength(year: int): int {
    if IsLeapYear(year) then 366 else 365
  }

  function DaysInMonth(year: int, month: int): int
    requires 1 <= month <= 12
  {
    if month == 2 then (if IsLeapYear(year) then 29 else 28)
    else if month == 4 || month == 6 || month == 9 || month == 11 then 30
    else 31
  }

  /** Days of the year that lie before the first of `month` (month 13 stands for the next year). */
  function DaysBeforeMonth(year: int, month: int): int
    requires 1 <= month <= 13
  {
    var leap := if IsLeapYear(year) then 1 else 0;
    if month == 1 then 0
    else if month == 2 then 31
    else if month == 3 then 59 + leap
    else if month == 4 then 90 + leap
    else if month == 5 then 120 + leap
    else if month == 6 then 151 + leap
    else if month == 7 then 181 + leap
    else if month == 8 then 212 + leap
    else if month == 9 then 243 + leap
    else if month == 10 then 273 + leap
    else if month == 11 then 304 + leap
    else if month == 12 then 334 + leap
    else 365 + leap
  }

  predicate ValidDate(d: CalendarDate) {
    1 <= d.month <= 12 && 1 <= d.day <= DaysInMonth(d.year, d.month)
  }

  type Date = d: CalendarDate | ValidDate(d) witness CalendarDate(1970, 1, 1)

  /** The date of `new Date(0)`: the epoch. */
  const EPOCH: Date := CalendarDate(1970, 1, 1)

  /** Calendar.DAY_OF_YEAR: 1 for the first of January. */
  function DayOfYear(d: Date): (r: int)
    ensures 1 <= r <= YearLength(d.year)
    ensures d.month == 1 ==> r == d.day
  {
    DaysBeforeMonth(d.year, d.month) + d.day
  }

  /** Leap years strictly before `year` counted from year 1 (negative for
      years before 1), one year at a time. */
  function LeapDaysBefore(year: int): int
    decreases if year >= 1 then year - 1 else 1 - year
  {
    if year == 1 then 0
    else if year > 1 then LeapDaysBefore(year - 1) + (if IsLeapYear(year - 1) then 1 else 0)
    else LeapDaysBefore(year + 1) - (if IsLeapYear(year) then 1 else 0)
  }

  function DaysBeforeYear(year: int): int {
    365 * (year - 1) + LeapDaysBefore(year)
  }

  /** Position of a date on the time line: consecutive days have consecutive
      ordinals (0001-01-01 is day 1). */
  function Ordinal(d: Date): int {
    DaysBeforeYear(d.year) + DayOfYear(d)
  }

  /** Passing a year adds one leap day exactly when that year is a leap year. */
  lemma LeapStep(year: int)
    ensures LeapDaysBefore(year + 1) == LeapDaysBefore(year) + (if IsLeapYear(year) then 1 else 0)
  {
  }

  lemma YearStep(year: int)
    ensures DaysBeforeYear(year + 1) == DaysBeforeYear(year) + YearLength(year)
  {
    LeapStep(year);
  }

  lemma {:induction false} LeapDaysMonotone(y: int, z: int)
    requires y <= z
    ensures LeapDaysBefore(y) <= LeapDaysBefore(z)
    decreases z - y
  {
    if y < z {
      LeapDaysMonotone(y, z - 1);
      LeapStep(z - 1);
    }
  }

  lemma {:induction false} DaysBeforeYearMonotone(y: int, z: int)
    requires y <= z
    ensures DaysBeforeYear(y) + 365 * (z - y) <= DaysBeforeYear(z)
    decreases z - y
  {
    if y < z {
      DaysBeforeYearMonotone(y, z - 1);
      YearStep(z - 1);
    }
  }

  /** A date lies within its own year on the time line. */
  lemma OrdinalInYear(d: Date)
    ensures DaysBeforeYear(d.year) < Ordinal(d) <= DaysBeforeYear(d.year + 1)
  {
    YearStep(d.year);
  }

  /** The following day. */
  function NextDay(d: Date): Date {
    if d.day < DaysInMonth(d.year, d.month) then
      CalendarDate(d.year, d.month, d.day + 1)
    else if d.month < 12 then
      CalendarDate(d.year, d.month + 1, 1)
    else
      CalendarDate(d.year + 1, 1, 1)
  }

  lemma NextDayOrdinal(d: Date)
    ensures Ordinal(NextDay(d)) == Ordinal(d) + 1
  {
    if d.day == DaysInMonth(d.year, d.month) && d.month == 12 {
      YearStep(d.year);
    }
  }

  /** The preceding day. */
  function PrevDay(d: Date): Date {
    if d.day > 1 then
      CalendarDate(d.year, d.month, d.day - 1)
    else if d.month > 1 then
      CalendarDate(d.year, d.month - 1, DaysInMonth(d.year, d.month - 1))
    else
      CalendarDate(d.year - 1, 12, 31)
  }

  lemma PrevDayOrdinal(d: Date)
    ensures Ordinal(PrevDay(d)) == Ordinal(d) - 1
  {
    if d.day == 1 && d.month == 1 {
      YearStep(d.year - 1);
    }
  }

  /** Calendar.add(DAY_OF_MONTH, n): the date n days later (earlier when n < 0). */
  function AddDays(d: Date, n: int): Date
    decreases if n < 0 then -n else n
  {
    if n == 0 then d
    else if n > 0 then AddDays(NextDay(d), n - 1)
    else AddDays(PrevDay(d), n + 1)
  }

  /** Adding n days moves a date n places along the time line. */
  lemma {:induction false} AddDaysOrdinal(d: Date, n: int)
    ensures Ordinal(AddDays(d, n)) == Ordinal(d) + n
    decreases if n < 0 then -n else n
  {
    if n > 0 {
      NextDayOrdinal(d);
      AddDaysOrdinal(NextDay(d), n - 1);
    } else if n < 0 {
      PrevDayOrdinal(d);
      AddDaysOrdinal(PrevDay(d), n + 1);
    }
  }

  /** Within one month, adding days only moves the day of the month. */
  lemma {:induction false} AddDaysInMonth(d: Date, n: nat)
    requires d.day + n <= DaysInMonth(d.year, d.month)
    ensures AddDays(d, n) == CalendarDate(d.year, d.month, d.day + n)
    decreases n
  {
    if n > 0 {
      var e := NextDay(d);
      assert e == CalendarDate(d.year, d.month, d.day + 1);
      AddDaysInMonth(e, n - 1);
      assert AddDays(d, n) == AddDays(e, n - 1);
    }
  }

  /** Date.after on whole days: x falls on a later calendar day than y.
      Comparing the calendar fields agrees with comparing positions on the time line. */
  function After(x: Date, y: Date): bool {
    x.year > y.year || (x.year == y.year && (x.month > y.month || (x.month == y.month && x.day > y.day)))
  }

  lemma DaysBeforeMonthMonotone(year: int, m1: int, m2: int)
    requires 1 <= m1 <= m2 <= 13
    ensures DaysBeforeMonth(year, m1) <= DaysBeforeMonth(year, m2)
  {
  }

  lemma DayOfYearOrder(x: Date, y: Date)
    requires x.year == y.year
    ensures DayOfYear(x) > DayOfYear(y) <==> (x.month > y.month || (x.month == y.month && x.day > y.day))
  {
    if x.month > y.month {
      DaysBeforeMonthMonotone(x.year, y.month + 1, x.month);
    } else if x.month < y.month {
      DaysBeforeMonthMonotone(x.year, x.month + 1, y.month);
    }
  }

  /** Comparing the calendar fields agrees with comparing positions on the time line. */
  lemma AfterIsLater(x: Date, y: Date)
    ensures After(x, y) <==> Ordinal(x) > Ordinal(y)
  {
    OrdinalInYear(x);
    OrdinalInYear(y);
    if x.year > y.year {
      DaysBeforeYearMonotone(y.year + 1, x.year);
    } else if x.year < y.year {
      DaysBeforeYearMonotone(x.year + 1, y.year);
    } else {
      DayOfYearOrder(x, y);
    }
  }

  /** Distinct dates have distinct positions on the time line. */
  lemma OrdinalInjective(x: Date, y: Date)
    requires Ordinal(x) == Ordinal(y)
    ensures x == y
  {
    AfterIsLater(x, y);
    AfterIsLater(y, x);
  }

  /** todayPlusDays(n): today shifted by n calendar days. */
  function TodayPlusDays(today: Date, n: int): Date {
    AddDays(today, n)
  }

  /** todayPlusDays(n) lies exactly n days from today: today itself for 0, a
      later day for positive n. */
  lemma TodayPlusDaysShift(today: Date, n: int)
    ensures Ordinal(TodayPlusDays(today, n)) - Ordinal(today) == n
    ensures n == 0 ==> TodayPlusDays(today, n) == today
    ensures n > 0 ==> After(TodayPlusDays(today, n), today)
  {
    AddDaysOrdinal(today, n);
    AfterIsLater(TodayPlusDays(today, n), today);
  }

  /** Every date is today shifted by exactly one number of days. */
  lemma TodayPlusDaysReaches(today: Date, d: Date)
    ensures TodayPlusDays(today, Ordinal(d) - Ordinal(today)) == d
  {
    TodayPlusDaysShift(today, Ordinal(d) - Ordinal(today));
    OrdinalInjective(TodayPlusDays(today, Ordinal(d) - Ordinal(today)), d);
  }

  /** x is after y exactly when x is y shifted forward by a positive number of days. */
  lemma AfterIsPositiveShift(x: Date, y: Date)
    ensures After(x, y) <==> exists n :: n > 0 && TodayPlusDays(y, n) == x
  {
    AfterIsLater(x, y);
    TodayPlusDaysReaches(y, x);
    forall n | n > 0 && TodayPlusDays(y, n) == x
      ensures After(x, y)
    {
      TodayPlusDaysShift(y, n);
    }
  }

  /** daysBetween(a, b): (365 * year + day of year) of a minus the same of b. */
  function DaysBetween(a: Date, b: Date): (r: int)
    ensures a.year == b.year ==> r == DayOfYear(a) - DayOfYear(b)
  {
    (365 * a.year + DayOfYear(a)) - (365 * b.year + DayOfYear(b))
  }

  /** daysBetween is the true distance on the time line minus the leap days
      of the years from b's year up to (not including) a's year. */
  lemma DaysBetweenMissesLeapDays(a: Date, b: Date)
    ensures DaysBetween(a, b) == (Ordinal(a) - Ordinal(b)) - (LeapDaysBefore(a.year) - LeapDaysBefore(b.year))
  {
  }

  lemma DaysBetweenAlgebra(a: Date, b: Date, c: Date)
    ensures DaysBetween(a, a) == 0
    ensures DaysBetween(a, b) == -DaysBetween(b, a)
    ensures DaysBetween(a, b) + DaysBetween(b, c) == DaysBetween(a, c)
  {
  }

  /** A positive daysBetween(a, b) means that a falls after b: a fine is only
      ever charged for a return after the due date. */
  lemma PositiveDaysBetweenIsLater(a: Date, b: Date)
    requires DaysBetween(a, b) > 0
    ensures After(a, b)
  {
    DaysBetweenMissesLeapDays(a, b);
    if a.year >= b.year {
      LeapDaysMonotone(b.year, a.year);
    }
  }

  /** Over a span with no leap day in between, daysBetween is the true distance. */
  lemma DaysBetweenWithoutLeapDays(a: Date, b: Date)
    requires b.year <= a.year
    requires forall y :: b.year <= y < a.year ==> !IsLeapYear(y)
    ensures DaysBetween(a, b) == Ordinal(a) - Ordinal(b)
  {
    DaysBetweenMissesLeapDays(a, b);
    var y := b.year;
    while y < a.year
      invariant b.year <= y <= a.year
      invariant LeapDaysBefore(y) == LeapDaysBefore(b.year)
    {
      LeapStep(y);
      y := y + 1;
    }
  }

  /** The formula loses the leap day when the span crosses the end of a leap
      year: the first of January after a leap year is 0 days after the
      31st of December before it, though it is the next day. */
  lemma DaysBetweenLosesLeapDay(year: int)
    requires IsLeapYear(year)
    ensures var dec31: Date, jan1: Date := CalendarDate(year, 12, 31), CalendarDate(year + 1, 1, 1);
      NextDay(dec31) == jan1 && DaysBetween(jan1, dec31) == 0 && After(jan1, dec31)
  {
  }

  // ---------------------------------------------------------------------------
  // Parsing

  /** The first day of `month` counted from January of `year`; a month
      outside 1..12 carries whole years into the year. */
  function FirstOfMonth(year: int, month: int): (r: Date)
    ensures r.day == 1
    ensures 1 <= month <= 12 ==> r == CalendarDate(year, month, 1)
    ensures 12 * r.year + r.month == 12 * year + month
  {
    CalendarDate(year + (month - 1) / 12, (month - 1) % 12 + 1, 1)
  }

  /** convertToDate(year, month, day): the month is 1-based and becomes the
      calendar's 0-based month - 1. The calendar is lenient: a month outside
      1..12 carries into the year, and the day is counted from the first of the
      month, so out-of-range days roll into the neighbouring months. */
  function ConvertFields(year: int, month: int, day: int): (r: Date)
    ensures ValidDate(CalendarDate(year, month, day)) ==> r == CalendarDate(year, month, day)
    ensures Ordinal(r) == Ordinal(FirstOfMonth(year, month)) + (day - 1)
  {
    var first := FirstOfMonth(year, month);
    AddDaysOrdinal(first, day - 1);
    if ValidDate(CalendarDate(year, month, day)) then
      AddDaysInMonth(first, day - 1);
      AddDays(first, day - 1)
    else
      AddDays(first, day - 1)
  }

  predicate IsDigit(c: char) {
    '0' <= c <= '9'
  }

  predicate AllDigits(s: string) {
    forall i :: 0 <= i < |s| ==> IsDigit(s[i])
  }

  /** The value of a string of decimal digits, most significant first. */
  function DigitsValue(s: string): nat
    requires AllDigits(s)
    decreases |s|
  {
    if s == [] then 0 else DigitsValue(s[..|s| - 1]) * 10 + (s[|s| - 1] as int - '0' as int)
  }

  const INT_MIN: int := -0x8000_0000
  const INT_MAX: int := 0x7fff_ffff

  /** Integer.parseInt(s): an optional '+' or '-' followed by at least one
      decimal digit, whose value fits a 32-bit int. */
  function ParseInt(s: string): (r: Option<int>)
    // Only such a numeral is accepted: a sign may only lead, and a digit must end it.
    ensures r.Some? ==> |s| > 0 && IsDigit(s[|s| - 1])
    ensures r.Some? ==> IsDigit(s[0]) || s[0] == '-' || s[0] == '+'
    ensures r.Some? ==> forall i :: 0 < i < |s| ==> IsDigit(s[i])
    ensures r.Some? ==> INT_MIN <= r.value <= INT_MAX
    // Every such numeral is accepted with its value when that value fits, and rejected otherwise.
    ensures |s| > 0 && AllDigits(s) ==>
      r == if DigitsValue(s) <= INT_MAX then Some(DigitsValue(s)) else None
    ensures |s| > 1 && s[0] == '+' && AllDigits(s[1..]) ==>
      r == if DigitsValue(s[1..]) <= INT_MAX then Some(DigitsValue(s[1..])) else None
    ensures |s| > 1 && s[0] == '-' && AllDigits(s[1..]) ==>
      r == if DigitsValue(s[1..]) <= -INT_MIN then Some(-(DigitsValue(s[1..]) as int)) else None
  {
    if |s| == 0 then None
    else
      var digits := if s[0] == '-' || s[0] == '+' then s[1..] else s;
      if |digits| == 0 || !AllDigits(digits) then None
      else
        assert digits[|digits| - 1] == s[|s| - 1];
        assert forall i :: 0 < i < |s| ==> IsDigit(s[i]) by {
          forall i | 0 < i < |s|
            ensures IsDigit(s[i])
          {
            if digits == s {
              assert IsDigit(digits[i]);
            } else {
              assert digits[i - 1] == s[i];
            }
          }
        }
        var v: int := if s[0] == '-' then -(DigitsValue(digits) as int) else DigitsValue(digits);
        if INT_MIN <= v <= INT_MAX then Some(v) else None
  }

  /** A character that is not a digit, anywhere in a field of the date other
      than at the head of that field where a sign may stand, makes the
      conversion fail. */
  lemma NonDigitFieldFails(s: string, i: int)
    requires 0 <= i < |s| && i != 4 && i != 7
    requires !IsDigit(s[i])
    requires (i == 0 || i == 5 || i == 8) ==> s[i] != '-' && s[i] != '+'
    ensures ConvertToDate(s).Err?
  {
    if |s| > 8 {
      if i < 4 {
        assert s[..4][i] == s[i];
        assert ParseInt(s[..4]).None?;
      } else if i < 7 {
        assert s[5..7][i - 5] == s[i];
        assert ParseInt(s[5..7]).None?;
      } else {
        assert s[8..][i - 8] == s[i];
        assert ParseInt(s[8..]).None?;
      }
    }
  }

  /** convertToDate(s): the year is read from characters 0..3, the month from
      5..6 and the day from 8 to the end; characters 4 and 7 are skipped
      unread. A substring beyond the end raises IndexOutOfBounds and a field
      that is not an integer raises NumberFormat, in that order of reading. */
  function ConvertToDate(s: string): (r: Result<Date>)
    ensures |s| <= 8 ==> r.Err?
    ensures r.Ok? <==> |s| > 8 && ParseInt(s[..4]).Some? && ParseInt(s[5..7]).Some? && ParseInt(s[8..]).Some?
    ensures r.Ok? ==> r.value == ConvertFields(ParseInt(s[..4]).value, ParseInt(s[5..7]).value, ParseInt(s[8..]).value)
  {
    if |s| < 4 then Err(IndexOutOfBounds)
    else match ParseInt(s[..4])
      case None => Err(NumberFormat)
      case Some(year) =>
        if |s| < 7 then Err(IndexOutOfBounds)
        else match ParseInt(s[5..7])
          case None => Err(NumberFormat)
          case Some(month) =>
            if |s| < 8 then Err(IndexOutOfBounds)
            else match ParseInt(s[8..])
              case None => Err(NumberFormat)
              case Some(day) => Ok(ConvertFields(year, month, day))
  }

  /** Characters 4 and 7 (the separators) never influence the result. */
  lemma SeparatorsUnread(s: string, t: string)
    requires |s| == |t|
    requires forall i :: 0 <= i < |s| && i != 4 && i != 7 ==> s[i] == t[i]
    ensures ConvertToDate(s) == ConvertToDate(t)
  {
    if |s| >= 4 {
      assert s[..4] == t[..4];
    }
    if |s| >= 7 {
      assert s[5..7] == t[5..7];
    }
    if |s| >= 8 {
      assert s[8..] == t[8..];
    }
  }

  // ---------------------------------------------------------------------------
  // Formatting (java.sql.Date.toString) and the round trip

  function Pow10(n: nat): nat {
    if n == 0 then 1 else 10 * Pow10(n - 1)
  }

  /** n written with exactly `width` decimal digits, zero-padded on the left. */
  function Padded(n: nat, width: nat): (s: string)
    ensures |s| == width
  {
    if width == 0 then [] else Padded(n / 10, width - 1) + [('0' as int + n % 10) as char]
  }

  lemma {:induction false} PaddedValue(n: nat, width: nat)
    requires n < Pow10(width)
    ensures AllDigits(Padded(n, width))
    ensures DigitsValue(Padded(n, width)) == n
    decreases width
  {
    if width > 0 {
      PaddedValue(n / 10, width - 1);
      var s := Padded(n, width);
      assert s[..|s| - 1] == Padded(n / 10, width - 1);
    }
  }

  /** A date rendered as zero-padded YYYY-MM-DD. */
  function Format(d: Date): (s: string)
    requires 0 <= d.year <= 9999
    ensures |s| == 10 && s[4] == '-' && s[7] == '-'
  {
    Padded(d.year, 4) + "-" + Padded(d.month, 2) + "-" + Padded(d.day, 2)
  }

  /** Parsing a formatted date gives back the same date. */
  lemma ParseFormatRoundTrip(d: Date)
    requires 0 <= d.year <= 9999
    ensures ConvertToDate(Format(d)) == Ok(d)
  {
    var s := Format(d);
    assert s[..4] == Padded(d.year, 4);
    assert s[5..7] == Padded(d.month, 2);
    assert s[8..] == Padded(d.day, 2);
    PaddedValue(d.year, 4);
    PaddedValue(d.month, 2);
    PaddedValue(d.day, 2);
  }
}
