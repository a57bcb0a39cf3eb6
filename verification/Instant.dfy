/**
 Whole-second UTC times by their calendar fields, and the one accepted
 spelling "2006-01-02T15:04:05Z". parseTime parses and then requires the
 parsed time to format back to the same text, so it accepts exactly the
 formatted times of years 0 to 9999.
 */
module Instant {
  import opened Base
  import opened Json
  import opened Decimal

  datatype Time = Time(year: int, month: int, day: int, hour: int, minute: int, second: int)

  predicate Leap(y: int) { y % 4 == 0 && (y % 100 != 0 || y % 400 == 0) }

  function DaysIn(y: int, m: int): int {
    if m == 2 then if Leap(y) then 29 else 28
    else if m == 4 || m == 6 || m == 9 || m == 11 then 30 else 31
  }

  predicate Valid(t: Time) {
    && 1 <= t.month <= 12 && 1 <= t.day <= DaysIn(t.year, t.month)
    && 0 <= t.hour < 24 && 0 <= t.minute < 60 && 0 <= t.second < 60
  }

  /** Days of year y before month m. */
  function DaysBefore(y: int, m: int): int
    decreases m
  {
    if m <= 1 then 0 else DaysBefore(y, m - 1) + DaysIn(y, m - 1)
  }

  /** Seconds since the start of year 1, the library's zero time. */
  function Seconds(t: Time): int {
    ((Day(t.year, t.month, t.day) * 24 + t.hour) * 60 + t.minute) * 60 + t.second
  }

  /** Days since the start of year 1. */
  function Day(year: int, month: int, day: int): int {
    365 * (year - 1) + LeapYears(year - 1) + DaysBefore(year, month) + day - 1
  }

  /** The leap years from year 1 to year y. */
  function LeapYears(y: int): int { y / 4 - y / 100 + y / 400 }

  const ZERO := Time(1, 1, 1, 0, 0, 0)

  function Two(n: int): (r: string)
    requires 0 <= n < 100
    ensures |r| == 2
  {
    [Digit(n / 10), Digit(n % 10)]
  }

  /** Four digits, or (outside 0-9999) a longer text. */
  function Year(y: int): string {
    if 0 <= y <= 9999 then Two(y / 100) + Two(y % 100)
    else if y < 0 then "-0" + Pad(FormatNat(-y)) else FormatNat(y)
  }

  function Pad(s: string): (r: string)
    ensures |r| >= 3
    decreases 3 - |s|
  {
    if |s| >= 3 then s else Pad("0" + s)
  }

  function Format(t: Time): string
    requires Valid(t)
  {
    Year(t.year) + "-" + Two(t.month) + "-" + Two(t.day) + "T"
    + Two(t.hour) + ":" + Two(t.minute) + ":" + Two(t.second) + "Z"
  }

  function TwoValue(a: char, b: char): (r: Option<int>)
    ensures r.Some? ==> 0 <= r.value < 100 && Two(r.value) == [a, b]
  {
    if IsDigit(a) && IsDigit(b) then
      var x, y := a as int - '0' as int, b as int - '0' as int;
      assert Digit(x) == a && Digit(y) == b;
      Some(x * 10 + y)
    else None
  }

  lemma TwoRoundTrip(n: int)
    requires 0 <= n < 100
    ensures TwoValue(Two(n)[0], Two(n)[1]) == Some(n)
  {
  }

  function Parse(s: string): Option<Time> {
    if |s| != 20 || s[4] != '-' || s[7] != '-' || s[10] != 'T' || s[13] != ':' || s[16] != ':' || s[19] != 'Z' then None
    else match (TwoValue(s[0], s[1]), TwoValue(s[2], s[3]), TwoValue(s[5], s[6]), TwoValue(s[8], s[9]),
                TwoValue(s[11], s[12]), TwoValue(s[14], s[15]), TwoValue(s[17], s[18]))
      case (Some(c), Some(y), Some(mo), Some(d), Some(h), Some(mi), Some(sec)) =>
        var t := Time(c * 100 + y, mo, d, h, mi, sec);
        if Valid(t) then Some(t) else None
      case _ => None
  }

  lemma FormatOfParse(s: string)
    requires Parse(s).Some?
    ensures var t := Parse(s).value; Valid(t) && 0 <= t.year <= 9999 && Format(t) == s
  {
    hide Two, TwoValue, Valid;
    var t := Parse(s).value;
    assert Year(t.year) == [s[0], s[1]] + [s[2], s[3]];
    var f := Format(t);
    assert |f| == 20;
    forall i | 0 <= i < 20 ensures f[i] == s[i] {
    }
  }

  lemma ParseOfFormat(t: Time)
    requires Valid(t) && 0 <= t.year <= 9999
    ensures Parse(Format(t)) == Some(t)
  {
    hide Two, TwoValue;
    var f := Format(t);
    assert t.day < 100;
    TwoRoundTrip(t.year / 100);
    TwoRoundTrip(t.year % 100);
    TwoRoundTrip(t.month);
    TwoRoundTrip(t.day);
    TwoRoundTrip(t.hour);
    TwoRoundTrip(t.minute);
    TwoRoundTrip(t.second);
    assert f[0] == Two(t.year / 100)[0] && f[1] == Two(t.year / 100)[1];
    assert f[2] == Two(t.year % 100)[0] && f[3] == Two(t.year % 100)[1];
  }

  lemma LongYear(t: Time)
    requires Valid(t) && !(0 <= t.year <= 9999)
    ensures |Format(t)| > 20
  {
    if t.year > 9999 {
      assert Power10(4) == 10000;
      NatLength(t.year, 4);
    }
  }

  /** A text is accepted exactly when it is the formatted form of the time it is read as. */
  lemma ParseExact(s: string, t: Time)
    requires Valid(t)
    ensures Parse(s) == Some(t) <==> Format(t) == s && 0 <= t.year <= 9999
  {
    if Parse(s) == Some(t) { FormatOfParse(s); }
    if Format(t) == s && 0 <= t.year <= 9999 { ParseOfFormat(t); }
  }

  // ---- The calendar, second by second ----

  function MonthLength(year: int, month: int): int
    requires 1 <= month <= 12
  {
    if month == 2 && ((year % 4 == 0 && year % 100 != 0) || year % 400 == 0) then 29
    else [31, 28, 31, 30, 31, 30, 31, 31, 30, 31, 30, 31][month - 1]
  }

  /** The second after t. */
  function Next(t: Time): Time
    requires 1 <= t.month <= 12
  {
    if t.second < 59 then t.(second := t.second + 1)
    else if t.minute < 59 then t.(minute := t.minute + 1, second := 0)
    else if t.hour < 23 then Time(t.year, t.month, t.day, t.hour + 1, 0, 0)
    else if t.day < MonthLength(t.year, t.month) then Time(t.year, t.month, t.day + 1, 0, 0, 0)
    else if t.month < 12 then Time(t.year, t.month + 1, 1, 0, 0, 0)
    else Time(t.year + 1, 1, 1, 0, 0, 0)
  }

  lemma YearLength(y: int)
    ensures DaysBefore(y, 12) + 31 == if Leap(y) then 366 else 365
  {
    assert DaysBefore(y, 3) == 31 + DaysIn(y, 2);
    assert DaysBefore(y, 5) == DaysBefore(y, 3) + 61;
    assert DaysBefore(y, 7) == DaysBefore(y, 5) + 61;
    assert DaysBefore(y, 9) == DaysBefore(y, 7) + 62;
    assert DaysBefore(y, 11) == DaysBefore(y, 9) + 61;
    assert DaysBefore(y, 12) == DaysBefore(y, 11) + 30;
  }

  lemma Multiple(k: int)
    ensures (100 * k) % 100 == 0 && (4 * k) % 4 == 0
  {
  }

  lemma Hundreds(y: int)
    ensures y % 400 == 0 ==> y % 100 == 0
    ensures y % 100 == 0 ==> y % 4 == 0
  {
    var a, b := y / 400, y / 100;
    Multiple(4 * a);
    Multiple(25 * b);
    if y % 400 == 0 { assert y == 400 * a == 100 * (4 * a); }
    if y % 100 == 0 { assert y == 100 * b == 4 * (25 * b); }
  }

  lemma OneOn(y: int, n: int)
    requires n == 4 || n == 100 || n == 400
    ensures y / n == (y - 1) / n + if y % n == 0 then 1 else 0
  {
  }

  lemma LeapDays(y: int)
    ensures LeapYears(y) == LeapYears(y - 1) + if Leap(y) then 1 else 0
  {
    Hundreds(y);
    OneOn(y, 4);
    OneOn(y, 100);
    OneOn(y, 400);
  }

  lemma LengthIs(year: int, month: int)
    requires 1 <= month <= 12
    ensures MonthLength(year, month) == DaysIn(year, month)
  {
    Hundreds(year);
  }

  lemma NextDay(year: int, month: int, day: int)
    requires 1 <= month <= 12 && 1 <= day <= DaysIn(year, month)
    ensures day == DaysIn(year, month) && month < 12 ==> Day(year, month + 1, 1) == Day(year, month, day) + 1
    ensures day == DaysIn(year, month) && month == 12 ==> Day(year + 1, 1, 1) == Day(year, month, day) + 1
    ensures Day(year, month, day + 1) == Day(year, month, day) + 1
  {
    YearLength(year);
    LeapDays(year);
    hide Leap, LeapYears;
    assert DaysBefore(year, month + 1) == DaysBefore(year, month) + DaysIn(year, month);
    assert DaysBefore(year + 1, 1) == 0;
  }

  lemma NoLeapYears()
    ensures LeapYears(0) == 0
  {
  }

  lemma FirstDay(year: int)
    requires year == 1
    ensures Day(year, 1, 1) == 0 && DaysIn(year, 1) == 31
  {
    NoLeapYears();
    hide LeapYears;
    assert DaysBefore(year, 1) == 0;
  }

  lemma FirstSecond()
    ensures Seconds(ZERO) == 0 && Valid(ZERO)
  {
    hide Day, DaysIn;
    FirstDay(1);
  }

  /** Within a day, only the clock moves. */
  lemma SameDay(t: Time)
    requires Valid(t) && !(t.hour == 23 && t.minute == 59 && t.second == 59)
    ensures Valid(Next(t)) && Seconds(Next(t)) == Seconds(t) + 1
  {
    hide Day, DaysIn, MonthLength;
  }

  lemma Midnight(t: Time)
    requires Valid(t) && t.hour == 23 && t.minute == 59 && t.second == 59
    ensures Valid(Next(t)) && Seconds(Next(t)) == Seconds(t) + 1
  {
    LengthIs(t.year, t.month);
    NextDay(t.year, t.month, t.day);
    ShortestMonth(t.year, t.month + 1);
    ShortestMonth(t.year + 1, 1);
    hide Day, DaysIn, MonthLength;
    var n := Next(t);
    assert Day(n.year, n.month, n.day) == Day(t.year, t.month, t.day) + 1;
  }

  /** Seconds counts the seconds of the calendar from the start of year 1: one more for each, and none are left out. */
  lemma SecondsCount(t: Time)
    requires Valid(t)
    ensures Seconds(ZERO) == 0 && Valid(ZERO)
    ensures Valid(Next(t)) && Seconds(Next(t)) == Seconds(t) + 1
  {
    hide Seconds, Next;
    FirstSecond();
    if t.hour == 23 && t.minute == 59 && t.second == 59 { Midnight(t); } else { SameDay(t); }
  }

  lemma ShortestMonth(year: int, month: int)
    ensures DaysIn(year, month) >= 28
  {
  }
}
