/** The Gregorian calendar, from dates to seconds (kernel/time.c) and back
    (userland/lib/time.c), and the day of the week (common/calendar.h). */
module Calendar {
  import opened Basics

  const EPOCH := 1970
  const SECONDS_PER_DAY := 60 * 60 * 24

  predicate IsLeapYear(year: nat) {
    year % 4 == 0 && (year % 100 != 0 || year % 400 == 0)
  }

  function DaysInYear(year: nat): nat {
    if IsLeapYear(year) then 366 else 365
  }

  function DaysInMonth(year: nat, month: nat): (d: nat)
    requires 1 <= month <= 12
    ensures 28 <= d <= 31
  {
    if month == 2 && IsLeapYear(year) then 29
    else [31, 28, 31, 30, 31, 30, 31, 31, 30, 31, 30, 31][month - 1]
  }

  /** The days of a year before a month. */
  function MonthStart(year: nat, month: nat): nat
    requires 1 <= month <= 13
    decreases month
  {
    if month == 1 then 0 else MonthStart(year, month - 1) + DaysInMonth(year, month - 1)
  }

  /** The days before a year, from the epoch on. */
  function YearStart(year: nat): nat
    requires year >= EPOCH
  {
    if year == EPOCH then 0 else YearStart(year - 1) + DaysInYear(year - 1)
  }

  datatype Date = Date(year: nat, month: nat, day: nat) {
    predicate Valid() {
      year >= EPOCH && 1 <= month <= 12 && 1 <= day <= DaysInMonth(year, month)
    }

    function DayOfYear(): nat
      requires Valid()
    {
      MonthStart(year, month) + day - 1
    }

    /** Days since the epoch. */
    function Days(): nat
      requires Valid()
    {
      YearStart(year) + DayOfYear()
    }
  }

  /** The formula at the end of rtc_now. */
  function Combine(days: nat, hour: nat, minute: nat, second: nat): nat {
    ((days * 24 + hour) * 60 + minute) * 60 + second
  }

  datatype Moment = Moment(date: Date, hour: nat, minute: nat, second: nat) {
    predicate Valid() {
      date.Valid() && hour < 24 && minute < 60 && second < 60
    }

    /** Seconds since the epoch. */
    function Seconds(): nat
      requires Valid()
    {
      Combine(date.Days(), hour, minute, second)
    }
  }

  // ----- dates are counted one to one -----

  lemma MonthStarts(year: nat)
    ensures MonthStart(year, 2) == 31
    ensures var leap := if IsLeapYear(year) then 1 else 0;
            && MonthStart(year, 3) == 59 + leap && MonthStart(year, 4) == 90 + leap && MonthStart(year, 5) == 120 + leap
            && MonthStart(year, 6) == 151 + leap && MonthStart(year, 7) == 181 + leap
            && MonthStart(year, 8) == 212 + leap
            && MonthStart(year, 9) == 243 + leap && MonthStart(year, 10) == 273 + leap
            && MonthStart(year, 11) == 304 + leap
            && MonthStart(year, 12) == 334 + leap && MonthStart(year, 13) == DaysInYear(year)
  {
    hide IsLeapYear;
    assert MonthStart(year, 1) == 0;
    assert MonthStart(year, 3) == MonthStart(year, 2) + DaysInMonth(year, 2);
    assert MonthStart(year, 5) == MonthStart(year, 4) + 30;
    assert MonthStart(year, 7) == MonthStart(year, 6) + 30;
    assert MonthStart(year, 9) == MonthStart(year, 8) + 31;
    assert MonthStart(year, 11) == MonthStart(year, 10) + 31;
  }

  lemma {:induction false} MonthsGrow(year: nat, a: nat, b: nat)
    requires 1 <= a < b <= 13
    ensures MonthStart(year, a) + DaysInMonth(year, a) <= MonthStart(year, b)
    decreases b
  {
    if a < b - 1 { MonthsGrow(year, a, b - 1); }
  }

  lemma {:induction false} YearsGrow(a: nat, b: nat)
    requires EPOCH <= a < b
    ensures YearStart(a) + DaysInYear(a) <= YearStart(b)
    decreases b
  {
    if a < b - 1 { YearsGrow(a, b - 1); }
  }

  lemma DayOfYearInYear(d: Date)
    requires d.Valid()
    ensures d.DayOfYear() < DaysInYear(d.year)
  {
    MonthStarts(d.year);
    MonthsGrow(d.year, d.month, 13);
  }

  /** Two dates with the same count of days are the same. */
  lemma DaysInjective(a: Date, b: Date)
    requires a.Valid() && b.Valid() && a.Days() == b.Days()
    ensures a == b
  {
    hide IsLeapYear, DaysInMonth;
    DayOfYearInYear(a);
    DayOfYearInYear(b);
    if a.year < b.year { YearsGrow(a.year, b.year); }
    if b.year < a.year { YearsGrow(b.year, a.year); }
    if a.month < b.month { MonthsGrow(a.year, a.month, b.month); }
    if b.month < a.month { MonthsGrow(a.year, b.month, a.month); }
  }

  /** Two moments with the same count of seconds are the same. */
  lemma SecondsInjective(a: Moment, b: Moment)
    requires a.Valid() && b.Valid() && a.Seconds() == b.Seconds()
    ensures a == b
  {
    hide Date.Valid, Date.Days;
    assert a.date.Days() == b.date.Days();
    DaysInjective(a.date, b.date);
  }

  // ----- the day of the week -----

  /** Zeller's congruence, as day_of_week has it. */
  function DayOfWeek(year: nat, month: nat, day: nat): nat
    requires year >= EPOCH && 1 <= month <= 12
  {
    var y := if month <= 2 then year - 1 else year;
    var m := if month <= 2 then month + 12 else month;
    (day + (13 * m + 8) / 5 + y + y / 4 - y / 100 + y / 400) % 7
  }

  /** Leap days up to and including a year. */
  function LeapDays(year: nat): int {
    year / 4 - year / 100 + year / 400
  }

  lemma LeapDaysStep(year: nat)
    requires year > 0
    ensures LeapDays(year) == LeapDays(year - 1) + if IsLeapYear(year) then 1 else 0
  {
    Quotient(year, 4);
    Quotient(year, 100);
    Quotient(year, 400);
  }

  lemma Quotient(x: nat, d: nat)
    requires x > 0 && d > 0
    ensures x / d == (x - 1) / d + if x % d == 0 then 1 else 0
  {
    var q, r := (x - 1) / d, (x - 1) % d;
    assert x == q * d + (r + 1);
    if r + 1 == d {
      DivisionIs(x, d, q + 1, 0);
    } else {
      DivisionIs(x, d, q, r + 1);
    }
  }

  lemma DivisionIs(x: nat, d: nat, q: nat, r: nat)
    requires 0 < d && x == q * d + r && r < d
    ensures x / d == q && x % d == r
  {
    var a := x / d - q;
    assert a * d == r - x % d;
    SmallMultiple(a, d);
  }

  /** The days before a year, in closed form. */
  lemma {:induction false} YearStartClosed(year: nat)
    requires year >= EPOCH
    ensures YearStart(year) == 365 * (year - EPOCH) + LeapDays(year - 1) - 477
  {
    if year > EPOCH {
      YearStartClosed(year - 1);
      LeapDaysStep(year - 1);
    }
  }

  /** The days of a year before a month, up to multiples of 7. */
  function MonthShift(month: nat): int
    requires 1 <= month <= 12
  {
    (13 * (if month <= 2 then month + 12 else month) + 8) / 5
  }

  lemma MonthShiftIs(year: nat, month: nat) returns (k: int)
    requires 1 <= month <= 12
    ensures var leap := if month > 2 && IsLeapYear(year) then 1 else 0;
            MonthShift(month) == MonthStart(year, month) - leap + (if month <= 2 then 0 else 6) + 7 * k
  {
    MonthStarts(year);
    k := [5, 1, -8, -12, -16, -20, -24, -28, -32, -36, -40, -44][month - 1];
  }

  lemma SameModSeven(a: int, b: int, k: int)
    requires a == b + 7 * k
    ensures a % 7 == b % 7
  {
  }

  /** The epoch was a Thursday, and each day moves the day of the week on by one. */
  lemma Zeller(d: Date)
    requires d.Valid()
    ensures DayOfWeek(d.year, d.month, d.day) == (4 + d.Days()) % 7
  {
    hide IsLeapYear, MonthStart, MonthShift, DaysInMonth, YearStart;
    var k := MonthShiftIs(d.year, d.month);
    YearStartClosed(d.year);
    LeapDaysStep(d.year);
    var y := if d.month <= 2 then d.year - 1 else d.year;
    var sum := d.day + MonthShift(d.month) + y + LeapDays(y);
    SameModSeven(sum, 4 + d.Days(), k - 52 * d.year + if d.month <= 2 then 102789 else 102790);
    ZellerSum(d.year, d.month, d.day);
  }

  lemma ZellerSum(year: nat, month: nat, day: nat)
    requires year >= EPOCH && 1 <= month <= 12
    ensures var y := if month <= 2 then year - 1 else year;
            DayOfWeek(year, month, day) == (day + MonthShift(month) + y + LeapDays(y)) % 7
  {
    var y := if month <= 2 then year - 1 else year;
    assert day + MonthShift(month) + y + LeapDays(y) == day + MonthShift(month) + y + y / 4 - y / 100 + y / 400;
  }

  // ----- the functions of the source that loop -----

  /** day_of_year. */
  method DayOfYear(year: nat, month: nat, day: nat) returns (result: nat)
    requires Date(year, month, day).Valid()
    ensures result == Date(year, month, day).DayOfYear()
  {
    result := day - 1;
    var m := 1;
    while m < month
      invariant 1 <= m <= month && result == day - 1 + MonthStart(year, m)
    {
      result := result + DaysInMonth(year, m);
      m := m + 1;
    }
  }

  /** days_since_epoch. */
  method DaysSinceEpoch(year: nat, month: nat, day: nat) returns (days: nat)
    requires Date(year, month, day).Valid()
    ensures days == Date(year, month, day).Days()
  {
    days := DayOfYear(year, month, day);
    var y := EPOCH;
    while y < year
      invariant EPOCH <= y <= year && days == Date(year, month, day).DayOfYear() + YearStart(y)
    {
      days := days + DaysInYear(y);
      y := y + 1;
    }
  }

  /** struct tm. */
  class BrokenDown {
    var sec: nat
    var min: nat
    var hour: nat
    var mday: nat
    var mon: nat
    var year: int
    var wday: nat
    var yday: nat

    constructor () { }

    /** The moment the fields say; months are counted from 0 and years from 1900. */
    ghost function Says(): Moment
      reads this
      requires year >= -1900
    {
      Moment(Date(year + 1900, mon + 1, mday), hour, min, sec)
    }

    /** gmtime_r: the fields are the only valid moment that is `time` seconds after the epoch. */
    method FromTime(time: nat)
      modifies this
      ensures year >= 70 && mon < 12 && wday < 7 && Says().Valid() && Says().Seconds() == time
      ensures forall m: Moment :: m.Valid() && m.Seconds() == time ==> Says() == m
      ensures yday == Says().date.DayOfYear() && wday == (4 + Says().date.Days()) % 7
    {
      hide IsLeapYear, DaysInMonth, DaysInYear, YearStart, MonthStart, DayOfWeek, Date.Days, Date.DayOfYear, Date.Valid;
      FirstYear();
      var left: nat := time;
      var y := EPOCH;
      while left >= DaysInYear(y) * SECONDS_PER_DAY
        modifies {}
        invariant y >= EPOCH && left + YearStart(y) * SECONDS_PER_DAY == time
        decreases left
      {
        NextYear(y);
        left := left - DaysInYear(y) * SECONDS_PER_DAY;
        y := y + 1;
      }
      year := y - 1900;
      var days: nat, seconds: nat := left / SECONDS_PER_DAY, left % SECONDS_PER_DAY;
      yday := days;
      sec := seconds % 60;
      var minutes := seconds / 60;
      hour := minutes / 60;
      min := minutes % 60;
      FirstMonth(y);
      var month := 1;
      while month < 12 && days >= DaysInMonth(y, month)
        modifies {}
        invariant 1 <= month <= 12 && days + MonthStart(y, month) == yday
        decreases 12 - month
      {
        NextMonth(y, month);
        days := days - DaysInMonth(y, month);
        month := month + 1;
      }
      NextMonth(y, month);
      mon := month - 1;
      mday := days + 1;
      wday := DayOfWeek(y, month, mday);
      DateIs(y, month, mday);
      SecondsAre(time, left, YearStart(y), yday);
      Zeller(Date(y, month, mday));
      forall m: Moment | m.Valid() && m.Seconds() == time ensures Says() == m {
        SecondsInjective(Says(), m);
      }
    }
  }

  lemma FirstYear()
    ensures YearStart(EPOCH) == 0
  {
  }

  lemma NextYear(y: nat)
    requires y >= EPOCH
    ensures YearStart(y + 1) == YearStart(y) + DaysInYear(y) && DaysInYear(y) > 0
  {
  }

  lemma FirstMonth(y: nat)
    ensures MonthStart(y, 1) == 0 && MonthStart(y, 13) == DaysInYear(y)
  {
    MonthStarts(y);
  }

  lemma NextMonth(y: nat, month: nat)
    requires 1 <= month <= 12
    ensures MonthStart(y, month + 1) == MonthStart(y, month) + DaysInMonth(y, month)
  {
  }

  lemma DateIs(y: nat, month: nat, day: nat)
    requires y >= EPOCH && 1 <= month <= 12 && 1 <= day <= DaysInMonth(y, month)
    ensures var d := Date(y, month, day);
            d.Valid() && d.DayOfYear() == MonthStart(y, month) + day - 1 && d.Days() == YearStart(y) + d.DayOfYear()
  {
  }

  /** Days and seconds put together again. */
  lemma SecondsAre(time: nat, left: nat, before: nat, day: nat)
    requires left + before * SECONDS_PER_DAY == time && day == left / SECONDS_PER_DAY
    ensures var s := left % SECONDS_PER_DAY;
            s / 60 / 60 < 24 && Combine(before + day, s / 60 / 60, s / 60 % 60, s % 60) == time
  {
  }

  // ----- the real-time clock -----

  type Register = b: int | 0 <= b < 0x100

  function BcdToBin(bcd: Register): nat {
    bcd % 0x10 + bcd / 0x10 * 10
  }

  /** The hour that rtc_now takes from its register, in a clock of 24 hours or of 12, in
      binary or in binary-coded decimal. */
  function ClockHour(raw: Register, hours24: bool, binary: bool): nat {
    var hour := if binary then raw else BcdToBin(raw % 0x80);
    if hours24 then hour
    else
      var h := hour % 12;
      if h / 0x80 % 2 == 1 then h + 12 else h
  }

  function Bcd(x: nat): Register
    requires x < 100
  {
    x / 10 * 0x10 + x % 10
  }

  /** How the register holds an hour: a clock of 12 hours has 12 for 0, and bit 7 for the afternoon. */
  function HourRegister(hour: nat, hours24: bool, binary: bool): Register
    requires hour < 24
  {
    var h := if hours24 then hour else if hour % 12 == 0 then 12 else hour % 12;
    (if binary then h else Bcd(h)) + if !hours24 && hour >= 12 then 0x80 else 0
  }

  /** The hour is right unless the clock has 12 hours and it is afternoon: the bit for the
      afternoon is tested when the remainder by 12 has removed it. Then it is read twelve hours
      early in binary coded decimals, and in binary with 128 added, which is 8 modulo 12. */
  lemma ClockHourRight(hour: nat, hours24: bool, binary: bool)
    requires hour < 24
    ensures ClockHour(HourRegister(hour, hours24, binary), hours24, binary) == hour <==> hours24 || hour < 12
    ensures !hours24 && hour >= 12 ==>
              ClockHour(HourRegister(hour, hours24, binary), hours24, binary)
              == if binary then (hour + 8) % 12 else hour - 12
  {
    hide ClockHour, HourRegister;
    if !hours24 && hour >= 12 { InTheAfternoon(hour, binary); } else { AsItIs(hour, hours24, binary); }
  }

  lemma AsItIs(hour: nat, hours24: bool, binary: bool)
    requires hour < 24 && (hours24 || hour < 12)
    ensures ClockHour(HourRegister(hour, hours24, binary), hours24, binary) == hour
  {
    hide BcdToBin, Bcd;
    var h := if hour == 0 && !hours24 then 12 else hour;
    assert !hours24 ==> hour % 12 == hour;
    assert HourRegister(hour, hours24, binary) == if binary then h else Bcd(h);
    BcdRoundTrip(h);
  }

  lemma InTheAfternoon(hour: nat, binary: bool)
    requires 12 <= hour < 24
    ensures ClockHour(HourRegister(hour, false, binary), false, binary)
            == if binary then (hour + 8) % 12 else hour - 12
  {
    hide BcdToBin, Bcd;
    var h := if hour == 12 then 12 else hour - 12;
    assert hour % 12 == hour - 12;
    BcdRoundTrip(h);
    if binary { assert (h + 0x80) % 12 == (hour + 8) % 12; }
  }

  lemma BcdRoundTrip(x: nat)
    requires x < 100
    ensures BcdToBin(Bcd(x)) == x && (x < 80 ==> Bcd(x) < 0x80)
  {
  }
}
