/** Calendar time of the C library (libc/src/time/gmtime.c, mktime.c): the loops that find a
    date, the closed form that counts leap days, and the date as a sum over whole years and
    months, which both agree with. */
module Calendar {
  const DAY: int := 86400

  datatype Tm = Tm(sec: int, min: int, hour: int, mday: int, mon: int, year: int, wday: int, yday: int)

  /** is_leap_year */
  predicate Leap(year: int) {
    if year % 400 == 0 then true else if year % 4 == 0 then year % 100 != 0 else false
  }

  /** days_in_month */
  function MonthDays(month: int, leap: bool): int {
    if month <= 7 then
      if month % 2 == 1 then 31 else if month == 2 then 28 + (if leap then 1 else 0) else 30
    else if month % 2 == 0 then 31 else 30
  }

  /** Arithmetic of the 32-bit type int. */
  function Int32(x: int): int {
    (x + 0x8000_0000) % 0x1_0000_0000 - 0x8000_0000
  }

  lemma Int32Exact(x: int)
    ensures Int32(x) == x <==> -0x8000_0000 <= x < 0x8000_0000
  {
  }

  /** Remainder truncated toward zero. */
  function Rem(a: int, b: int): int
    requires b > 0
  {
    if a >= 0 then a % b else -((-a) % b)
  }

  /** Quotient truncated toward zero. */
  function Quot(a: int, b: int): int
    requires b > 0
  {
    if a >= 0 then a / b else -((-a) / b)
  }

  // ----- the date as a sum -----

  function YearDays(year: int): int {
    if Leap(year) then 366 else 365
  }

  /** Days from 1 January 1970 to 1 January of `year`, negative before 1970. */
  function DaysBefore(year: int): (d: int)
    ensures year >= 1970 ==> d >= 0
    decreases if year >= 1970 then year - 1970 else 1970 - year
  {
    if year == 1970 then 0
    else if year > 1970 then DaysBefore(year - 1) + YearDays(year - 1)
    else DaysBefore(year + 1) - YearDays(year)
  }

  /** Days from 1 January to the first of `month`. */
  function MonthStart(month: int, leap: bool): (d: int)
    ensures d >= 0
    decreases month
  {
    if month <= 1 then 0 else MonthStart(month - 1, leap) + MonthDays(month - 1, leap)
  }

  function DayOfYear(tm: Tm): int {
    MonthStart(tm.mon, Leap(tm.year)) + tm.mday - 1
  }

  function Clock(tm: Tm): int {
    3600 * tm.hour + 60 * tm.min + tm.sec
  }

  /** Seconds since 1 January 1970. */
  function Stamp(tm: Tm): int {
    DAY * (DaysBefore(tm.year) + DayOfYear(tm)) + Clock(tm)
  }

  predicate IsDate(tm: Tm) {
    && tm.year >= 1970 && 1 <= tm.mon <= 12 && 1 <= tm.mday <= MonthDays(tm.mon, Leap(tm.year))
    && 0 <= tm.hour < 24 && 0 <= tm.min < 60 && 0 <= tm.sec < 60
  }

  // ----- the months as everyone knows them -----

  const LENGTHS: seq<int> := [31, 28, 31, 30, 31, 30, 31, 31, 30, 31, 30, 31]
  const FIRSTS: seq<int> := [0, 31, 59, 90, 120, 151, 181, 212, 243, 273, 304, 334]

  function LengthOf(mon: int, leap: bool): int
    requires 1 <= mon <= 12
  {
    LENGTHS[mon - 1] + (if mon == 2 && leap then 1 else 0)
  }

  /** The day of the year on which a month begins. */
  function FirstOf(mon: int, leap: bool): int
    requires 1 <= mon <= 12
  {
    FIRSTS[mon - 1] + (if mon > 2 && leap then 1 else 0)
  }

  /** days_in_month, and what it adds up to, agree with the calendar for all twelve months. */
  lemma {:induction false} MonthTable(mon: int, leap: bool)
    requires 1 <= mon <= 12
    ensures MonthDays(mon, leap) == LengthOf(mon, leap) && MonthStart(mon, leap) == FirstOf(mon, leap)
    decreases mon
  {
    if mon > 1 {
      MonthTable(mon - 1, leap);
    }
  }

  /** Twelve months make a year. */
  lemma YearIsMonths(leap: bool)
    ensures MonthStart(13, leap) == 365 + (if leap then 1 else 0)
  {
  }

  lemma {:induction false} MonthsGrow(m: int, n: int, leap: bool)
    requires 1 <= m <= n
    ensures MonthStart(n, leap) >= MonthStart(m, leap) + 28 * (n - m)
    decreases n
  {
    if m < n {
      MonthsGrow(m, n - 1, leap);
    }
  }

  lemma {:induction false} YearsGrow(y: int, z: int)
    requires 1970 <= y <= z
    ensures DaysBefore(z) >= DaysBefore(y) + 365 * (z - y)
    decreases z
  {
    if y < z {
      YearsGrow(y, z - 1);
    }
  }

  /** A day of a year stays in that year, also 29 February in a common one. */
  lemma DayInYear(mon: int, mday: int, leap: bool, leap': bool)
    requires 1 <= mon <= 12 && 1 <= mday <= MonthDays(mon, leap')
    ensures 0 <= MonthStart(mon, leap) + mday - 1 < MonthStart(13, leap)
  {
    hide MonthStart;
    NextMonth(mon, leap);
    MonthsGrow(mon + 1, 13, leap);
  }

  lemma NextMonth(mon: int, leap: bool)
    requires mon >= 1
    ensures MonthStart(mon + 1, leap) == MonthStart(mon, leap) + MonthDays(mon, leap)
  {
  }

  // ----- the closed form -----

  /** (year - 1970) * 365 plus the leap days, as both functions compute it. */
  function LeapDays(year: int): int {
    Quot(year - 1, 4) - 1970 / 4 - (Quot(year - 1, 100) - 1970 / 100) + (Quot(year - 1, 400) - 1970 / 400)
  }

  /** The closed-form count of leap days is the sum over the years. */
  lemma {:induction false} LeapDaysIsSum(year: int)
    requires year >= 1
    ensures DaysBefore(year) == 365 * (year - 1970) + LeapDays(year)
    decreases if year >= 1970 then year - 1970 else 1970 - year
  {
    if year > 1970 {
      LeapDaysIsSum(year - 1);
      LeapStep(year - 1);
    } else if year < 1970 {
      LeapDaysIsSum(year + 1);
      LeapStep(year);
    }
  }

  /** In the year 0 the quotients, truncated toward zero, lose a leap day. */
  lemma LeapDaysFailsAtZero()
    ensures DaysBefore(0) == 365 * (0 - 1970) + LeapDays(0) - 1
  {
    LeapDaysIsSum(1);
  }

  lemma LeapStep(y: int)
    requires y >= 1
    ensures LeapDays(y + 1) == LeapDays(y) + (if Leap(y) then 1 else 0)
  {
    hide Leap;
    Carry4(y);
    Carry100(y);
    Carry400(y);
    LeapIs(y);
  }

  lemma Carry4(y: int)
    requires y > 0
    ensures y / 4 == (y - 1) / 4 + (if y % 4 == 0 then 1 else 0)
  {
  }

  lemma Carry100(y: int)
    requires y > 0
    ensures y / 100 == (y - 1) / 100 + (if y % 100 == 0 then 1 else 0)
  {
  }

  lemma Carry400(y: int)
    requires y > 0
    ensures y / 400 == (y - 1) / 400 + (if y % 400 == 0 then 1 else 0)
  {
  }

  /** Every fourth year, less every hundredth, plus every four-hundredth. */
  lemma LeapIs(y: int)
    ensures (if Leap(y) then 1 else 0) ==
      (if y % 4 == 0 then 1 else 0) - (if y % 100 == 0 then 1 else 0) + (if y % 400 == 0 then 1 else 0)
  {
    if y % 400 == 0 {
      Divides400(y);
    }
    if y % 100 == 0 {
      Divides100(y);
    }
  }

  lemma Divides400(y: int)
    requires y % 400 == 0
    ensures y % 100 == 0
  {
    assert y == 100 * (4 * (y / 400));
  }

  lemma Divides100(y: int)
    requires y % 100 == 0
    ensures y % 4 == 0
  {
    assert y == 4 * (25 * (y / 100));
  }

  // ----- gmtime -----

  /** A date is determined by its time stamp. */
  lemma DateUnique(a: Tm, b: Tm)
    requires IsDate(a) && IsDate(b) && Stamp(a) == Stamp(b)
    ensures a.year == b.year && a.mon == b.mon && a.mday == b.mday
    ensures a.hour == b.hour && a.min == b.min && a.sec == b.sec
  {
    hide DaysBefore, MonthStart, Leap, MonthDays;
    SplitStamp(a);
    SplitStamp(b);
    if a.year < b.year {
      YearApart(a, b);
    } else if b.year < a.year {
      YearApart(b, a);
    }
    if a.mon < b.mon {
      MonthApart(a, b);
    } else if b.mon < a.mon {
      MonthApart(b, a);
    }
  }

  lemma SplitStamp(a: Tm)
    requires IsDate(a)
    ensures 0 <= Clock(a) < DAY && Stamp(a) / DAY == DaysBefore(a.year) + DayOfYear(a) && Stamp(a) % DAY == Clock(a)
  {
  }

  lemma YearApart(a: Tm, b: Tm)
    requires IsDate(a) && IsDate(b) && a.year < b.year
    ensures DaysBefore(a.year) + DayOfYear(a) < DaysBefore(b.year) + DayOfYear(b)
  {
    hide DaysBefore, MonthStart, MonthDays, Leap;
    DayInYear(a.mon, a.mday, Leap(a.year), Leap(a.year));
    DayInYear(b.mon, b.mday, Leap(b.year), Leap(b.year));
    YearIsMonths(Leap(a.year));
    YearsGrow(a.year + 1, b.year);
    NextYear(a.year);
  }

  lemma MonthApart(a: Tm, b: Tm)
    requires IsDate(a) && IsDate(b) && a.year == b.year && a.mon < b.mon
    ensures DayOfYear(a) < DayOfYear(b)
  {
    hide MonthStart, Leap;
    NextMonth(a.mon, Leap(a.year));
    MonthsGrow(a.mon + 1, b.mon, Leap(a.year));
  }

  /** The weekday as the code computes it, in 32-bit arithmetic. */
  function Weekday(year: int, yday: int): int {
    Rem(Int32(4 + Int32(365 * (year - 1970) + LeapDays(year) + yday)), 7)
  }

  /** Whether the 32-bit count of days, n = 4 + days, still yields the weekday: the number of
      wraps is a multiple of 7 and the wrapped count is not negative (a negative one leaves
      a negative remainder) or a multiple of 7. */
  predicate WeekdayFits(n: int) {
    (n + 0x8000_0000) / 0x1_0000_0000 % 7 == 0 && (Int32(n) >= 0 || Int32(n) % 7 == 0)
  }

  /** The computed weekday is right exactly for those counts. */
  lemma WeekdayIs(year: int, yday: int)
    requires year >= 1970 && 0 <= yday
    ensures var n := 4 + DaysBefore(year) + yday;
      && (Weekday(year, yday) == n % 7 <==> WeekdayFits(n))
      && (n < 0x8000_0000 ==> WeekdayFits(n))
  {
    hide Int32, LeapDays, DaysBefore, WeekdayFits;
    LeapDaysIsSum(year);
    var days := DaysBefore(year) + yday;
    Int32Twice(days);
    RemainderFits(4 + days);
  }

  lemma Int32Twice(x: int)
    ensures Int32(4 + Int32(x)) == Int32(4 + x)
  {
    var k := (x + 0x8000_0000) / 0x1_0000_0000;
    assert Int32(x) == x - 0x1_0000_0000 * k;
    Int32Shift(4 + x, k);
  }

  lemma Int32Shift(x: int, k: int)
    ensures Int32(x - 0x1_0000_0000 * k) == Int32(x)
  {
    var y := x + 0x8000_0000;
    var q, r := y / 0x1_0000_0000, y % 0x1_0000_0000;
    assert y - 0x1_0000_0000 * k == 0x1_0000_0000 * (q - k) + r;
    Word(y - 0x1_0000_0000 * k, q - k, r);
  }

  lemma Word(y: int, q: int, r: int)
    requires y == 0x1_0000_0000 * q + r && 0 <= r < 0x1_0000_0000
    ensures y % 0x1_0000_0000 == r && y / 0x1_0000_0000 == q
  {
  }

  lemma RemainderFits(n: int)
    requires n >= 0
    ensures Rem(Int32(n), 7) == n % 7 <==> WeekdayFits(n)
    ensures n < 0x8000_0000 ==> WeekdayFits(n)
  {
    var v, k := Int32(n), (n + 0x8000_0000) / 0x1_0000_0000;
    assert n == v + 0x1_0000_0000 * k;
    Sevens(n, v, k);
  }

  /** 2^32 leaves 4 when divided by 7, so k wraps move the remainder by 4 * k. */
  lemma Sevens(n: int, v: int, k: int)
    requires n == v + 0x1_0000_0000 * k
    ensures v % 7 == n % 7 <==> k % 7 == 0
  {
    assert 0x1_0000_0000 == 7 * 613566756 + 4;
    assert n - v == 7 * (613566756 * k) + 4 * k;
    ModSeven(n - v, 613566756 * k, 4 * k);
    FourSevens(k);
    SameRemainder(n, v);
  }

  lemma ModSeven(x: int, q: int, s: int)
    requires x == 7 * q + s
    ensures x % 7 == s % 7
  {
  }

  lemma FourSevens(k: int)
    ensures (4 * k) % 7 == 0 <==> k % 7 == 0
  {
  }

  lemma SameRemainder(n: int, v: int)
    ensures (n - v) % 7 == 0 <==> n % 7 == v % 7
  {
  }

  /** gmtime: the valid date whose time stamp is t, for every t whose year fits in an int. */
  method Gmtime(t: int) returns (tm: Tm)
    requires 0 <= t < DAY * DaysBefore(0x8000_0000)
    ensures IsDate(tm) && Stamp(tm) == t
    ensures tm.yday == DayOfYear(tm) == t / DAY - DaysBefore(tm.year)
    ensures tm.mday <= LengthOf(tm.mon, Leap(tm.year)) && tm.yday == FirstOf(tm.mon, Leap(tm.year)) + tm.mday - 1
    ensures tm.wday == (4 + t / DAY) % 7 <==> WeekdayFits(4 + t / DAY)
    ensures 4 + t / DAY < 0x8000_0000 ==> WeekdayFits(4 + t / DAY)
  {
    hide Leap, MonthDays, MonthStart, DaysBefore, Weekday, WeekdayFits, LengthOf, FirstOf;
    var clone := t;
    var year := 1970;
    FirstYear();
    while true
      invariant year >= 1970 && clone >= 0 && clone + DAY * DaysBefore(year) == t
      decreases clone
    {
      NextYear(year);
      var sec := 365 * DAY;
      if Leap(year) {
        sec := sec + DAY;
      }
      if clone >= sec {
        clone := clone - sec;
        year := year + 1;
      } else {
        break;
      }
    }
    NextYear(year);
    var yday := clone / DAY;
    var leap := Leap(year);
    var mon := 1;
    ghost var inYear := clone;
    MonthStartIs(mon, leap);
    YearIsMonths(leap);
    while true
      invariant 1 <= mon <= 12 && clone >= 0 && clone + DAY * MonthStart(mon, leap) == inYear
      decreases clone
    {
      MonthStartIs(mon, leap);
      var sec := MonthDays(mon, leap) * DAY;
      if clone >= sec {
        clone := clone - sec;
        mon := mon + 1;
      } else {
        break;
      }
    }
    MonthStartIs(mon, leap);
    var mday := 1 + clone / DAY;
    clone := clone % DAY;
    var hour := clone / 3600;
    clone := clone % 3600;
    var min, sec := clone / 60, clone % 60;
    tm := Tm(sec, min, hour, mday, mon, year, Weekday(year, yday), yday);
    assert Stamp(tm) == t;
    MonthTable(mon, leap);
    WeekdayIs(year, yday);
  }

  lemma FirstYear()
    ensures DaysBefore(1970) == 0
  {
  }

  lemma NextYear(year: int)
    requires year >= 1970
    ensures DaysBefore(year + 1) == DaysBefore(year) + 365 + (if Leap(year) then 1 else 0)
  {
  }

  lemma MonthStartIs(mon: int, leap: bool)
    requires mon >= 1
    ensures MonthStart(1, leap) == 0 && MonthDays(mon, leap) >= 28
    ensures MonthStart(mon + 1, leap) == MonthStart(mon, leap) + MonthDays(mon, leap)
  {
  }

  // ----- mktime -----

  /** What a 32-bit product is off by: 0, or a multiple of 2^32. */
  function Off(x: int): int {
    Int32(x) - x
  }

  /** mktime: the time stamp, off by what its four 32-bit products lose when they wrap. */
  method Mktime(tm: Tm) returns (t: int)
    ensures 1 <= tm.year < 0x8000_0000 ==>
      && t == Stamp(tm) + DAY * Off(365 * (tm.year - 1970))
              + Off(DAY * (tm.mday - 1)) + Off(60 * tm.min) + Off(3600 * tm.hour)
      && (1 <= tm.mon <= 12 ==>
            Stamp(tm) == DAY * (DaysBefore(tm.year) + FirstOf(tm.mon, Leap(tm.year)) + tm.mday - 1)
                         + 3600 * tm.hour + 60 * tm.min + tm.sec)
  {
    hide Leap, MonthDays, MonthStart, DaysBefore, LeapDays, Int32, FirstOf, LengthOf;
    var leap := Leap(tm.year);
    t := Int32(365 * Int32(tm.year - 1970)) + LeapDays(tm.year);
    t := t * DAY;
    ghost var years := t;
    var m := 1;
    MonthStartIs(1, leap);
    MonthStartEarly(tm.mon, leap);
    while m < tm.mon
      invariant 1 <= m && (m <= tm.mon || m == 1) && t == years + DAY * MonthStart(m, leap)
    {
      MonthStartIs(m, leap);
      t := t + MonthDays(m, leap) * DAY;
      m := m + 1;
    }
    t := t + Int32(DAY * (tm.mday - 1));
    t := t + tm.sec;
    t := t + Int32(60 * tm.min);
    t := t + Int32(3600 * tm.hour);
    if 1 <= tm.year < 0x8000_0000 {
      LeapDaysIsSum(tm.year);
      Int32Exact(tm.year - 1970);
      if 1 <= tm.mon <= 12 {
        MonthTable(tm.mon, leap);
      }
    }
  }

  /** Fields small enough that no product but that of the years leaves 32 bits. */
  predicate Ordinary(tm: Tm) {
    1970 <= tm.year < 0x8000_0000 && 0 <= tm.mday < 64 && 0 <= tm.hour < 64 && 0 <= tm.min < 64
  }

  lemma OrdinaryLosesNothing(tm: Tm)
    requires Ordinary(tm)
    ensures Off(DAY * (tm.mday - 1)) == 0 && Off(60 * tm.min) == 0 && Off(3600 * tm.hour) == 0
    ensures Off(365 * (tm.year - 1970)) == 0 <==> 365 * (tm.year - 1970) < 0x8000_0000
  {
    hide Int32;
    Int32Exact(DAY * (tm.mday - 1));
    Int32Exact(60 * tm.min);
    Int32Exact(3600 * tm.hour);
    Int32Exact(365 * (tm.year - 1970));
  }

  lemma MonthStartEarly(mon: int, leap: bool)
    ensures mon <= 1 ==> MonthStart(mon, leap) == 0
  {
  }

  /** mktime undoes gmtime exactly as long as (year - 1970) * 365 fits in 32 bits. */
  method Inverse(t: int) returns (tm: Tm, back: int)
    requires 0 <= t < DAY * DaysBefore(0x8000_0000)
    ensures IsDate(tm) && Stamp(tm) == t
    ensures back == t <==> 365 * (tm.year - 1970) < 0x8000_0000
  {
    hide Leap, MonthDays, MonthStart, DaysBefore, Off;
    tm := Gmtime(t);
    YearInRange(tm, t);
    DateOrdinary(tm);
    OrdinaryLosesNothing(tm);
    back := Mktime(tm);
  }

  lemma DateOrdinary(tm: Tm)
    requires IsDate(tm) && tm.year < 0x8000_0000
    ensures Ordinary(tm)
  {
  }

  /** Time stamps before the year 2^31 have years that fit in an int. */
  lemma YearInRange(tm: Tm, t: int)
    requires IsDate(tm) && Stamp(tm) == t < DAY * DaysBefore(0x8000_0000)
    ensures tm.year < 0x8000_0000
  {
    hide Leap, MonthDays, MonthStart, DaysBefore;
    if tm.year >= 0x8000_0000 {
      YearsGrow(0x8000_0000, tm.year);
    }
  }

  /** Midnight of 1 January as a date. */
  lemma NewYear(year: int)
    requires year >= 1970
    ensures var tm := Tm(0, 0, 0, 1, 1, year, 0, 0);
      IsDate(tm) && Stamp(tm) == DAY * DaysBefore(year) && DaysBefore(year) == 365 * (year - 1970) + LeapDays(year)
  {
    hide DaysBefore, LeapDays, Leap;
    LeapDaysIsSum(year);
  }

  /** The first day whose count does not fit in 32 bits gets the wrong weekday. */
  method WeekdayFails() returns (tm: Tm)
    ensures IsDate(tm) && Stamp(tm) == DAY * 0x7fff_fffc && tm.wday != (4 + 0x7fff_fffc) % 7
  {
    hide Leap, MonthDays, MonthStart, DaysBefore, Stamp, IsDate;
    YearsGrow(1970, 0x8000_0000);
    var t := DAY * 0x7fff_fffc;
    tm := Gmtime(t);
    assert t / DAY == 0x7fff_fffc;
  }

  /** The first year whose product wraps is not given back by mktime. */
  method InverseFails() returns (tm: Tm, back: int)
    ensures IsDate(tm) && tm.year == 5885487 && back != Stamp(tm)
  {
    hide Leap, MonthDays, MonthStart, DaysBefore, Stamp, IsDate;
    var start := Tm(0, 0, 0, 1, 1, 5885487, 0, 0);
    NewYear(5885487);
    YearsGrow(5885487, 0x8000_0000);
    tm, back := Inverse(DAY * (365 * (5885487 - 1970) + LeapDays(5885487)));
    DateUnique(tm, start);
  }
}
