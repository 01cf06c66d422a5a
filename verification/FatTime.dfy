/** The packed timestamps of FAT32 (kernel/src/filesystem/fat32.c; "Date and Time Formats"
    of the Microsoft FAT32 specification): seconds, minutes and hours in one 16-bit word,
    day, month and year since 1980 in another, put in with `|` and `<<` and taken out with
    `>>` and masks. */
module FatTime {
  import opened Calendar

  // ----- the two words -----

  function JoinTime(sec2: bv16, min: bv16, hour: bv16): bv16 { sec2 | (min << 5) | (hour << 11) }

  function JoinDate(mday: bv16, mon: bv16, years: bv16): bv16 { mday | (mon << 5) | (years << 9) }

  function Low5(w: bv16): bv16 { w & 0x1f }

  function Minutes(time: bv16): bv16 { (time >> 5) & 0x3f }

  function Hours(time: bv16): bv16 { time >> 11 }

  function Months(date: bv16): bv16 { (date >> 5) & 0xf }

  function Years(date: bv16): bv16 { date >> 9 }

  function Low7(w: bv16): bv16 { w & 0x7f }

  function Value(w: bv16): int { w as int }

  /** The shifts and masks of the code give back the three fields of a time. */
  lemma TimeBits(sec2: bv16, min: bv16, hour: bv16)
    requires sec2 < 32 && min < 64 && hour < 32
    ensures var w := JoinTime(sec2, min, hour);
      Low5(w) == sec2 && Minutes(w) == min && Hours(w) == hour
  {
  }

  /** Of a date they give back day, month and the low 7 bits of the year. */
  lemma DateBits(mday: bv16, mon: bv16, years: bv16)
    requires mday < 32 && mon < 16
    ensures var w := JoinDate(mday, mon, years);
      Low5(w) == mday && Months(w) == mon && Years(w) == Low7(years)
  {
  }

  /** An int on its way into a word: its low byte, as two digits of four bits.  Every field
      is smaller than a byte but the year, whose higher bits the shift by 9 pushes out of
      the 16-bit word. */
  function Field(x: int): bv16 {
    Digits(Digit((x / 16) % 16), Digit(x % 16))
  }

  function Digit(x: int): bv4
    requires 0 <= x < 16
  {
    x as bv4
  }

  function Digits(high: bv4, low: bv4): bv16 {
    ((high as bv16) << 4) | (low as bv16)
  }

  lemma DigitValue(x: int)
    requires 0 <= x < 16
    ensures Digit(x) as int == x
  {
  }

  lemma DigitsValue(high: bv4, low: bv4)
    ensures Value(Digits(high, low)) == 16 * (high as int) + (low as int)
  {
  }

  /** The low 7 bits of the byte lose half of the high digit. */
  lemma LowSeven(high: bv4, low: bv4)
    ensures Value(Low7(Digits(high, low))) == 16 * ((high as int) % 8) + (low as int)
  {
  }

  lemma Smaller(w: bv16)
    ensures Value(w) < 64 ==> w < 64
    ensures Value(w) < 32 ==> w < 32
    ensures Value(w) < 16 ==> w < 16
  {
  }

  lemma FieldValue(x: int)
    requires 0 <= x < 256
    ensures Value(Field(x)) == x
  {
    hide Digit, Digits, Value, Low7;
    var h, l := x / 16, x % 16;
    assert 0 <= h < 16 && x == 16 * h + l && h % 16 == h;
    DigitValue(h);
    DigitValue(l);
    DigitsValue(Digit(h), Digit(l));
  }

  lemma FieldSmaller(x: int)
    requires 0 <= x < 64
    ensures Value(Field(x)) == x
    ensures Field(x) < 64 && (x < 32 ==> Field(x) < 32) && (x < 16 ==> Field(x) < 16)
  {
    hide Field, Value;
    FieldValue(x);
    Smaller(Field(x));
  }

  lemma YearValue(x: int)
    ensures Value(Low7(Field(x))) == x % 128
  {
    hide Digit, Digits, Value, Low7;
    var h, l := (x / 16) % 16, x % 16;
    DigitValue(h);
    DigitValue(l);
    LowSeven(Digit(h), Digit(l));
    SevenOfEight(x);
  }

  lemma SevenOfEight(x: int)
    ensures x % 128 == 16 * (((x / 16) % 16) % 8) + x % 16
  {
    var q := x / 16;
    var k := q / 8;
    assert x == 16 * q + x % 16 && q == 8 * k + q % 8;
    ThreeOfFour(q);
    Remainder(x, k, 16 * (q % 8) + x % 16);
  }

  lemma ThreeOfFour(q: int)
    ensures (q % 16) % 8 == q % 8
  {
    var m := q % 16;
    assert q == 8 * (2 * (q / 16) + m / 8) + m % 8;
    Remainder8(q, 2 * (q / 16) + m / 8, m % 8);
  }

  lemma Remainder8(x: int, k: int, r: int)
    requires x == 8 * k + r && 0 <= r < 8
    ensures x % 8 == r
  {
  }

  lemma Remainder(x: int, k: int, r: int)
    requires x == 128 * k + r && 0 <= r < 128
    ensures x % 128 == r
  {
  }

  /** parse_timestamp */
  function PackTime(tm: Tm): bv16
    requires IsDate(tm)
  {
    JoinTime(Field(tm.sec / 2), Field(tm.min), Field(tm.hour))
  }

  function PackDate(tm: Tm): bv16
    requires IsDate(tm)
  {
    JoinDate(Field(tm.mday), Field(tm.mon), Field(if tm.year >= 1980 then tm.year - 1980 else 0))
  }

  /** The two words, as numbers: 5 bits of seconds by two, 6 of minutes and 5 of hours; 5
      bits of day, 4 of month and 7 of year. */
  lemma WordsAre(tm: Tm)
    requires IsDate(tm)
    ensures Value(PackTime(tm)) == tm.sec / 2 + 32 * tm.min + 2048 * tm.hour
    ensures Value(PackDate(tm)) == tm.mday + 32 * tm.mon + 512 * (KeptYear(tm.year) - 1980)
  {
    hide Leap, MonthDays, Field, Value, Low7, JoinTime, JoinDate;
    DayFits(tm);
    FieldSmaller(tm.sec / 2);
    FieldSmaller(tm.min);
    FieldSmaller(tm.hour);
    TimeSum(Field(tm.sec / 2), Field(tm.min), Field(tm.hour));
    FieldSmaller(tm.mday);
    FieldSmaller(tm.mon);
    var years := if tm.year >= 1980 then tm.year - 1980 else 0;
    DateSum(Field(tm.mday), Field(tm.mon), Field(years));
    YearValue(years);
  }

  lemma TimeSum(sec2: bv16, min: bv16, hour: bv16)
    requires sec2 < 32 && min < 64 && hour < 32
    ensures Value(JoinTime(sec2, min, hour)) == Value(sec2) + 32 * Value(min) + 2048 * Value(hour)
  {
  }

  lemma DateSum(mday: bv16, mon: bv16, years: bv16)
    requires mday < 32 && mon < 16
    ensures Value(JoinDate(mday, mon, years)) == Value(mday) + 32 * Value(mon) + 512 * Value(Low7(years))
  {
  }

  /** parse_datetime, before mktime */
  function Unpack(date: bv16, time: bv16): Tm {
    Tm(Value(Low5(time)) * 2, Value(Minutes(time)), Value(Hours(time)),
       Value(Low5(date)), Value(Months(date)), Value(Years(date)) + 1980, 0, 0)
  }

  // ----- what survives -----

  /** The year that survives the 7-bit field. */
  function KeptYear(year: int): int {
    if year >= 1980 then 1980 + (year - 1980) % 128 else 1980
  }

  /** What comes back: the date with an even second and the year that was kept. */
  function Kept(tm: Tm): Tm {
    Tm(tm.sec - tm.sec % 2, tm.min, tm.hour, tm.mday, tm.mon, KeptYear(tm.year), 0, 0)
  }

  lemma UnpackIs(tm: Tm)
    requires IsDate(tm)
    ensures Unpack(PackDate(tm), PackTime(tm)) == Kept(tm)
  {
    hide Leap, MonthDays, Field, Value, Low7, JoinTime, JoinDate, Low5, Minutes, Hours, Months, Years;
    DayFits(tm);
    FieldSmaller(tm.sec / 2);
    FieldSmaller(tm.min);
    FieldSmaller(tm.hour);
    TimeBits(Field(tm.sec / 2), Field(tm.min), Field(tm.hour));
    FieldSmaller(tm.mday);
    FieldSmaller(tm.mon);
    var years := if tm.year >= 1980 then tm.year - 1980 else 0;
    DateBits(Field(tm.mday), Field(tm.mon), Field(years));
    YearValue(years);
  }

  lemma DayFits(tm: Tm)
    requires IsDate(tm)
    ensures tm.mday < 32
  {
    hide Leap;
  }

  lemma KeptOrdinary(tm: Tm)
    requires IsDate(tm)
    ensures Ordinary(Kept(tm)) && 1980 <= KeptYear(tm.year) <= 2107
  {
  }

  /** Within the range of the field only the odd second is lost. */
  lemma KeptStamp(tm: Tm)
    requires IsDate(tm) && KeptYear(tm.year) == tm.year
    ensures Stamp(Kept(tm)) == Stamp(tm) - Stamp(tm) % 2
  {
    hide Leap, MonthDays, MonthStart, DaysBefore;
    var half := 43200 * (DaysBefore(tm.year) + DayOfYear(tm)) + 1800 * tm.hour + 30 * tm.min;
    assert Stamp(tm) == 2 * half + tm.sec;
    Parity(half, tm.sec);
  }

  lemma Parity(half: int, s: int)
    ensures (2 * half + s) % 2 == s % 2
  {
  }

  /** Outside it the date moves to another year. */
  lemma MovedStamp(tm: Tm)
    requires IsDate(tm) && KeptYear(tm.year) != tm.year
    ensures Stamp(Kept(tm)) != Stamp(tm) - Stamp(tm) % 2
  {
    hide Leap, MonthDays, MonthStart, DaysBefore;
    var y, z := tm.year, KeptYear(tm.year);
    InsideYear(tm, y);
    InsideYear(tm, z);
    if y < z {
      YearsGrow(y + 1, z);
    } else {
      YearsGrow(z + 1, y);
    }
    Between(Stamp(tm), DaysBefore(y), DaysBefore(y + 1));
    Between(Stamp(Kept(tm)), DaysBefore(z), DaysBefore(z + 1));
  }

  /** The day and time of tm, put in year y, fall inside year y. */
  lemma InsideYear(tm: Tm, y: int)
    requires IsDate(tm) && y >= 1970
    ensures DAY * DaysBefore(y) <= Stamp(tm.(year := y)) < DAY * DaysBefore(y + 1)
    ensures Stamp(tm.(year := y, sec := tm.sec - tm.sec % 2)) == Stamp(tm.(year := y)) - tm.sec % 2
  {
    hide Leap, MonthDays, MonthStart, DaysBefore;
    DayInYear(tm.mon, tm.mday, Leap(y), Leap(tm.year));
    YearIsMonths(Leap(y));
    NextYear(y);
  }

  lemma Between(s: int, a: int, b: int)
    requires DAY * a <= s < DAY * b
    ensures DAY * a <= s - s % 2 < DAY * b
  {
    assert DAY * a == 2 * (43200 * a);
    assert s == 2 * (s / 2) + s % 2;
    assert s / 2 >= 43200 * a;
  }

  /** Packing a date and unpacking it gives the time to two seconds exactly for the years
      1980 to 2107. */
  method RoundTrip(t: int) returns (tm: Tm, back: int)
    requires 0 <= t < DAY * DaysBefore(0x8000_0000)
    ensures IsDate(tm) && Stamp(tm) == t && back == Stamp(Kept(tm))
    ensures back == t - t % 2 <==> 1980 <= tm.year <= 2107
  {
    hide Leap, MonthDays, MonthStart, DaysBefore, Off, PackDate, PackTime, Unpack, Stamp, Ordinary, IsDate;
    tm := Gmtime(t);
    UnpackIs(tm);
    var got := Unpack(PackDate(tm), PackTime(tm));
    KeptOrdinary(tm);
    back := Mktime(got);
    OrdinaryLosesNothing(got);
    if KeptYear(tm.year) == tm.year {
      KeptStamp(tm);
    } else {
      MovedStamp(tm);
    }
  }

  /** On both sides of the range the round trip fails: the epoch and the start of 2108 both
      come back as the start of 1980. */
  method RoundTripFails() returns (early: int, late: int)
    ensures early == late == DAY * DaysBefore(1980) == 315532800
    ensures 4354819200 == DAY * DaysBefore(2108)
  {
    hide Leap, MonthDays, MonthStart, DaysBefore, Stamp, IsDate;
    var epoch, end := Tm(0, 0, 0, 1, 1, 1970, 0, 0), Tm(0, 0, 0, 1, 1, 2108, 0, 0);
    NewYear(1970);
    NewYear(2108);
    NewYear(1980);
    YearsGrow(2108, 0x8000_0000);
    var tm;
    tm, early := RoundTrip(0);
    DateUnique(tm, epoch);
    SameStamp(Kept(tm), Tm(0, 0, 0, 1, 1, 1980, 0, 0));
    tm, late := RoundTrip(4354819200);
    DateUnique(tm, end);
    SameStamp(Kept(tm), Tm(0, 0, 0, 1, 1, 1980, 0, 0));
  }

  /** The weekday and the day of the year take no part in a time stamp. */
  lemma SameStamp(a: Tm, b: Tm)
    requires a == b.(wday := a.wday, yday := a.yday)
    ensures Stamp(a) == Stamp(b)
  {
  }
}
