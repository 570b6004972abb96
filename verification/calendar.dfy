/** Calendar conversions: drivers/rtc/lib.c and mktime64 of time/time.c, against a calendar
    that knows nothing but month lengths and walks from one day to the next. */
module Calendar {
  import opened Arith
  import opened Common

  const TWO30 := 0x4000_0000
  const SECS_PER_DAY := 86400
  /** Days from 0000-03-01 to 1970-01-01. */
  const EPOCH_SHIFT := 719468

  datatype Date = Date(year: nat, month: nat, day: nat)
  datatype Tm = Tm(sec: int, min: int, hour: int, mday: int, mon: int, year: int,
                   wday: int, yday: int, isdst: int)

  const MARCH_0 := Date(0, 2, 1)
  const UNIX_EPOCH := Date(1970, 0, 1)

  const DAYS_IN_MONTH: seq<nat> := [31, 28, 31, 30, 31, 30, 31, 31, 30, 31, 30, 31]
  const YDAYS_NORMAL: seq<nat> := [0, 31, 59, 90, 120, 151, 181, 212, 243, 273, 304, 334, 365]
  const YDAYS_LEAP: seq<nat> := [0, 31, 60, 91, 121, 152, 182, 213, 244, 274, 305, 335, 366]

  predicate IsLeapYear(year: nat) {
    (year % 4 == 0 && year % 100 != 0) || year % 400 == 0
  }

  function MonthDays(month: nat, year: nat): nat
    requires month < 12
  {
    DAYS_IN_MONTH[month] + if IsLeapYear(year) && month == 1 then 1 else 0
  }

  function YearDays(day: nat, month: nat, year: nat): int
    requires month < 12
  {
    (if IsLeapYear(year) then YDAYS_LEAP else YDAYS_NORMAL)[month] + day - 1
  }

  // ---------------------------------------------------------------- the naive calendar

  predicate ValidDate(d: Date) {
    d.month < 12 && 1 <= d.day <= MonthDays(d.month, d.year)
  }

  function NextDay(d: Date): (n: Date)
    requires ValidDate(d)
    ensures ValidDate(n)
  {
    if d.day < MonthDays(d.month, d.year) then Date(d.year, d.month, d.day + 1)
    else if d.month < 11 then Date(d.year, d.month + 1, 1)
    else Date(d.year + 1, 0, 1)
  }

  /** The date reached from `d` by turning `n` calendar pages. */
  function StepDays(d: Date, n: nat): (r: Date)
    requires ValidDate(d)
    ensures ValidDate(r)
  {
    if n == 0 then d else NextDay(StepDays(d, n - 1))
  }

  lemma {:induction false} StepDaysAdds(d: Date, m: nat, n: nat)
    requires ValidDate(d)
    ensures StepDays(StepDays(d, m), n) == StepDays(d, m + n)
  {
    if n > 0 { StepDaysAdds(d, m, n - 1); }
  }

  // ---------------------------------------------------------------- computational calendar

  /** A day as century, year of century and day of a year that starts on March 1st. */
  datatype MarchDay = MarchDay(century: nat, yoc: nat, doy: nat)

  function Decompose(u: nat): MarchDay {
    var doc := (4 * u + 3) % 146097 / 4;
    MarchDay((4 * u + 3) / 146097, (4 * doc + 3) / 1461, (4 * doc + 3) % 1461 / 4)
  }

  function MarchYearDays(c: nat, yoc: nat): nat {
    if yoc == 99 then (if c % 4 == 3 then 366 else 365)
    else if yoc % 4 == 3 then 366 else 365
  }

  lemma LeapOfCentury(c: nat, z: nat)
    requires z < 100
    ensures IsLeapYear(100 * c + z) == if z != 0 then z % 4 == 0 else c % 4 == 0
  {
    DivIs(100 * c + z, 4, 25 * c + z / 4, z % 4);
    DivIs(100 * c + z, 100, c, z);
    DivIs(100 * c + z, 400, c / 4, 100 * (c % 4) + z);
  }

  lemma MarchYearIsLeap(c: nat, yoc: nat)
    requires yoc < 100
    ensures MarchYearDays(c, yoc) == if IsLeapYear(100 * c + yoc + 1) then 366 else 365
  {
    hide IsLeapYear;
    if yoc < 99 {
      LeapOfCentury(c, yoc + 1);
    } else {
      LeapOfCentury(c + 1, 0);
      assert 100 * c + 99 + 1 == 100 * (c + 1) + 0;
    }
  }

  lemma CenturyStep(u: nat)
    ensures var t := 4 * u + 3; var doc := t % 146097 / 4;
            var days := if (t / 146097) % 4 == 3 then 36525 else 36524;
            && doc < days
            && (4 * u + 7) / 146097 == (if doc + 1 < days then t / 146097 else t / 146097 + 1)
            && (4 * u + 7) % 146097 / 4 == (if doc + 1 < days then doc + 1 else 0)
  {
    var t := 4 * u + 3;
    var c, r := t / 146097, t % 146097;
    assert t == 146097 * c + r;
    DivIs(r, 4, u - 36524 * c - c / 4, 3 - c % 4);
    if r + 4 < 146097 {
      DivIs(4 * u + 7, 146097, c, r + 4);
    } else {
      DivIs(4 * u + 7, 146097, c + 1, r + 4 - 146097);
    }
  }

  lemma YearStep(doc: nat)
    requires doc <= 36524
    ensures var t := 4 * doc + 3; var doy := t % 1461 / 4;
            var days := if (t / 1461) % 4 == 3 then 366 else 365;
            && t / 1461 <= 99 && doy < days
            && (4 * doc + 7) / 1461 == (if doy + 1 < days then t / 1461 else t / 1461 + 1)
            && (4 * doc + 7) % 1461 / 4 == (if doy + 1 < days then doy + 1 else 0)
  {
    var t := 4 * doc + 3;
    var c, r := t / 1461, t % 1461;
    assert t == 1461 * c + r;
    DivIs(r, 4, doc - 365 * c - c / 4, 3 - c % 4);
    if r + 4 < 1461 {
      DivIs(4 * doc + 7, 1461, c, r + 4);
    } else {
      DivIs(4 * doc + 7, 1461, c + 1, r + 4 - 1461);
    }
  }

  lemma DecomposeStep(u: nat)
    ensures var a := Decompose(u);
            && a.yoc < 100 && a.doy < MarchYearDays(a.century, a.yoc)
            && Decompose(u + 1) ==
               if a.doy + 1 < MarchYearDays(a.century, a.yoc) then a.(doy := a.doy + 1)
               else if a.yoc < 99 then MarchDay(a.century, a.yoc + 1, 0)
               else MarchDay(a.century + 1, 0, 0)
  {
    CenturyStep(u);
    var doc := (4 * u + 3) % 146097 / 4;
    YearStep(doc);
    assert 4 * (u + 1) + 3 == 4 * u + 7;
    assert 4 * (doc + 1) + 3 == 4 * doc + 7;
  }

  /** First day of the k-th month of a March-based year. */
  function MarchStart(k: nat): nat {
    if k == 0 then 0 else if k == 1 then 31 else if k == 2 then 61 else if k == 3 then 92
    else if k == 4 then 122 else if k == 5 then 153 else if k == 6 then 184
    else if k == 7 then 214 else if k == 8 then 245 else if k == 9 then 275
    else if k == 10 then 306 else if k == 11 then 337 else 366
  }

  /** Index of the month holding day `doy` of a March-based year: 0 is March, 11 is February. */
  function MarchMonth(doy: nat): (k: nat)
    requires doy < 366
    ensures k < 12 && MarchStart(k) <= doy < MarchStart(k + 1)
  {
    if doy < 31 then 0 else if doy < 61 then 1 else if doy < 92 then 2 else if doy < 122 then 3
    else if doy < 153 then 4 else if doy < 184 then 5 else if doy < 214 then 6
    else if doy < 245 then 7 else if doy < 275 then 8 else if doy < 306 then 9
    else if doy < 337 then 10 else 11
  }

  function Gregorian(a: MarchDay): Date
    requires a.doy < 366
  {
    var k := MarchMonth(a.doy);
    var y := 100 * a.century + a.yoc;
    Date(if k < 10 then y else y + 1, if k < 10 then k + 2 else k - 10, a.doy - MarchStart(k) + 1)
  }

  lemma GregorianStep(u: nat)
    ensures Decompose(u).doy < 366 && Decompose(u + 1).doy < 366
    ensures ValidDate(Gregorian(Decompose(u)))
    ensures Gregorian(Decompose(u + 1)) == NextDay(Gregorian(Decompose(u)))
  {
    var a := Decompose(u);
    DecomposeStep(u);
    MarchYearIsLeap(a.century, a.yoc);
    var k := MarchMonth(a.doy);
    var y := 100 * a.century + a.yoc;
    assert MarchStart(k + 1) - MarchStart(k) ==
           if k == 11 then 29 else DAYS_IN_MONTH[if k < 10 then k + 2 else k - 10];
    if k == 11 {
      assert MonthDays(1, y + 1) == if IsLeapYear(y + 1) then 29 else 28;
    }
  }

  lemma GregorianZero(a: MarchDay)
    requires 100 * a.century + a.yoc == 0 && a.doy == 0
    ensures Gregorian(a) == MARCH_0
  {
  }

  lemma DecomposeZero(u: nat)
    requires u == 0
    ensures Decompose(u).doy < 366 && Gregorian(Decompose(u)) == MARCH_0
  {
    DivIs(4 * u + 3, 146097, 0, 3);
    DivIs(4 * u + 3, 1461, 0, 3);
    hide Gregorian;
    GregorianZero(Decompose(u));
  }

  /** The March-based decomposition is the naive calendar counted from 0000-03-01. */
  lemma {:induction false} DecomposeIsNaive(u: nat)
    ensures Decompose(u).doy < 366
    ensures Gregorian(Decompose(u)) == StepDays(MARCH_0, u)
  {
    hide Decompose, Gregorian, NextDay;
    if u == 0 {
      DecomposeZero(u);
    } else {
      DecomposeIsNaive(u - 1);
      GregorianStep(u - 1);
    }
  }

  lemma EpochIsDay(shift: nat)
    requires shift == EPOCH_SHIFT
    ensures StepDays(MARCH_0, shift) == UNIX_EPOCH
  {
    DivIs(4 * shift + 3, 146097, 19, 102032);
    DivIs(4 * 25508 + 3, 1461, 69, 1226);
    assert Gregorian(Decompose(shift)) == UNIX_EPOCH;
    DecomposeIsNaive(shift);
    hide StepDays;
  }

  lemma EpochShift(shift: nat, n: nat)
    requires shift == EPOCH_SHIFT
    ensures StepDays(MARCH_0, shift + n) == StepDays(UNIX_EPOCH, n)
  {
    hide StepDays;
    EpochIsDay(shift);
    StepDaysAdds(MARCH_0, shift, n);
  }

  // ---------------------------------------------------------------- time64_t to struct rtc_time

  function ToInt32(x: int): int {
    var w := x % TWO32;
    if w < 0x8000_0000 then w else w - TWO32
  }

  /** The C remainder, which takes the sign of the dividend. */
  function CRem(x: int, d: int): int
    requires d > 0
  {
    if x >= 0 then x % d else -((-x) % d)
  }

  /** The naive day that the 32-bit arithmetic of the conversion lands on. */
  function DayIndex(time: nat): nat {
    (time / SECS_PER_DAY + EPOCH_SHIFT) % TWO30
  }

  function DateOfTm(tm: Tm): Date
    requires tm.year >= -1900 && tm.mon >= 0 && tm.mday >= 0
  {
    Date(tm.year + 1900, tm.mon, tm.mday)
  }

  /** The weekday of a day counted from 1970-01-01, a Thursday, one page at a time. */
  function Weekday(n: nat): (w: nat)
    ensures w < 7
  {
    if n == 0 then 4 else (Weekday(n - 1) + 1) % 7
  }

  /** The weekday the 32-bit arithmetic of the conversion gives; the sum wraps. */
  function WordWeekday(n: nat): int { CRem(ToInt32(n + 4), 7) }

  /** What the conversion gives: the naive calendar's date and clock for the day that the 32-bit
      arithmetic lands on, and its weekday. */
  function NaiveTm(time: nat): Tm {
    var d := StepDays(MARCH_0, DayIndex(time));
    var s := time % SECS_PER_DAY;
    Tm(s % 60, s / 60 % 60, s / 3600, d.day, d.month, d.year - 1900,
       WordWeekday(time / SECS_PER_DAY), YearDays(d.day, d.month, d.year) + 1, 0)
  }

  lemma {:induction false} WeekdayIs(n: nat)
    ensures Weekday(n) == (n + 4) % 7
  {
    if n > 0 {
      WeekdayIs(n - 1);
      NextWeekday(n + 3);
    }
  }

  lemma NextWeekday(x: nat)
    ensures (x % 7 + 1) % 7 == (x + 1) % 7
  {
  }

  /** The 32-bit sum has wrapped a multiple of seven times, and is not negative or divisible by seven. */
  predicate WeekdaySurvives(n: nat) {
    (n + 4 + 0x8000_0000) / TWO32 % 7 == 0 && (ToInt32(n + 4) >= 0 || ToInt32(n + 4) % 7 == 0)
  }

  /** The conversion gives the weekday the naive calendar gives exactly then. */
  lemma WeekdayExactness(n: nat)
    ensures WordWeekday(n) == Weekday(n) <==> WeekdaySurvives(n)
    ensures n < 0x8000_0000 - 4 ==> WeekdaySurvives(n)
  {
    hide ToInt32, CRem, Weekday;
    WeekdayIs(n);
    WordIs(n + 4);
    SignedRemainder(n + 4, ToInt32(n + 4), (n + 4 + 0x8000_0000) / TWO32);
    SmallWord(n + 4);
  }

  /** From day 2^31 on it can be negative. */
  lemma WeekdayTurnsNegative()
    ensures WordWeekday(0x8000_0000) == -5
  {
  }

  lemma SignedRemainder(x: nat, v: int, k: nat)
    requires x == v + TWO32 * k
    ensures CRem(v, 7) == x % 7 <==> k % 7 == 0 && (v >= 0 || v % 7 == 0)
  {
    SevenDivides(v, k);
    NegativeRemainder(v);
  }

  lemma NegativeRemainder(v: int)
    ensures v < 0 ==> CRem(v, 7) <= 0 && (CRem(v, 7) == 0 <==> v % 7 == 0)
  {
  }

  lemma SmallWord(x: nat)
    ensures x < 0x8000_0000 ==> ToInt32(x) == x && (x + 0x8000_0000) / TWO32 == 0
  {
  }

  lemma SumWraps(x: nat)
    ensures ToInt32(ToInt32(x) + 4) == ToInt32(x + 4)
  {
    var w := x % TWO32;
    DivIs(x + 4, TWO32, x / TWO32 + (w + 4) / TWO32, (w + 4) % TWO32);
  }

  lemma WordIs(x: nat)
    ensures x == ToInt32(x) + TWO32 * ((x + 0x8000_0000) / TWO32)
  {
    var q, w := x / TWO32, x % TWO32;
    if w < 0x8000_0000 {
      DivIs(x + 0x8000_0000, TWO32, q, w + 0x8000_0000);
    } else {
      DivIs(x + 0x8000_0000, TWO32, q + 1, w - 0x8000_0000);
    }
  }

  /** 2^32 leaves the remainder 4 modulo 7, so only sevenfold multiples of it keep remainders. */
  lemma SevenDivides(v: int, k: nat)
    ensures (v + TWO32 * k) % 7 == (v + 4 * k) % 7
    ensures (v + 4 * k) % 7 == v % 7 <==> k % 7 == 0
  {
    assert v + TWO32 * k == v + 4 * k + 7 * (613566756 * k);
  }

  /** Multiplying by 2939745 and keeping the two 32-bit halves divides by 1461. */
  lemma MulShiftIsDiv(doc: nat)
    requires doc <= 36524
    ensures var t := 4 * doc + 3; var w := 2939745 * t;
            w / TWO32 == t / 1461 && w % TWO32 / 2939745 == t % 1461
  {
    var t := 4 * doc + 3;
    var q, r := t / 1461, t % 1461;
    assert q <= 99;
    assert 2939745 * t == TWO32 * q + (149 * q + 2939745 * r);
    DivIs(2939745 * t, TWO32, q, 149 * q + 2939745 * r);
    DivIs(149 * q + 2939745 * r, 2939745, r, 149 * q);
  }

  lemma MonthByMulShift(doy: nat)
    requires doy < 366
    ensures var k := MarchMonth(doy); var w := 2141 * doy + 132377;
            w / 65536 == k + 2 && w % 65536 / 2141 == doy - MarchStart(k)
  {
    var k := MarchMonth(doy);
    var w := 2141 * doy + 132377;
    var d := doy - MarchStart(k);
    var low := 2141 * MarchStart(k) + 132377 - 65536 * (k + 2);
    assert 0 <= low < 2141;
    DivIs(w, 65536, k + 2, 2141 * d + low);
    DivIs(2141 * d + low, 2141, d, low);
  }

  /** Four times a 32-bit day number, kept to 32 bits, only sees the day number modulo 2^30. */
  lemma WrapIsDayIndex(time: nat)
    ensures var udays := (ToInt32(time / SECS_PER_DAY) % TWO32 + EPOCH_SHIFT) % TWO32;
            (4 * udays + 3) % TWO32 == 4 * DayIndex(time) + 3
  {
    var q := time / SECS_PER_DAY;
    var w := q % TWO32;
    assert ToInt32(q) % TWO32 == w;
    var x := q + EPOCH_SHIFT;
    var k := x / TWO30;
    assert x == TWO30 * k + DayIndex(time);
    var c := q / TWO32 + (w + EPOCH_SHIFT) / TWO32;
    var udays := (w + EPOCH_SHIFT) % TWO32;
    assert 4 * udays + 3 == TWO32 * (k - 4 * c) + (4 * DayIndex(time) + 3);
    DivIs(4 * udays + 3, TWO32, k - 4 * c, 4 * DayIndex(time) + 3);
  }

  lemma ClockSplit(secs: nat)
    requires secs < SECS_PER_DAY
    ensures secs / 60 % 60 == (secs - secs / 3600 * 3600) / 60
    ensures secs % 60 == secs - secs / 3600 * 3600 - secs / 60 % 60 * 60
  {
    var m := secs / 60;
    DivIs(secs, 3600, m / 60, 60 * (m % 60) + secs % 60);
  }

  method Time64ToTm(time: nat) returns (tm: Tm)
    requires time < 0x8000_0000_0000_0000
    ensures tm == NaiveTm(time)
    ensures tm.wday == Weekday(time / SECS_PER_DAY) <==> WeekdaySurvives(time / SECS_PER_DAY)
    ensures tm.mon >= 0 && tm.mday >= 1 && tm.year >= -1900 && ValidDate(DateOfTm(tm))
    ensures tm.yday >= 1 && StepDays(Date(tm.year + 1900, 0, 1), tm.yday - 1) == DateOfTm(tm)
    ensures 3600 * tm.hour + 60 * tm.min + tm.sec == time % SECS_PER_DAY && tm.isdst == 0
    ensures 0 <= tm.hour < 24 && 0 <= tm.min < 60 && 0 <= tm.sec < 60
  {
    hide StepDays, Gregorian, Decompose, YearDays, DayIndex, Weekday, WeekdaySurvives, ToInt32, CRem;
    var secs := time % SECS_PER_DAY;
    var days := ToInt32(time / SECS_PER_DAY);
    var wday := CRem(ToInt32(days + 4), 7);
    SumWraps(time / SECS_PER_DAY);
    WeekdayExactness(time / SECS_PER_DAY);

    var udays := (days % TWO32 + EPOCH_SHIFT) % TWO32;
    var u32tmp := (4 * udays + 3) % TWO32;
    ghost var u := DayIndex(time);
    WrapIsDayIndex(time);
    var century, yearOfCentury, marchDay := SplitDay(u32tmp, u);
    var date, yearDay := ToGregorian(century, yearOfCentury, marchDay);
    assert date == StepDays(MARCH_0, u) by { DecomposeIsNaive(u); }

    var hour := secs / 3600;
    ClockSplit(secs);
    secs := secs - hour * 3600;
    var min := secs / 60;
    var sec := secs - min * 60;
    tm := Tm(sec, min, hour, date.day, date.month, date.year - 1900, wday, yearDay + 1, 0);
    YearDayIs(time);
  }

  /** Lines 101-108 of rtc_time64_to_tm: the day in the March-based calendar. */
  method SplitDay(scaled: nat, ghost u: nat) returns (century: nat, yearOfCentury: nat, dayOfYear: nat)
    requires scaled == 4 * u + 3
    ensures MarchDay(century, yearOfCentury, dayOfYear) == Decompose(u)
    ensures yearOfCentury < 100 && dayOfYear < 366
  {
    century := scaled / 146097;
    var dayOfCentury := scaled % 146097 / 4;
    var u32tmp := 4 * dayOfCentury + 3;
    var u64tmp := 2939745 * u32tmp;
    yearOfCentury := u64tmp / TWO32;
    dayOfYear := u64tmp % TWO32 / 2939745 / 4;
    DecomposeStep(u);
    MulShiftIsDiv(dayOfCentury);
  }

  /** Lines 110-130: back to the calendar that starts in January. */
  method ToGregorian(century: nat, yearOfCentury: nat, marchDay: nat)
    returns (date: Date, dayOfYear: nat)
    requires yearOfCentury < 100 && marchDay < 366
    ensures date == Gregorian(MarchDay(century, yearOfCentury, marchDay)) && date.month < 12
    ensures dayOfYear == YearDays(date.day, date.month, date.year)
  {
    var year := 100 * century + yearOfCentury;
    var isLeapYear := if yearOfCentury != 0 then yearOfCentury % 4 == 0 else century % 4 == 0;
    assert isLeapYear == IsLeapYear(year) by { LeapOfCentury(century, yearOfCentury); }

    var u32tmp := 2141 * marchDay + 132377;
    var month := u32tmp / 65536;
    var day := u32tmp % 65536 / 2141;
    ghost var k := MarchMonth(marchDay);
    assert month == k + 2 && day == marchDay - MarchStart(k) by { MonthByMulShift(marchDay); }

    var isJanOrFeb := marchDay >= 306;
    year := year + if isJanOrFeb then 1 else 0;
    month := if isJanOrFeb then month - 12 else month;
    day := day + 1;
    date := Date(year, month, day);
    dayOfYear := if isJanOrFeb then marchDay - 306
                 else marchDay + 31 + 28 + if isLeapYear then 1 else 0;
  }

  /** The day of the year counts the pages turned since January 1st. */
  lemma {:induction false} YearDaysCount(d: Date)
    requires ValidDate(d)
    ensures YearDays(d.day, d.month, d.year) >= 0
    ensures StepDays(Date(d.year, 0, 1), YearDays(d.day, d.month, d.year)) == d
    decreases d.month, d.day
  {
    hide YearDays, NextDay, MonthDays;
    FirstOfYear(d.year);
    if d.month > 0 || d.day > 1 {
      var p := DayBefore(d);
      YearDaysCount(p);
    }
  }

  lemma FirstOfYear(year: nat)
    ensures ValidDate(Date(year, 0, 1)) && YearDays(1, 0, year) == 0
  {
  }

  /** The day before, in the same year. */
  lemma DayBefore(d: Date) returns (p: Date)
    requires ValidDate(d) && (d.month > 0 || d.day > 1)
    ensures ValidDate(p) && NextDay(p) == d && p.year == d.year
    ensures p.month < d.month || (p.month == d.month && p.day < d.day)
    ensures YearDays(d.day, d.month, d.year) == YearDays(p.day, p.month, p.year) + 1
  {
    hide IsLeapYear;
    p := if d.day > 1 then Date(d.year, d.month, d.day - 1)
         else Date(d.year, d.month - 1, MonthDays(d.month - 1, d.year));
  }

  /** The day of the year that a time structure names is one more than the pages turned since January
      1st of its year; and the epoch is Thursday, the first day of 1970. */
  lemma YearDayIs(time: nat)
    ensures var tm, d := NaiveTm(time), StepDays(MARCH_0, DayIndex(time));
            && DateOfTm(tm) == d && tm.yday >= 1 && StepDays(Date(d.year, 0, 1), tm.yday - 1) == d
  {
    hide StepDays, DayIndex, IsLeapYear, ToInt32, CRem;
    YearDaysCount(StepDays(MARCH_0, DayIndex(time)));
  }

  lemma EpochTm(shift: nat)
    requires shift == EPOCH_SHIFT
    ensures NaiveTm(0) == Tm(0, 0, 0, 1, 0, 70, 4, 1, 0)
  {
    hide StepDays;
    EpochIsDay(shift);
    assert DayIndex(0) == shift;
  }

  // ---------------------------------------------------------------- struct rtc_time to time64_t

  predicate ValidTm(tm: Tm) {
    && 70 <= tm.year <= 0x7fff_ffff - 1900 && 0 <= tm.mon < 12
    && 1 <= tm.mday <= MonthDays(tm.mon, tm.year + 1900)
    && 0 <= tm.hour < 24 && 0 <= tm.min < 60 && 0 <= tm.sec < 60
  }

  /** The month number mktime64 works with: 1..12 becomes 11, 12, 1..10, in 32 bits. */
  function ShiftedMonth(mon0: nat): nat {
    var m := (mon0 - 2) % TWO32;
    if ToInt32(m) <= 0 then (m + 12) % TWO32 else m
  }

  function ShiftedYear(year0: nat, mon0: nat): nat {
    if ToInt32((mon0 - 2) % TWO32) <= 0 then (year0 - 1) % TWO32 else year0
  }

  /** The day count of mktime64, with its 32-bit unsigned steps written out. */
  function MktimeDays(year: nat, mon: nat, day: nat): int {
    (year / 4 - year / 100 + year / 400 + 367 * mon % TWO32 / 12 + day) % TWO32
    + year * 365 % TWO32 - 719499
  }

  function Mktime64(year0: nat, mon0: nat, day: nat, hour: nat, min: nat, sec: nat): int {
    var days := MktimeDays(ShiftedYear(year0, mon0), ShiftedMonth(mon0), day);
    ((days * 24 + hour) * 60 + min) * 60 + sec
  }

  function TmToTime64(tm: Tm): int
    requires ValidTm(tm)
  {
    Mktime64(tm.year + 1900, tm.mon + 1, tm.mday, tm.hour, tm.min, tm.sec)
  }

  predicate Countable(d: Date) {
    ValidDate(d) && (d.year >= 1 || d.month >= 2)
  }

  /** Gauss's day count over the integers, relative to 1970-01-01. */
  function GaussDays(d: Date): int
    requires Countable(d)
  {
    var y := if d.month < 2 then d.year - 1 else d.year;
    var m := if d.month < 2 then d.month + 11 else d.month - 1;
    y / 4 - y / 100 + y / 400 + 367 * m / 12 + d.day + y * 365 - 719499
  }

  lemma CenturyCarry(y: nat)
    ensures (y + 1) / 4 - (y + 1) / 100 + (y + 1) / 400 ==
            y / 4 - y / 100 + y / 400 + if IsLeapYear(y + 1) then 1 else 0
  {
    var z := y + 1;
    if z % 100 == 0 { DivIs(z, 4, 25 * (z / 100), 0); }
    if z % 400 == 0 { DivIs(z, 100, 4 * (z / 400), 0); }
    DivStep(y, 4);
    DivStep(y, 100);
    DivStep(y, 400);
  }

  lemma DivStep(y: nat, d: nat)
    requires d > 1
    ensures (y + 1) / d == y / d + if (y + 1) % d == 0 then 1 else 0
  {
    if y % d == d - 1 {
      DivIs(y + 1, d, y / d + 1, 0);
    } else {
      DivIs(y + 1, d, y / d, y % d + 1);
    }
  }

  lemma GaussMonth(m: nat)
    requires 1 <= m < 12
    ensures 367 * (m + 1) / 12 == 367 * m / 12 + DAYS_IN_MONTH[if m < 11 then m + 1 else 0]
  {
  }

  lemma GaussStep(d: Date)
    requires Countable(d)
    ensures Countable(NextDay(d)) && GaussDays(NextDay(d)) == GaussDays(d) + 1
  {
    hide IsLeapYear;
    if d.day < MonthDays(d.month, d.year) {
    } else if d.month == 1 {
      CenturyCarry(d.year - 1);
    } else {
      GaussMonth(if d.month < 2 then d.month + 11 else d.month - 1);
    }
  }

  /** Gauss's formula counts the pages turned from 0000-03-01. */
  lemma {:induction false} GaussCountsSteps(u: nat)
    ensures Countable(StepDays(MARCH_0, u))
    ensures GaussDays(StepDays(MARCH_0, u)) == u - EPOCH_SHIFT
  {
    if u > 0 {
      hide GaussDays, Countable, NextDay, IsLeapYear;
      GaussCountsSteps(u - 1);
      GaussStep(StepDays(MARCH_0, u - 1));
    } else {
      hide NextDay, IsLeapYear;
    }
  }

  lemma {:induction false} NoDateTwice(u: nat, v: nat)
    requires StepDays(MARCH_0, u) == StepDays(MARCH_0, v)
    ensures u == v
  {
    GaussCountsSteps(u);
    GaussCountsSteps(v);
  }

  function PrevDay(d: Date): (p: Date)
    requires ValidDate(d) && (d.year > 0 || d.month > 0 || d.day > 1)
    ensures ValidDate(p) && NextDay(p) == d
  {
    if d.day > 1 then Date(d.year, d.month, d.day - 1)
    else if d.month > 0 then Date(d.year, d.month - 1, MonthDays(d.month - 1, d.year))
    else Date(d.year - 1, 11, 31)
  }

  /** Every calendar date from 1970 on is reached, after as many steps as Gauss says. */
  lemma {:induction false} EveryDateIsReached(d: Date)
    requires ValidDate(d) && d.year >= 1970
    ensures GaussDays(d) >= 0 && StepDays(UNIX_EPOCH, GaussDays(d)) == d
    decreases d.year, d.month, d.day
  {
    if d != UNIX_EPOCH {
      var p := PrevDay(d);
      EveryDateIsReached(p);
      GaussStep(p);
    }
  }

  /** The conversion names the day the naive calendar names, for as long as four times the
      shifted day number fits in 32 bits, and never again after that. As long, its weekday is right. */
  lemma DateExactness(time: nat, shift: nat)
    requires shift == EPOCH_SHIFT
    ensures DateOfTm(NaiveTm(time)) == StepDays(UNIX_EPOCH, time / SECS_PER_DAY)
            <==> time / SECS_PER_DAY + shift < TWO30
    ensures time / SECS_PER_DAY + shift < TWO30 ==> NaiveTm(time).wday == Weekday(time / SECS_PER_DAY)
  {
    hide StepDays, YearDays, CRem, ToInt32, Weekday, WordWeekday, WeekdaySurvives;
    var q := time / SECS_PER_DAY;
    WeekdayExactness(q);
    EpochShift(shift, q);
    if StepDays(MARCH_0, DayIndex(time)) == StepDays(MARCH_0, shift + q) {
      NoDateTwice(DayIndex(time), shift + q);
    }
  }

  /** mktime64 is Gauss's count less the multiples of 2^32 days that `year*365` loses. */
  lemma MktimeIsGauss(d: Date, hour: nat, min: nat, sec: nat)
    requires Countable(d) && 1 <= d.year < 0x8000_0000
    ensures var lost := ShiftedYear(d.year, d.month + 1) * 365 / TWO32;
            Mktime64(d.year, d.month + 1, d.day, hour, min, sec) ==
            SECS_PER_DAY * (GaussDays(d) - TWO32 * lost) + (3600 * hour + 60 * min + sec)
  {
    hide MktimeDays, IsLeapYear;
    var y, m := ShiftedYear(d.year, d.month + 1), ShiftedMonth(d.month + 1);
    assert y == if d.month < 2 then d.year - 1 else d.year;
    assert m == if d.month < 2 then d.month + 11 else d.month - 1;
    MktimeDaysLoss(y, m, d.day);
  }

  lemma MktimeDaysLoss(y: nat, m: nat, day: nat)
    requires y < 0x8000_0000 && m <= 12 && day <= 31
    ensures MktimeDays(y, m, day) ==
            y / 4 - y / 100 + y / 400 + 367 * m / 12 + day + y * 365 - 719499 - TWO32 * (y * 365 / TWO32)
  {
    var leaps := y / 4 - y / 100 + y / 400;
    assert 0 <= leaps <= y / 4 + y / 400;
    assert 0 <= 367 * m < TWO32 && 0 <= 367 * m / 12 <= 367;
    DivIs(367 * m, TWO32, 0, 367 * m);
    DivIs(leaps + 367 * m / 12 + day, TWO32, 0, leaps + 367 * m / 12 + day);
    assert (leaps + 367 * m / 12 + day) % TWO32 == leaps + 367 * m / 12 + day;
    assert y * 365 == TWO32 * (y * 365 / TWO32) + y * 365 % TWO32;
  }

  lemma GaussBoundsYear(d: Date)
    requires Countable(d) && 1 <= d.year < 0x8000_0000
    ensures 365 * ShiftedYear(d.year, d.month + 1) <= GaussDays(d) + 719499
  {
    var y := ShiftedYear(d.year, d.month + 1);
    assert y == if d.month < 2 then d.year - 1 else d.year;
    assert 0 <= y / 4 - y / 100 + y / 400;
  }

  /** While the day number is below 2^30 nothing is lost. */
  lemma MktimeInRange(d: Date, n: nat, hour: nat, min: nat, sec: nat)
    requires Countable(d) && 1970 <= d.year < 0x8000_0000
    requires n == GaussDays(d) && n + EPOCH_SHIFT < TWO30
    ensures Mktime64(d.year, d.month + 1, d.day, hour, min, sec) ==
            SECS_PER_DAY * n + (3600 * hour + 60 * min + sec)
  {
    hide GaussDays, Mktime64, IsLeapYear;
    GaussBoundsYear(d);
    MktimeIsGauss(d, hour, min, sec);
  }

  /** Seconds to calendar and back: a valid time structure, and the same second. */
  lemma TimeRoundTrip(time: nat, shift: nat)
    requires shift == EPOCH_SHIFT && time / SECS_PER_DAY + shift < TWO30
    ensures ValidTm(NaiveTm(time))
    ensures TmToTime64(NaiveTm(time)) == time
  {
    hide StepDays, YearDays, CRem, ToInt32, IsLeapYear, GaussDays, Mktime64;
    var q, s := time / SECS_PER_DAY, time % SECS_PER_DAY;
    var d := StepDays(UNIX_EPOCH, q);
    assert StepDays(MARCH_0, DayIndex(time)) == d by { EpochShift(shift, q); }
    assert Countable(d) && GaussDays(d) == q by { GaussCountsSteps(DayIndex(time)); }
    ReachedIsModern(q);
    YearOf(d, q);
    var h, m, x := s / 3600, s / 60 % 60, s % 60;
    assert 3600 * h + 60 * m + x == s by { ClockSplit(s); }
    MktimeInRange(d, q, h, m, x);
    var tm := NaiveTm(time);
    assert TmToTime64(tm) == Mktime64(d.year, d.month + 1, d.day, h, m, x);
  }

  lemma {:induction false} YearOf(d: Date, n: nat)
    requires d == StepDays(UNIX_EPOCH, n)
    ensures d.year <= 1970 + n
    decreases n
  {
    if n > 0 { YearOf(StepDays(UNIX_EPOCH, n - 1), n - 1); }
  }

  lemma {:induction false} ReachedIsModern(n: nat)
    ensures StepDays(UNIX_EPOCH, n).year >= 1970
  {
    if n > 0 { ReachedIsModern(n - 1); }
  }

  /** The calendar fields of two time structures agree. */
  predicate SameMoment(a: Tm, b: Tm) {
    && a.year == b.year && a.mon == b.mon && a.mday == b.mday
    && a.hour == b.hour && a.min == b.min && a.sec == b.sec
  }

  /** Calendar to seconds and back: a valid structure survives exactly when its day number,
      shifted to 0000-03-01, stays below 2^30. */
  lemma TmRoundTrip(tm: Tm, shift: nat)
    requires ValidTm(tm) && shift == EPOCH_SHIFT
    ensures (TmToTime64(tm) >= 0 && SameMoment(NaiveTm(TmToTime64(tm)), tm))
            <==> GaussDays(DateOfTm(tm)) + shift < TWO30
  {
    hide StepDays, GaussDays, Mktime64, NaiveTm, IsLeapYear;
    var d := DateOfTm(tm);
    var n, t := GaussDays(d), TmToTime64(tm);
    EveryDateIsReached(d);
    assert StepDays(MARCH_0, shift + n) == d by { EpochShift(shift, n); }
    if n + shift < TWO30 {
      MktimeInRange(d, n, tm.hour, tm.min, tm.sec);
    }
    if t >= 0 {
      DayIndexOfMktime(tm, shift);
      MomentSurvives(tm, t, n + shift);
    }
  }

  lemma MomentSurvives(tm: Tm, t: nat, u: nat)
    requires ValidTm(tm) && StepDays(MARCH_0, u) == DateOfTm(tm)
    requires DayIndex(t) == u % TWO30
    requires t % SECS_PER_DAY == 3600 * tm.hour + 60 * tm.min + tm.sec
    ensures SameMoment(NaiveTm(t), tm) <==> u < TWO30
  {
    hide StepDays, YearDays, DayIndex, CRem, ToInt32, IsLeapYear;
    var nt := NaiveTm(t);
    assert nt.hour == tm.hour && nt.min == tm.min && nt.sec == tm.sec by { ClockOf(tm); }
    var i := DayIndex(t);
    var d := StepDays(MARCH_0, i);
    assert SameMoment(nt, tm) <==> d == DateOfTm(tm);
    if d == DateOfTm(tm) { NoDateTwice(i, u); }
  }

  lemma DayIndexOfMktime(tm: Tm, shift: nat)
    requires ValidTm(tm) && TmToTime64(tm) >= 0 && shift == EPOCH_SHIFT
    ensures DayIndex(TmToTime64(tm)) == (GaussDays(DateOfTm(tm)) + shift) % TWO30
    ensures TmToTime64(tm) % SECS_PER_DAY == 3600 * tm.hour + 60 * tm.min + tm.sec
  {
    var d := DateOfTm(tm);
    var n, t := GaussDays(d), TmToTime64(tm);
    MktimeIsGauss(d, tm.hour, tm.min, tm.sec);
    hide GaussDays, TmToTime64, ShiftedYear, Mktime64;
    var k := ShiftedYear(d.year, d.month + 1) * 365 / TWO32;
    DivIs(t, SECS_PER_DAY, n - TWO32 * k, 3600 * tm.hour + 60 * tm.min + tm.sec);
    WholeTurns(n + shift, k);
  }

  lemma WholeTurns(n: int, k: int)
    ensures (n - TWO32 * k) % TWO30 == n % TWO30
  {
    DivIs(n - TWO32 * k, TWO30, n / TWO30 - 4 * k, n % TWO30);
  }

  lemma ClockOf(tm: Tm)
    requires ValidTm(tm)
    ensures var s := 3600 * tm.hour + 60 * tm.min + tm.sec;
            0 <= s < SECS_PER_DAY && s % 60 == tm.sec && s / 60 % 60 == tm.min && s / 3600 == tm.hour
  {
    var s := 3600 * tm.hour + 60 * tm.min + tm.sec;
    DivIs(s, 60, 60 * tm.hour + tm.min, tm.sec);
    DivIs(s, 3600, tm.hour, 60 * tm.min + tm.sec);
    DivIs(60 * tm.hour + tm.min, 60, tm.hour, tm.min);
  }
}
