/**
 Seconds since the Epoch and calendar dates (section 4.16 of POSIX.1-2017 Base Definitions),
 on the proleptic Gregorian calendar.
 */
module Calendar {
  import opened Bytes

  // ---- the calendar, counted month by month --------------------------------

  predicate IsLeap(y: int) {
    y % 4 == 0 && (y % 100 != 0 || y % 400 == 0)
  }

  /** Length of a month, counted from January as 0. */
  function MonthLength(y: int, month: nat): nat
    requires month < 12
  {
    if month == 1 then (if IsLeap(y) then 29 else 28)
    else if month in {3, 5, 8, 10} then 30
    else 31
  }

  /** A month by its number since January of year 0. */
  function MonthNumberLength(n: int): nat {
    MonthLength(n / 12, n % 12)
  }

  const EPOCH_MONTH: int := 1970 * 12

  /** Days from 1970-01-01 to the first day of month `n`, adding month lengths one by one. */
  function DaysToMonth(n: int): int
    decreases if n >= EPOCH_MONTH then n - EPOCH_MONTH else EPOCH_MONTH - n
  {
    if n == EPOCH_MONTH then 0
    else if n > EPOCH_MONTH then DaysToMonth(n - 1) + MonthNumberLength(n - 1)
    else DaysToMonth(n + 1) - MonthNumberLength(n)
  }

  /** Days from 1970-01-01 to a date; the month may be any number, the day too. */
  function DaysToDate(y: int, month: int, day: int): int {
    DaysToMonth(12 * y + month) + day - 1
  }

  // ---- the code's arithmetic -----------------------------------------------

  function BoolToInt(b: bool): nat {
    if b then 1 else 0
  }

  function DaysFromCivil(year: int, m: nat, d: nat): int
    requires 1 <= m <= 12 && d >= 1
  {
    var y := year - BoolToInt(m <= 2);
    var era := CDiv(if y >= 0 then y else y - 399, 400);
    var yoe := y - era * 400;
    var doy := (153 * (if m > 2 then m - 3 else m + 9) + 2) / 5 + d - 1;
    var doe := yoe * 365 + yoe / 4 - yoe / 100 + doy;
    era * 146097 + doe - 719468
  }

  /** First day of month number `n`. */
  function FirstOf(n: int): int {
    DaysFromCivil(n / 12, n % 12 + 1, 1)
  }

  lemma EraIsFloor(y: int)
    ensures CDiv(if y >= 0 then y else y - 399, 400) == y / 400
  {
  }

  /** Days before March of year `y`, in closed form. */
  function YearStart(y: int): int {
    365 * y + y / 4 - y / 100 + y / 400
  }

  lemma YearStartByEra(y: int)
    ensures var yoe := y % 400;
      y / 400 * 146097 + yoe * 365 + yoe / 4 - yoe / 100 == YearStart(y)
  {
    var era, yoe := y / 400, y % 400;
    assert y == 400 * era + yoe;
    Euclid(y, 4, 100 * era + yoe / 4, yoe % 4);
    Euclid(y, 100, 4 * era + yoe / 100, yoe % 100);
  }

  lemma YearStartStep(y: int)
    ensures YearStart(y + 1) == YearStart(y) + 365 + BoolToInt(IsLeap(y + 1))
  {
    FloorStep(y, 4);
    FloorStep(y, 100);
    FloorStep(y, 400);
    Multiples(y + 1);
  }

  lemma Multiples(y: int)
    ensures y % 400 == 0 ==> y % 100 == 0
    ensures y % 100 == 0 ==> y % 4 == 0
  {
    if y % 400 == 0 { Euclid(y, 100, 4 * (y / 400), 0); }
    if y % 100 == 0 { Euclid(y, 4, 25 * (y / 100), 0); }
  }

  /** Quotient and remainder are unique. */
  lemma Euclid(a: int, b: nat, q: int, r: int)
    requires b in {4, 60, 100, 365, 1460} && a == b * q + r && 0 <= r < b
    ensures a / b == q && a % b == r
  {
    if b == 4 {
      assert a == 4 * q + r;
    } else if b == 60 {
      assert a == 60 * q + r;
    } else if b == 100 {
      assert a == 100 * q + r;
    } else if b == 365 {
      assert a == 365 * q + r;
    } else {
      assert a == 1460 * q + r;
    }
  }

  lemma FloorStep(y: int, k: nat)
    requires k in {4, 100, 400}
    ensures (y + 1) / k == y / k + BoolToInt((y + 1) % k == 0)
  {
  }

  /** Days before a month, counted from March as 0. */
  function MonthStart(mp: nat): nat {
    (153 * mp + 2) / 5
  }

  lemma CivilByParts(year: int, m: nat, d: nat)
    requires 1 <= m <= 12 && d >= 1
    ensures DaysFromCivil(year, m, d)
         == YearStart(year - BoolToInt(m <= 2)) + MonthStart(if m > 2 then m - 3 else m + 9) + d - 1 - 719468
  {
    var y := year - BoolToInt(m <= 2);
    EraIsFloor(y);
    YearStartByEra(y);
  }

  /** The months from March have the lengths of the calendar; February ends the count. */
  lemma MonthStartStep(mp: nat)
    requires mp < 11
    ensures MonthStart(mp + 1) == MonthStart(mp) + (if mp in {1, 3, 6, 8} then 30 else 31)
    ensures MonthStart(0) == 0 && MonthStart(11) == 337
  {
  }

  lemma CivilStep(y: int, m: nat)
    requires m < 12
    ensures DaysFromCivil(if m == 11 then y + 1 else y, if m == 11 then 1 else m + 2, 1)
         == DaysFromCivil(y, m + 1, 1) + MonthLength(y, m)
  {
    hide DaysFromCivil, YearStart, IsLeap, MonthStart;
    CivilByParts(y, m + 1, 1);
    CivilByParts(if m == 11 then y + 1 else y, if m == 11 then 1 else m + 2, 1);
    if m == 1 {
      YearStartStep(y - 1);
      MonthStartStep(0);
    } else {
      MonthStartStep(if m > 1 then m - 2 else m + 10);
    }
  }

  lemma FirstOfStep(n: int)
    ensures FirstOf(n + 1) == FirstOf(n) + MonthNumberLength(n)
  {
    hide DaysFromCivil, MonthLength;
    var y, m := n / 12, n % 12;
    CivilStep(y, m);
    assert n + 1 == 12 * y + (m + 1);
    assert (n + 1) / 12 == if m == 11 then y + 1 else y;
    assert (n + 1) % 12 == if m == 11 then 0 else m + 1;
  }

  lemma FirstOfEpoch()
    ensures FirstOf(EPOCH_MONTH) == 0
  {
    hide DaysFromCivil;
    CivilByParts(1970, 1, 1);
    assert EPOCH_MONTH / 12 == 1970 && EPOCH_MONTH % 12 == 0;
  }

  lemma DaysToMonthStep(n: int)
    ensures DaysToMonth(n + 1) == DaysToMonth(n) + MonthNumberLength(n)
  {
    hide MonthNumberLength;
  }

  /** The formula counts the months one by one. */
  lemma {:induction false} FirstOfCountsMonths(n: int)
    ensures FirstOf(n) == DaysToMonth(n)
    decreases if n >= EPOCH_MONTH then n - EPOCH_MONTH else EPOCH_MONTH - n
  {
    hide MonthNumberLength, FirstOf, DaysToMonth;
    if n == EPOCH_MONTH {
      FirstOfEpoch();
      DaysToEpoch();
    } else if n > EPOCH_MONTH {
      FirstOfCountsMonths(n - 1);
      FirstOfStep(n - 1);
      DaysToMonthStep(n - 1);
    } else {
      FirstOfCountsMonths(n + 1);
      FirstOfStep(n);
      DaysToMonthStep(n);
    }
  }

  lemma DaysToEpoch()
    ensures DaysToMonth(EPOCH_MONTH) == 0
  {
  }

  lemma MonthNumber(y: int, month: int)
    requires 0 <= month < 12
    ensures (12 * y + month) / 12 == y && (12 * y + month) % 12 == month
  {
  }

  lemma CivilCountsMonths(y: int, m: nat, d: nat)
    requires 1 <= m <= 12 && d >= 1
    ensures DaysFromCivil(y, m, d) == DaysToDate(y, m - 1, d)
  {
    hide DaysFromCivil, MonthStart, YearStart;
    var n := 12 * y + (m - 1);
    MonthNumber(y, m - 1);
    FirstOfCountsMonths(n);
    CivilByParts(y, m, d);
    CivilByParts(y, m, 1);
  }

  // ---- from a day number back to the date ----------------------------------

  /** Days of a 400-year era, its year, and the day of that year (from March). */
  function YearOfEra(doe: nat): int {
    (doe - doe / 1460 + doe / 36524 - doe / 146096) / 365
  }

  datatype Date = Date(year: int, m: nat, d: int)

  /** The date of day `doy` of the year of months from March that starts in `y`. */
  function DateFromMarch(y: int, doy: nat): Date {
    var mp := (5 * doy + 2) / 153;
    var m := if mp < 10 then mp + 3 else mp - 9;
    Date(y + BoolToInt(m <= 2), m, doy - (153 * mp + 2) / 5 + 1)
  }

  function CivilFromDays(days: int): Date {
    var z := days + 719468;
    var era := CDiv(if z >= 0 then z else z - 146096, 146097);
    var doe := z - era * 146097;
    EraOfDays(z);
    var yoe := YearOfEra(doe);
    var doy := doe - (365 * yoe + yoe / 4 - yoe / 100);
    YearOfEraIsRight(doe);
    DateFromMarch(yoe + era * 400, doy)
  }

  lemma EraOfDays(z: int)
    ensures CDiv(if z >= 0 then z else z - 146096, 146097) == z / 146097
    ensures 0 <= z - z / 146097 * 146097 < 146097
  {
  }

  lemma FourYearsOfEra(c: nat, q: nat, s: nat, doy: nat, k: nat)
    requires c <= 3 && q <= 24 && s <= 3 && doy <= 365 && (doy == 365 ==> s == 3)
    requires k == BoolToInt(24 * c + q + 365 * s + doy >= 1460)
    ensures (36524 * c + 1461 * q + 365 * s + doy) / 1460 == 25 * c + q + k && doy - k >= 0 && doy - k < 365
  {
    var e := 24 * c + q + 365 * s + doy;
    assert 365 * s + doy <= 1460 && e <= 72 + 24 + 1460;
    Euclid(36524 * c + 1461 * q + 365 * s + doy, 1460, 25 * c + q + k, e - 1460 * k);
  }

  /** The division by 365 after the corrections finds the year: `c` centuries, `q` groups of four
      years, `s` years. */
  lemma YearFromParts(c: nat, q: nat, s: nat, doy: nat)
    requires c <= 3 && q <= 24 && s <= 3 && doy <= 365
    requires doy == 365 ==> s == 3 && (q < 24 || c == 3)
    ensures YearOfEra(36524 * c + 1461 * q + 365 * s + doy) == 100 * c + 4 * q + s
  {
    var doe := 36524 * c + 1461 * q + 365 * s + doy;
    var k := BoolToInt(24 * c + q + 365 * s + doy >= 1460);
    FourYearsOfEra(c, q, s, doy, k);
    CenturyOfEra(doe, c, 1461 * q + 365 * s + doy);
    Euclid(365 * (100 * c + 4 * q + s) + (doy - k), 365, 100 * c + 4 * q + s, doy - k);
  }

  lemma CenturyOfEra(doe: nat, c: nat, r: nat)
    requires c <= 3 && doe == 36524 * c + r && (r < 36524 || (r == 36524 && c == 3))
    ensures doe / 36524 - doe / 146096 == c
  {
  }

  /** A day of an era in its century, its cycle of four years and its year. */
  lemma EraParts(doe: nat) returns (c: nat, q: nat, s: nat, doy: nat)
    requires doe < 146097
    ensures c <= 3 && q <= 24 && s <= 3 && doy <= 365 && (doy == 365 ==> s == 3 && (q < 24 || c == 3))
    ensures doe == 36524 * c + 1461 * q + 365 * s + doy
  {
    c := if doe / 36524 > 3 then 3 else doe / 36524;
    var r := doe - 36524 * c;
    assert r <= 36524 && (r == 36524 ==> c == 3);
    q := r / 1461;
    var r' := r - 1461 * q;
    assert q <= 24 && r' < 1461;
    s := if r' / 365 > 3 then 3 else r' / 365;
    doy := r' - 365 * s;
  }

  lemma YearOfEraIsRight(doe: nat)
    requires doe < 146097
    ensures var yoe := YearOfEra(doe);
      var doy := doe - (365 * yoe + yoe / 4 - yoe / 100);
      0 <= yoe < 400 && 0 <= doy <= 364 + BoolToInt(IsLeap(yoe + 1))
  {
    var c, q, s, doy := EraParts(doe);
    YearFromParts(c, q, s, doy);
    var yoe := 100 * c + 4 * q + s;
    hide YearOfEra;
    assert yoe / 4 == 25 * c + q && yoe / 100 == c;
    if doy == 365 {
      LeapYearOfEra(c, q);
    }
  }

  lemma LeapYearOfEra(c: nat, q: nat)
    requires c <= 3 && q <= 24 && (q < 24 || c == 3)
    ensures IsLeap(100 * c + 4 * q + 4)
  {
    var y := 100 * c + 4 * q + 4;
    assert y == 4 * (25 * c + q + 1);
    assert q < 24 ==> y % 100 == 4 * q + 4;
  }

  lemma MonthOfYear(doy: nat)
    requires doy <= 365
    ensures var mp := (5 * doy + 2) / 153;
      mp <= 11 && MonthStart(mp) <= doy && (mp < 11 ==> doy < MonthStart(mp + 1))
  {
  }

  lemma AddMultiple(y: int, a: int, k: nat)
    requires k in {4, 100, 400}
    ensures (k * a + y) % k == y % k
  {
  }

  lemma LeapByEra(era: int, yoe: int)
    ensures IsLeap(400 * era + yoe) == IsLeap(yoe)
  {
    AddMultiple(yoe, 100 * era, 4);
    AddMultiple(yoe, 4 * era, 100);
    AddMultiple(yoe, era, 400);
  }

  /** A day of the month that exists. */
  predicate ValidDate(date: Date) {
    1 <= date.m <= 12 && 1 <= date.d <= MonthLength(date.year, date.m - 1)
  }

  lemma DateFromMarchIsRight(y: int, doy: nat)
    requires doy <= 364 + BoolToInt(IsLeap(y + 1))
    ensures var date := DateFromMarch(y, doy);
      ValidDate(date) && DaysFromCivil(date.year, date.m, date.d) == YearStart(y) + doy - 719468
  {
    hide IsLeap, YearStart, DaysFromCivil;
    MonthOfYear(doy);
    var mp := (5 * doy + 2) / 153;
    if mp < 11 { MonthStartStep(mp); }
    MonthStartStep(0);
    var date := DateFromMarch(y, doy);
    CivilByParts(date.year, date.m, date.d);
  }

  lemma YearInEra(era: int, yoe: nat)
    requires yoe < 400
    ensures (yoe + era * 400) / 400 == era && (yoe + era * 400) % 400 == yoe
  {
  }

  lemma CivilByEra(days: int)
    ensures
      var z := days + 719468;
      var doe := z - z / 146097 * 146097;
      var yoe := YearOfEra(doe);
      var doy := doe - (365 * yoe + yoe / 4 - yoe / 100);
      0 <= doe < 146097 && 0 <= doy <= 365 && CivilFromDays(days) == DateFromMarch(yoe + z / 146097 * 400, doy)
  {
    hide CDiv, YearOfEra, DateFromMarch;
    var z := days + 719468;
    EraOfDays(z);
    YearOfEraIsRight(z - z / 146097 * 146097);
  }

  lemma CivilFromDaysIsRight(days: int)
    ensures var date := CivilFromDays(days);
      ValidDate(date) && DaysFromCivil(date.year, date.m, date.d) == days
  {
    hide CivilFromDays, YearOfEra, DateFromMarch, DaysFromCivil, IsLeap, YearStart;
    var z := days + 719468;
    EraOfDays(z);
    var era, doe := z / 146097, z - z / 146097 * 146097;
    YearOfEraIsRight(doe);
    var yoe := YearOfEra(doe);
    var doy := doe - (365 * yoe + yoe / 4 - yoe / 100);
    CivilByEra(days);
    LeapByEra(era, yoe + 1);
    YearInEra(era, yoe);
    YearStartByEra(yoe + era * 400);
    DateFromMarchIsRight(yoe + era * 400, doy);
  }

  // ---- struct tm -----------------------------------------------------------

  /** What a cast to `int` keeps. */
  function Wrap32(x: int): int {
    (x + 0x8000_0000) % TWO_32 - 0x8000_0000
  }

  predicate IsInt32(x: int) {
    -0x8000_0000 <= x < 0x8000_0000
  }

  datatype Fields = Fields(sec: int, min: int, hour: int, mday: int, mon: int, year: int,
                           wday: int, yday: int)

  function DayOf(t: int): int {
    var days := CDiv(t, 86400);
    if CMod(t, 86400) < 0 then days - 1 else days
  }

  function SecondOf(t: int): int {
    var rem := CMod(t, 86400);
    if rem < 0 then rem + 86400 else rem
  }

  function Gmtime(t: int): Fields {
    var days, rem := DayOf(t), SecondOf(t);
    var date := CivilFromDays(days);
    Fields(CMod(rem, 60), CDiv(CMod(rem, 3600), 60), CDiv(rem, 3600),
           date.d, date.m - 1, Wrap32(date.year - 1900),
           CMod(CMod(days, 7) + 11, 7), days - DaysFromCivil(date.year, 1, 1))
  }

  /** The seconds of a date whose month, day and time may be out of range. */
  function Seconds(f: Fields): int {
    var year := f.year + 1900 + CDiv(f.mon, 12);
    var rest := CMod(f.mon, 12);
    var mon := if rest < 0 then rest + 12 else rest;
    var days := DaysFromCivil(if rest < 0 then year - 1 else year, mon + 1, 1) + (f.mday - 1);
    days * 86400 + f.hour * 3600 + f.min * 60 + f.sec
  }

  class Tm {
    var sec: int
    var min: int
    var hour: int
    var mday: int
    var mon: int
    var year: int
    var wday: int
    var yday: int

    function Value(): Fields
      reads this
    {
      Fields(sec, min, hour, mday, mon, year, wday, yday)
    }

    method GmtimeR(t: int)
      modifies this
      ensures Value() == Gmtime(t)
    {
      hide CDiv, CMod, CivilFromDays, DaysFromCivil, Wrap32;
      var days := CDiv(t, 86400);
      var rem := CMod(t, 86400);
      if rem < 0 {
        rem := rem + 86400;
        days := days - 1;
      }
      hour := CDiv(rem, 3600);
      min := CDiv(CMod(rem, 3600), 60);
      sec := CMod(rem, 60);
      wday := CMod(CMod(days, 7) + 11, 7);
      var date := CivilFromDays(days);
      year := Wrap32(date.year - 1900);
      mon := date.m - 1;
      mday := date.d;
      yday := days - DaysFromCivil(date.year, 1, 1);
    }

    /** Seconds of the fields, which are then normalised. */
    method Timegm() returns (t: int)
      modifies this
      ensures t == Seconds(old(Value()))
      ensures Value() == Gmtime(t)
    {
      hide DaysFromCivil, Gmtime;
      var y := year + 1900;
      var m := mon;
      y := y + CDiv(m, 12);
      m := CMod(m, 12);
      if m < 0 {
        m := m + 12;
        y := y - 1;
      }
      var days := DaysFromCivil(y, m + 1, 1) + (mday - 1);
      t := days * 86400 + hour * 3600 + min * 60 + sec;
      GmtimeR(t);
    }
  }

  // ---- seconds and dates ------------------------------------------------------

  /** 1970-01-01 was a Thursday, the fourth day from Sunday. */
  function Weekday(days: int): nat {
    (days + 4) % 7
  }

  /** The year of `t`, before it is stored in an int. */
  function YearOf(t: int): int {
    CivilFromDays(DayOf(t)).year
  }

  lemma TruncatedDivision(a: int, b: nat)
    requires b in {7, 12, 86400}
    ensures CMod(a, b) == if a >= 0 || a % b == 0 then a % b else a % b - b
    ensures CDiv(a, b) == if a >= 0 || a % b == 0 then a / b else a / b + 1
  {
    if a < 0 {
      var q, r := (-a) / b, (-a) % b;
      assert -a == q * b + r;
    }
  }

  lemma DaysAndSeconds(t: int)
    ensures DayOf(t) == t / 86400 && SecondOf(t) == t % 86400
  {
    TruncatedDivision(t, 86400);
  }

  /** `timegm` counts months one by one, whatever the month and the day. */
  lemma SecondsCountMonths(f: Fields)
    ensures Seconds(f) == DaysToDate(f.year + 1900, f.mon, f.mday) * 86400
                          + f.hour * 3600 + f.min * 60 + f.sec
  {
    hide DaysFromCivil, DaysToMonth, CDiv, CMod;
    var n := 12 * (f.year + 1900) + f.mon;
    TruncatedDivision(f.mon, 12);
    assert n / 12 == f.year + 1900 + f.mon / 12 && n % 12 == f.mon % 12;
    FirstOfCountsMonths(n);
    assert CMod(f.mon, 12) < 0 ==> f.mon % 12 != 0;
  }

  /** `gmtime_r` gives the calendar date, the time of day, the weekday and the day of the year;
      only the year is cut to 32 bits. */
  lemma GmtimeIsCalendar(t: int)
    ensures var f := Gmtime(t);
      && 0 <= f.mon < 12 && 1 <= f.mday <= MonthLength(YearOf(t), f.mon)
      && 0 <= f.hour < 24 && 0 <= f.min < 60 && 0 <= f.sec < 60
      && t == DaysToDate(YearOf(t), f.mon, f.mday) * 86400 + f.hour * 3600 + f.min * 60 + f.sec
      && f.year == Wrap32(YearOf(t) - 1900)
      && f.wday == Weekday(DayOf(t))
      && f.yday == DayOf(t) - DaysToDate(YearOf(t), 0, 1)
  {
    hide CivilFromDays, DaysFromCivil, DaysToMonth, MonthLength, DayOf, SecondOf, CDiv, CMod, Wrap32;
    var days, rem := DayOf(t), SecondOf(t);
    DaysAndSeconds(t);
    CivilFromDaysIsRight(days);
    var date := CivilFromDays(days);
    CivilCountsMonths(date.year, date.m, date.d);
    CivilCountsMonths(date.year, 1, 1);
    WeekdayIsRight(days);
    SplitSeconds(rem);
  }

  lemma WeekdayIsRight(days: int)
    ensures CMod(CMod(days, 7) + 11, 7) == Weekday(days)
  {
    TruncatedDivision(days, 7);
  }

  lemma SplitSeconds(rem: int)
    requires 0 <= rem < 86400
    ensures var hour, min, sec := CDiv(rem, 3600), CDiv(CMod(rem, 3600), 60), CMod(rem, 60);
      && 0 <= hour < 24 && 0 <= min < 60 && 0 <= sec < 60
      && rem == hour * 3600 + min * 60 + sec
  {
    var hour := rem / 3600;
    var inHour := rem - hour * 3600;
    var min := inHour / 60;
    assert CMod(rem, 3600) == inHour;
    Euclid(rem, 60, 60 * hour + min, inHour - 60 * min);
    assert CMod(rem, 60) == rem % 60;
  }

  // ---- round trips ---------------------------------------------------------

  /** Months take at least 28 days, so day counts tell months apart. */
  lemma {:induction false} MonthsAscend(a: int, b: int)
    requires a <= b
    ensures DaysToMonth(b) >= DaysToMonth(a) + 28 * (b - a)
    decreases b - a
  {
    if a < b {
      hide DaysToMonth;
      MonthsAscend(a, b - 1);
      DaysToMonthStep(b - 1);
    }
  }

  /** A day lies in one month only. */
  lemma SameMonth(a: int, i: int, b: int, j: int)
    requires 0 <= i < MonthNumberLength(a) && 0 <= j < MonthNumberLength(b)
    requires DaysToMonth(a) + i == DaysToMonth(b) + j
    ensures a == b && i == j
  {
    hide DaysToMonth, MonthNumberLength;
    DaysToMonthStep(a);
    DaysToMonthStep(b);
    if a < b { MonthsAscend(a + 1, b); }
    if b < a { MonthsAscend(b + 1, a); }
  }

  /** `timegm` undoes `gmtime_r` exactly while the year fits its field. */
  lemma GmtimeThenTimegm(t: int)
    ensures Seconds(Gmtime(t)) == t <==> IsInt32(YearOf(t) - 1900)
  {
    hide Gmtime, Seconds, DaysToMonth, YearOf, MonthLength;
    var f := Gmtime(t);
    GmtimeIsCalendar(t);
    SecondsCountMonths(f);
    var n, n' := 12 * YearOf(t) + f.mon, 12 * (f.year + 1900) + f.mon;
    if n < n' { MonthsAscend(n, n'); }
    if n' < n { MonthsAscend(n', n); }
  }

  const FIRST_SECOND: int := -67768040609740800
  const END_SECOND: int := 67768036191676800

  lemma FirstDayOfYear(y: int)
    ensures DaysToMonth(12 * y) == YearStart(y - 1) + 306 - 719468
  {
    hide DaysFromCivil, DaysToMonth, YearStart;
    CivilCountsMonths(y, 1, 1);
    CivilByParts(y, 1, 1);
  }

  lemma BoundsAreYears()
    ensures DaysToMonth(12 * (-0x8000_0000 + 1900)) * 86400 == FIRST_SECOND
    ensures DaysToMonth(12 * (0x8000_0000 + 1900)) * 86400 == END_SECOND
  {
    hide DaysToMonth;
    FirstDayOfYear(-0x8000_0000 + 1900);
    FirstDayOfYear(0x8000_0000 + 1900);
  }

  /** The times a `struct tm` can hold. */
  lemma YearFits(t: int)
    ensures IsInt32(YearOf(t) - 1900) <==> FIRST_SECOND <= t < END_SECOND
  {
    hide Gmtime, DaysToMonth, YearOf, MonthLength;
    var lo, hi := -0x8000_0000 + 1900, 0x8000_0000 + 1900;
    BoundsAreYears();
    var f := Gmtime(t);
    GmtimeIsCalendar(t);
    var n := 12 * YearOf(t) + f.mon;
    DaysToMonthStep(n);
    MonthNumber(YearOf(t), f.mon);
    if YearOf(t) >= lo { MonthsAscend(12 * lo, n); } else { MonthsAscend(n + 1, 12 * lo); }
    if YearOf(t) >= hi { MonthsAscend(12 * hi, n); } else { MonthsAscend(n + 1, 12 * hi); }
  }

  /** Fields that name an existing date and time of day. */
  predicate ValidFields(f: Fields) {
    && 0 <= f.mon < 12 && 1 <= f.mday <= MonthLength(f.year + 1900, f.mon)
    && 0 <= f.hour < 24 && 0 <= f.min < 60 && 0 <= f.sec < 60 && IsInt32(f.year)
  }

  /** `gmtime_r` undoes `timegm` on every existing date. */
  lemma TimegmThenGmtime(f: Fields)
    requires ValidFields(f)
    ensures Gmtime(Seconds(f)).(wday := f.wday, yday := f.yday) == f
  {
    hide Gmtime, Seconds, DaysToMonth, YearOf, MonthLength;
    var t := Seconds(f);
    var g := Gmtime(t);
    SecondsCountMonths(f);
    GmtimeIsCalendar(t);
    var n, k := 12 * (f.year + 1900) + f.mon, 12 * YearOf(t) + g.mon;
    assert n / 12 == f.year + 1900 && n % 12 == f.mon;
    assert k / 12 == YearOf(t) && k % 12 == g.mon;
    TimeOfDay(DaysToDate(f.year + 1900, f.mon, f.mday), f, DaysToDate(YearOf(t), g.mon, g.mday), g);
    SameMonth(n, f.mday - 1, k, g.mday - 1);
  }

  lemma TimeOfDay(a: int, f: Fields, b: int, g: Fields)
    requires 0 <= f.hour < 24 && 0 <= f.min < 60 && 0 <= f.sec < 60
    requires 0 <= g.hour < 24 && 0 <= g.min < 60 && 0 <= g.sec < 60
    requires a * 86400 + f.hour * 3600 + f.min * 60 + f.sec
          == b * 86400 + g.hour * 3600 + g.min * 60 + g.sec
    ensures a == b && f.hour == g.hour && f.min == g.min && f.sec == g.sec
  {
  }
}
