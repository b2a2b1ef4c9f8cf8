/**
 Calendar time (time.c): kern_mktime, and the normalising step in front of it, against the closed
 form of section 4.16 of POSIX.1-2017 Base Definitions.
 */
module CalendarTime {
  import opened Basics

  //  The calendar; years count from 1900, months from 0

  predicate Leap(y: int) {
    y % 4 == 0 && (y % 100 != 0 || (y + 1900) % 400 == 0)
  }

  function DaysInYear(y: int): (d: int)
    ensures 365 <= d <= 366
  {
    if Leap(y) then 366 else 365
  }

  const DAYS_IN_MONTH: seq<int> := [31, 28, 31, 30, 31, 30, 31, 31, 30, 31, 30, 31]
  const DAYS_BEFORE_MONTH: seq<int> := [0, 31, 59, 90, 120, 151, 181, 212, 243, 273, 304, 334]

  ghost function MonthLength(y: int, m: int): (d: int)
    requires 0 <= m < 12
    ensures 28 <= d <= 31
  {
    if m == 1 && Leap(y) then 29 else DAYS_IN_MONTH[m]
  }

  /** The days of the year before the first of the month, counted month by month. */
  ghost function DaysBefore(y: int, m: int): int
    requires 0 <= m <= 12
    decreases m
  {
    if m == 0 then 0 else DaysBefore(y, m - 1) + MonthLength(y, m - 1)
  }

  /** The closed form's days from 1 January 1970 to 1 January of year y. */
  ghost function YearStart(y: int): int {
    365 * (y - 70) + (y - 69) / 4 - (y - 1) / 100 + (y + 299) / 400
  }

  ghost function DayNumber(y: int, m: int, d: int): int
    requires 0 <= m < 12
  {
    YearStart(y) + DaysBefore(y, m) + d - 1
  }

  /** Seconds since the Epoch. */
  ghost function Posix(y: int, yday: int, hour: int, minute: int, second: int): int {
    second + minute * 60 + hour * 3600 + yday * 86400 + (y - 70) * 31536000
    + ((y - 69) / 4) * 86400 - ((y - 1) / 100) * 86400 + ((y + 299) / 400) * 86400
  }

  /** The closed form counts exactly one more year at a time, in either direction. */
  lemma NextYear(y: int)
    ensures YearStart(y + 1) == YearStart(y) + DaysInYear(y)
  {
    FourthYears(y);
    Centuries(y);
    FourthCenturies(y);
  }

  lemma FourthYears(y: int)
    ensures (y - 68) / 4 == (y - 69) / 4 + if y % 4 == 0 then 1 else 0
  {
  }

  lemma Centuries(y: int)
    ensures y / 100 == (y - 1) / 100 + if y % 100 == 0 then 1 else 0
    ensures y % 100 == 0 ==> y % 4 == 0
  {
  }

  lemma FourthCenturies(y: int)
    ensures (y + 300) / 400 == (y + 299) / 400 + if (y + 1900) % 400 == 0 then 1 else 0
    ensures (y + 1900) % 400 == 0 ==> y % 100 == 0
  {
  }

  lemma {:induction false} YearTable(y: int, m: int)
    requires 0 <= m < 12
    ensures DaysBefore(y, m) == DAYS_BEFORE_MONTH[m] + (if m > 1 && Leap(y) then 1 else 0)
    decreases m
  {
    if m > 0 {
      YearTable(y, m - 1);
    }
  }

  lemma YearLength(y: int)
    ensures DaysBefore(y, 12) == DaysInYear(y)
  {
    YearTable(y, 11);
  }

  /** The days from 1 March to the first of the k-th month after it, in closed form. */
  ghost function SinceMarch(k: nat): nat { (153 * k + 2) / 5 }

  /** The month lengths by the closed form: a year that begins in March has its short month last. */
  lemma MonthLengths(y: int, m: int)
    requires 0 <= m < 12
    ensures MonthLength(y, m) == if m == 1 then DaysInYear(y) - SinceMarch(11)
                                 else SinceMarch((m + 10) % 12 + 1) - SinceMarch((m + 10) % 12)
  {
    assert m == 0 || m == 1 || m == 2 || m == 3 || m == 4 || m == 5
        || m == 6 || m == 7 || m == 8 || m == 9 || m == 10 || m == 11;
  }

  lemma FirstOfMarch()
    ensures SinceMarch(0) == 0
  {
  }

  /** The days before each month, and so the table of the source, by the closed form. */
  lemma {:induction false} MonthStarts(y: int, m: int)
    requires 0 <= m < 12
    ensures DaysBefore(y, m) == if m < 2 then SinceMarch(10 + m) - SinceMarch(10)
                                else DaysInYear(y) - SinceMarch(10) + SinceMarch(m - 2)
    decreases m
  {
    hide DaysInYear, MonthLength, SinceMarch;
    if m > 0 {
      MonthStarts(y, m - 1);
      MonthLengths(y, m - 1);
      FirstOfMarch();
    }
  }

  /** The first of the next month is one month's length later, also over the end of a year. */
  lemma NextMonth(y: int, m: int, d: int)
    requires 0 <= m < 12
    ensures m < 11 ==> DayNumber(y, m + 1, d) == DayNumber(y, m, d + MonthLength(y, m))
    ensures m == 11 ==> DayNumber(y + 1, 0, d) == DayNumber(y, m, d + MonthLength(y, m))
  {
    YearLength(y);
    NextYear(y);
  }

  lemma PosixIsDays(y: int, m: int, d: int, hour: int, minute: int, second: int)
    requires 0 <= m < 12
    ensures Posix(y, DaysBefore(y, m) + d - 1, hour, minute, second) ==
      86400 * DayNumber(y, m, d) + 3600 * hour + 60 * minute + second
  {
  }

  //  The fields: the year is an unsigned short, the others are unsigned chars, and what is stored wraps to fit

  type Short = x: int | 0 <= x < 65536

  /** What a field hands to the next one. */
  function Carried(field: int, limit: int): (c: int)
    requires limit == 60 || limit == 24
    ensures c >= 0 && (c == 0 <==> field < limit)
  {
    if field < limit then 0 else if limit == 60 then field / 60 else field / 24
  }

  /** A field with what the one below it hands on. */
  function Raised(field: Byte, below: Byte, limit: int): Byte
    requires limit == 60 || limit == 24
  {
    var sum := field + Carried(below, limit);
    if sum < 256 then sum else sum - 256
  }

  /** The day that a day number stands for once the year is stored: after the last year that fits comes year zero. */
  ghost function Stored(n: int): int {
    if n < YearStart(65536) then n else n - (YearStart(65536) - YearStart(0))
  }

  /** While days are passed on to months: the day is the one meant, or the year has wrapped and will not do so again. */
  ghost predicate SameDay(first: int, y: int, m: int, d: int)
    requires 0 <= m < 12
  {
    var n := DayNumber(y, m, d);
    n == first || (y == 0 && first >= YearStart(65536) && n == Stored(first) < YearStart(1))
  }

  lemma MonthPassed(first: int, y: Short, m: int, d: Byte)
    requires 0 <= m < 12 && MonthLength(y, m) < d && SameDay(first, y, m, d)
    ensures m < 11 ==> SameDay(first, y, m + 1, d - MonthLength(y, m))
    ensures m == 11 ==> SameDay(first, (y + 1) % 65536, 0, d - MonthLength(y, m))
  {
    hide YearStart;
    var e := d - MonthLength(y, m);
    NextMonth(y, m, e);
    NextYear(0);
    hide DaysInYear, Leap;
    if m == 11 {
      hide MonthLength;
      assert DayNumber(y, 11, d) == YearStart(y + 1) + e - 1;
      assert DayNumber(0, 0, e) == YearStart(0) + e - 1;
    }
  }

  lemma MonthReached(first: int, y: Short, m: int, d: Byte)
    requires 0 <= m < 12 && d <= MonthLength(y, m) && SameDay(first, y, m, d)
    ensures DayNumber(y, m, d) == Stored(first)
  {
    YearTable(y, m);
    NextYear(y);
    YearsGrow(y + 1, 65536);
    hide YearStart;
  }

  /** The fields as they stand: no field is out of the range that the normalising step carries. */
  predicate InRange(hour: int, minute: int, second: int) {
    second <= 59 && minute <= 59 && hour <= 23
  }

  //  The source's integer division truncates; it is only reached with positive operands.
  function Quotient(a: int, b: int): int
    requires a >= 0 && b > 0
  {
    a / b
  }

  lemma RaisedIs(field: Byte, below: Byte, limit: int)
    requires limit == 60 || limit == 24
    ensures Raised(field, below, limit) == if below < limit then field else (field + Quotient(below, limit)) % 256
  {
    if limit == 60 {
      Mod256(field + below / 60);
    } else {
      Mod256(field + below / 24);
    }
  }

  lemma Mod256(sum: int)
    requires 0 <= sum < 512
    ensures sum % 256 == if sum < 256 then sum else sum - 256
  {
  }

  class Time {
    var year: Short
    var month: Byte
    var day: Byte
    var hour: Byte
    var minute: Byte
    var second: Byte

    constructor (year: Short, month: Byte, day: Byte, hour: Byte, minute: Byte, second: Byte)
      ensures this.year == year && this.month == month && this.day == day
      ensures this.hour == hour && this.minute == minute && this.second == second
    {
      this.year, this.month, this.day := year, month, day;
      this.hour, this.minute, this.second := hour, minute, second;
    }

    /** The carries of validate_structure: the quotient is passed on, and the field keeps its value. */
    method Carry()
      modifies this`minute, this`hour, this`day
      ensures minute == Raised(old(minute), second, 60)
      ensures hour == Raised(old(hour), minute, 60)
      ensures day == Raised(old(day), hour, 24)
    {
      hide Raised, Carried, Quotient;
      RaisedIs(minute, second, 60);
      if second > 59 {
        minute := (minute + Quotient(second, 60)) % 256;
      }
      RaisedIs(hour, minute, 60);
      if minute > 59 {
        hour := (hour + Quotient(minute, 60)) % 256;
      }
      RaisedIs(day, hour, 24);
      if hour > 23 {
        day := (day + Quotient(hour, 24)) % 256;
      }
    }

    /** The day loop of validate_structure ends, on a day of its month or an earlier one, and keeps the day. */
    method NormaliseDay()
      requires month < 12
      modifies this`year, this`month, this`day
      ensures month < 12 && day <= MonthLength(year, month)
      ensures DayNumber(year, month, day) == Stored(old(DayNumber(year, month, day)))
      ensures old(day) >= 1 ==> day >= 1
      ensures old(day <= MonthLength(year, month)) ==> unchanged(this)
    {
      hide SameDay, DayNumber;
      ghost var first := DayNumber(year, month, day);
      DayMeant(year, month, day);
      var daysInFeb := 28;
      if DaysInYear(year) == 366 {
        daysInFeb := 29;
      }
      while day > (if month == 1 then daysInFeb else DAYS_IN_MONTH[month])
        invariant month < 12 && daysInFeb == (if Leap(year) then 29 else 28)
        invariant SameDay(first, year, month, day)
        invariant old(day) >= 1 ==> day >= 1
        invariant old(day <= MonthLength(year, month)) ==> unchanged(this)
        decreases day
      {
        var length := if month == 1 then daysInFeb else DAYS_IN_MONTH[month];
        MonthPassed(first, year, month, day);
        day := day - length;
        month := month + 1;
        if month == 12 {
          year := (year + 1) % 65536;
          month := 0;
          daysInFeb := if DaysInYear(year) == 366 then 29 else 28;
        }
      }
      MonthReached(first, year, month, day);
    }

    method YearDays() returns (days: int)
      ensures days == YearStart(year)
    {
      hide YearStart;
      days := 0;
      StartOfEpoch();
      if year > 70 {
        var y := 70;
        while y < year
          invariant 70 <= y <= year && days == YearStart(y)
        {
          NextYear(y);
          days := days + DaysInYear(y);
          y := y + 1;
        }
      } else if year < 70 {
        var y := 69;
        while y > year
          invariant year <= y <= 69 && days == YearStart(y + 1)
        {
          NextYear(y);
          days := days - DaysInYear(y);
          y := y - 1;
        }
        NextYear(y);
        days := days - DaysInYear(y);
      }
    }

    /** kern_mktime; sums that do not fit the 32 bits of time_t and long wrap around. */
    method MkTime() returns (tim: int)
      requires month < 12
      modifies this
      ensures tim == TimeT(old(Returned(year, month, day, hour, minute, second)))
      ensures second == old(second) && minute == Raised(old(minute), second, 60)
      ensures hour == Raised(old(hour), minute, 60)
      ensures month < 12 && day <= MonthLength(year, month)
      ensures DayNumber(year, month, day) == Stored(DayNumber(old(year), old(month), Raised(old(day), hour, 24)))
    {
      hide YearStart, DaysBefore, TimeT;
      Carry();
      NormaliseDay();
      tim := second + minute * 60 + hour * 3600;
      var days := day - 1;
      days := days + DAYS_BEFORE_MONTH[month];
      if month > 1 && DaysInYear(year) == 366 {
        days := days + 1;
      }
      YearTable(year, month);
      var before := YearDays();
      days := days + before;
      TimeTSum(tim, days * 86400);
      tim := TimeT(tim + TimeT(days * 86400));
    }
  }

  /** A sum as a signed 32-bit integer holds it. */
  function TimeT(x: int): int { (x + 0x8000_0000) % 0x1_0000_0000 - 0x8000_0000 }

  lemma TimeTSum(a: int, b: int)
    ensures TimeT(a + TimeT(b)) == TimeT(a + b)
  {
    var k := (b + 0x8000_0000) / 0x1_0000_0000;
    assert TimeT(b) == b - k * 0x1_0000_0000;
    Whole(a + b + 0x8000_0000, k);
  }

  lemma Whole(x: int, k: int)
    ensures (x - k * 0x1_0000_0000) % 0x1_0000_0000 == x % 0x1_0000_0000
  {
  }

  lemma StartOfEpoch()
    ensures YearStart(70) == 0
  {
  }

  lemma DayMeant(y: int, m: int, d: int)
    requires 0 <= m < 12
    ensures SameDay(DayNumber(y, m, d), y, m, d)
  {
  }

  /** The value that kern_mktime returns, as a function of the fields it is given. */
  ghost function Returned(y: Short, m: Byte, d: Byte, hour: Byte, minute: Byte, second: Byte): int
    requires m < 12
  {
    var minute' := Raised(minute, second, 60);
    var hour' := Raised(hour, minute', 60);
    86400 * Stored(DayNumber(y, m, Raised(d, hour', 24))) + 3600 * hour' + 60 * minute' + second
  }

  /** How far the carries move the time. */
  ghost function Moved(d: Byte, hour: Byte, minute: Byte, second: Byte): int {
    var minute' := Raised(minute, second, 60);
    var hour' := Raised(hour, minute', 60);
    86400 * (Raised(d, hour', 24) - d) + 3600 * (hour' - hour) + 60 * (minute' - minute)
  }

  /** No sum that validate_structure stores is too large for its byte. */
  ghost predicate CarriesFit(d: Byte, hour: Byte, minute: Byte, second: Byte) {
    && minute + Carried(second, 60) < 256
    && hour + Carried(minute + Carried(second, 60), 60) < 256
    && d + Carried(hour + Carried(minute + Carried(second, 60), 60), 24) < 256
  }

  /** The carries cancel out only where there are none: what wraps is never a whole number of larger units. */
  lemma CarriesMove(d: Byte, hour: Byte, minute: Byte, second: Byte)
    ensures Moved(d, hour, minute, second) == 0 <==> InRange(hour, minute, second)
    ensures CarriesFit(d, hour, minute, second) ==> Moved(d, hour, minute, second) >= 0
    ensures -24_000_000 < Moved(d, hour, minute, second) < 1_000_000
  {
    var minute' := Raised(minute, second, 60);
    var hour' := Raised(hour, minute', 60);
    RaisedBy(minute, second, 60);
    RaisedBy(hour, minute', 60);
    RaisedBy(d, hour', 24);
    hide Raised;
  }

  lemma RaisedBy(field: Byte, below: Byte, limit: int)
    requires limit == 60 || limit == 24
    ensures var more, most := Raised(field, below, limit) - field, if limit == 60 then 4 else 10;
      && (more == 0 <==> below < limit)
      && (0 <= more <= most || -255 <= more <= most - 256)
      && (field + Carried(below, limit) < 256 ==> more == Carried(below, limit))
  {
  }

  /** The day that the carries lead to. */
  ghost function RaisedDay(d: Byte, hour: Byte, minute: Byte, second: Byte): Byte {
    Raised(d, Raised(hour, Raised(minute, second, 60), 60), 24)
  }

  /** What kern_mktime returns is off by what the carries move, as long as the year fits. */
  lemma ReturnedMoved(y: Short, m: Byte, d: Byte, hour: Byte, minute: Byte, second: Byte)
    requires m < 12 && DayNumber(y, m, RaisedDay(d, hour, minute, second)) < YearStart(65536)
    ensures Returned(y, m, d, hour, minute, second)
      == Posix(y, DaysBefore(y, m) + d - 1, hour, minute, second) + Moved(d, hour, minute, second)
  {
    PosixIsDays(y, m, d, hour, minute, second);
    hide DaysBefore, Posix, YearStart, Raised;
  }

  /**
   kern_mktime agrees with POSIX exactly when hour, minute and second are not above their ranges and
   the day lies in a year that fits. Where no carry wraps, what it returns is never too small.
   */
  lemma MkTimeIsPosix(y: Short, m: Byte, d: Byte, hour: Byte, minute: Byte, second: Byte)
    requires m < 12
    ensures Returned(y, m, d, hour, minute, second) == Posix(y, DaysBefore(y, m) + d - 1, hour, minute, second) <==>
      InRange(hour, minute, second) && DayNumber(y, m, d) < YearStart(65536)
    ensures CarriesFit(d, hour, minute, second) && DayNumber(y, m, RaisedDay(d, hour, minute, second)) < YearStart(65536) ==>
      Returned(y, m, d, hour, minute, second) >= Posix(y, DaysBefore(y, m) + d - 1, hour, minute, second)
  {
    PosixIsDays(y, m, d, hour, minute, second);
    CarriesMove(d, hour, minute, second);
    var minute' := Raised(minute, second, 60);
    RaisedBy(d, Raised(hour, minute', 60), 24);
    ManyYears();
    hide DaysBefore, Posix, YearStart, Raised;
  }

  lemma ManyYears()
    ensures YearStart(65536) - YearStart(0) > 1000
  {
  }

  /** An hour past 23, as gettimeofday can pass, is counted as a day too many. */
  lemma HourOverflow(y: Short, m: Byte, d: Byte)
    requires m < 12 && d < 255 && DayNumber(y, m, d + 1) < YearStart(65536)
    ensures Returned(y, m, d, 24, 0, 0) == Posix(y, DaysBefore(y, m) + d - 1, 24, 0, 0) + 86400
  {
    hide DaysBefore, Posix, YearStart, Returned, DayNumber, RaisedDay, Moved;
    CarriedHour(d);
    ReturnedMoved(y, m, d, 24, 0, 0);
  }

  /** A carry that wraps loses the field it is added to: 60 seconds after minute 255 is minute 0. */
  lemma MinuteWraps(y: Short, m: Byte, d: Byte, hour: Byte)
    requires m < 12 && hour < 24 && DayNumber(y, m, d) < YearStart(65536)
    ensures Returned(y, m, d, hour, 255, 60) == Posix(y, DaysBefore(y, m) + d - 1, hour, 255, 60) - 255 * 60
  {
    hide DaysBefore, Posix, YearStart, Returned, DayNumber, RaisedDay, Moved;
    CarriedMinute(d, hour);
    ReturnedMoved(y, m, d, hour, 255, 60);
  }

  lemma CarriedHour(d: Byte)
    requires d < 255
    ensures RaisedDay(d, 24, 0, 0) == d + 1 && Moved(d, 24, 0, 0) == 86400
  {
    assert Raised(0, 0, 60) == 0 && Raised(24, 0, 60) == 24;
  }

  lemma CarriedMinute(d: Byte, hour: Byte)
    requires hour < 24
    ensures RaisedDay(d, hour, 255, 60) == d && Moved(d, hour, 255, 60) == -255 * 60
  {
    assert Raised(255, 60, 60) == 0 && Raised(hour, 0, 60) == hour;
  }

  //  The signed 32-bit range

  lemma {:induction false} YearsGrow(a: int, b: int)
    requires a <= b
    ensures YearStart(a) <= YearStart(b)
    decreases b - a
  {
    if a < b {
      YearsGrow(a, b - 1);
      NextYear(b - 1);
    }
  }

  lemma DayOfYear(y: int, m: int, d: int)
    requires 0 <= m < 12 && 1 <= d <= MonthLength(y, m)
    ensures YearStart(y) <= DayNumber(y, m, d) < YearStart(y + 1)
    ensures m == 0 ==> DayNumber(y, m, d) == YearStart(y) + d - 1
    ensures m > 0 ==> DayNumber(y, m, d) >= YearStart(y) + 31
  {
    YearTable(y, m);
    NextYear(y);
  }

  /** Not after 03:14:07 on 19 January 2038. */
  ghost predicate In32Bits(y: int, m: int, d: int, timeOfDay: int) {
    y < 138 || (y == 138 && m == 0 && (d < 19 || (d == 19 && timeOfDay <= 3 * 3600 + 14 * 60 + 7)))
  }

  /** Not before 20:45:52 on 13 December 1901. */
  ghost predicate Since1901(y: int, m: int, d: int, timeOfDay: int) {
    y > 1 || (y == 1 && m == 11 && (d > 13 || (d == 13 && timeOfDay >= 20 * 3600 + 45 * 60 + 52)))
  }

  /** The value fits a signed 32-bit integer exactly from 20:45:52 on 13 December 1901 to 03:14:07 on 19 January 2038. */
  lemma SignedRange(y: int, m: int, d: int, hour: int, minute: int, second: int)
    requires y >= 0 && 0 <= m < 12 && 1 <= d <= MonthLength(y, m)
    requires 0 <= hour <= 23 && 0 <= minute <= 59 && 0 <= second <= 59
    ensures var value, timeOfDay := Posix(y, DaysBefore(y, m) + d - 1, hour, minute, second), 3600 * hour + 60 * minute + second;
      && (-0x8000_0000 <= value <==> Since1901(y, m, d, timeOfDay))
      && (value < 0x8000_0000 <==> In32Bits(y, m, d, timeOfDay))
  {
    PosixIsDays(y, m, d, hour, minute, second);
    LastDay(y, m, d);
    FirstDay(y, m, d);
    hide DayNumber, DaysBefore, Posix, YearStart;
  }

  lemma LastDay(y: int, m: int, d: int)
    requires y >= 0 && 0 <= m < 12 && 1 <= d <= MonthLength(y, m)
    ensures DayNumber(y, m, d) <= 24855 <==> y < 138 || (y == 138 && m == 0 && d <= 19)
    ensures DayNumber(y, m, d) == 24855 <==> y == 138 && m == 0 && d == 19
  {
    DayOfYear(y, m, d);
    assert YearStart(138) == 24837;
    if y < 138 {
      YearsGrow(y + 1, 138);
    } else if y > 138 {
      YearsGrow(139, y);
      NextYear(138);
    }
    hide DayNumber, YearStart;
  }

  lemma FirstDay(y: int, m: int, d: int)
    requires y >= 0 && 0 <= m < 12 && 1 <= d <= MonthLength(y, m)
    ensures DayNumber(y, m, d) >= -24856 <==> y > 1 || (y == 1 && m == 11 && d >= 13)
    ensures DayNumber(y, m, d) == -24856 <==> y == 1 && m == 11 && d == 13
  {
    DayOfYear(y, m, d);
    assert YearStart(1) == -25202 && YearStart(2) == -24837;
    if y > 1 {
      YearsGrow(2, y);
    } else if y == 1 {
      December(m, d);
    }
    hide YearStart, DaysBefore;
  }

  /** In 1901, December starts on day 334, counted from zero. */
  lemma December(m: int, d: int)
    requires 0 <= m < 12 && 1 <= d <= MonthLength(1, m)
    ensures DaysBefore(1, 11) == 334 && (m < 11 ==> DaysBefore(1, m) + d <= 334)
  {
    YearTable(1, 11);
    if m < 11 {
      BeforeGrows(1, m + 1, 11);
    }
  }

  lemma {:induction false} BeforeGrows(y: int, a: int, b: int)
    requires 0 <= a <= b <= 12
    ensures DaysBefore(y, a) <= DaysBefore(y, b)
    decreases b - a
  {
    if a < b {
      BeforeGrows(y, a, b - 1);
    }
  }

  /**
   The 32-bit value that kern_mktime returns is the POSIX value if and only if hour, minute and second
   are not above their ranges and the POSIX value fits, before 1970 too: carries and wrapped sums never
   make up for each other.
   */
  lemma TimeIsPosix(y: Short, m: Byte, d: Byte, hour: Byte, minute: Byte, second: Byte)
    requires m < 12
    ensures var value := Posix(y, DaysBefore(y, m) + d - 1, hour, minute, second);
      TimeT(Returned(y, m, d, hour, minute, second)) == value <==>
        InRange(hour, minute, second) && -0x8000_0000 <= value < 0x8000_0000
  {
    PosixIsDays(y, m, d, hour, minute, second);
    MkTimeIsPosix(y, m, d, hour, minute, second);
    CarriesMove(d, hour, minute, second);
    LateYears();
    var value := Posix(y, DaysBefore(y, m) + d - 1, hour, minute, second);
    if -0x8000_0000 <= value < 0x8000_0000 {
      ReturnedMoved(y, m, d, hour, minute, second);
      TimeTNear(value, Moved(d, hour, minute, second));
    }
    hide DaysBefore, Posix, YearStart, Raised, Returned, TimeT;
    TimeTRange(Returned(y, m, d, hour, minute, second));
  }

  lemma LateYears()
    ensures YearStart(65536) > 1_000_000
  {
  }

  lemma TimeTNear(value: int, moved: int)
    requires -0x8000_0000 <= value < 0x8000_0000 && -24_000_000 < moved < 1_000_000
    ensures TimeT(value + moved) == value <==> moved == 0
  {
  }

  lemma TimeTRange(x: int)
    ensures -0x8000_0000 <= TimeT(x) < 0x8000_0000
  {
  }
}
