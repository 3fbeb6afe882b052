/**
 * Publish timestamps and the proleptic Gregorian calendar.
 *
 * A timestamp is a whole number of seconds from 1970-01-01T00:00:00 UTC; the
 * dashboard converts every publish date to UTC before comparing or formatting
 * it.  A calendar day is numbered the same way (day 0 is 1970-01-01).  Civil
 * dates are computed with the era-based conversion (400-year eras of 146097
 * days, years counted from March so that the leap day comes last).
 */
module Calendar {

  const SecondsPerDay: int := 86400

  /**
   * The range of a pandas timestamp (signed 64-bit nanoseconds), in whole
   * seconds: 1677-09-21 to 2262-04-11.  Publish dates outside it cannot be
   * converted by `pd.to_datetime`.
   */
  const MinSeconds: int := -9223372036
  const MaxSeconds: int := 9223372036

  predicate Representable(t: int)
  {
    MinSeconds <= t <= MaxSeconds
  }

  /** The calendar day a timestamp falls on (floor division). */
  function DayNumber(t: int): (day: int)
  {
    t / SecondsPerDay
  }

  /** `pd.to_datetime(date)`: midnight at the start of a calendar day. */
  function MidnightOf(day: int): (t: int)
  {
    day * SecondsPerDay
  }

  lemma DayNumberBounds(t: int)
    ensures MidnightOf(DayNumber(t)) <= t < MidnightOf(DayNumber(t)) + SecondsPerDay
  {
  }

  datatype Date = Date(year: int, month: int, day: int)

  predicate IsLeap(y: int)
  {
    y % 4 == 0 && (y % 100 != 0 || y % 400 == 0)
  }

  function DaysInMonth(year: int, month: int): (n: int)
    ensures 28 <= n <= 31
  {
    if month == 2 then (if IsLeap(year) then 29 else 28)
    else if month == 4 || month == 6 || month == 9 || month == 11 then 30
    else 31
  }

  predicate ValidDate(date: Date)
  {
    1 <= date.month <= 12 && 1 <= date.day <= DaysInMonth(date.year, date.month)
  }

  /** Year within its 400-year era, from the day within the era. */
  function YearOfEra(doe: int): (yoe: int)
  {
    (doe - doe / 1460 + doe / 36524 - doe / 146096) / 365
  }

  /** First day (within the era) of a year of the era. */
  function StartOfYearOfEra(yoe: int): (doe: int)
  {
    365 * yoe + yoe / 4 - yoe / 100
  }

  /** Month index (March is 0, February 11) of a day of a March-based year. */
  function MonthIndex(doy: int): (mp: int)
  {
    (5 * doy + 2) / 153
  }

  /** First day (within the March-based year) of a month index. */
  function StartOfMonthIndex(mp: int): (doy: int)
  {
    (153 * mp + 2) / 5
  }

  function ShiftedMonth(month: int): (mp: int)
  {
    if month > 2 then month - 3 else month + 9
  }

  /** January and February count with the year before. */
  function ShiftedYear(date: Date): (y: int)
  {
    if date.month <= 2 then date.year - 1 else date.year
  }

  /** Every day of an era lies in one of its 400 years, at most 365 days after that year's start. */
  lemma EraFacts(doe: int)
    requires 0 <= doe < 146097
    ensures 0 <= YearOfEra(doe) <= 399
    ensures 0 <= doe - StartOfYearOfEra(YearOfEra(doe)) <= 365
    ensures doe - StartOfYearOfEra(YearOfEra(doe)) == 365 ==> IsLeap(YearOfEra(doe) + 1)
  {
    var c, q, r, doy;
    if doe == 146096 {
      c, q, r, doy := 3, 24, 3, 365;
    } else {
      c := doe / 36524;
      var rc := doe % 36524;
      q := rc / 1461;
      var rq := rc % 1461;
      r := if rq / 365 <= 3 then rq / 365 else 3;
      doy := rq - 365 * r;
    }
    assert doe == 36524 * c + 1461 * q + 365 * r + doy;
    CycleStart(c, q, r);
    YearOfEraAt(c, q, r, doy);
  }

  lemma MonthFacts(doy: int)
    requires 0 <= doy <= 365
    ensures 0 <= MonthIndex(doy) <= 11
    ensures 0 <= doy - StartOfMonthIndex(MonthIndex(doy)) < StartOfMonthIndex(MonthIndex(doy) + 1) - StartOfMonthIndex(MonthIndex(doy))
  {
  }

  /** Leap years of an era fall on the same years of the era as in era 0. */
  lemma LeapInEra(yoe: int, era: int)
    requires 0 <= yoe < 400
    ensures IsLeap(yoe + era * 400 + 1) <==> IsLeap(yoe + 1)
  {
    LeapModulo(yoe + era * 400);
    Shift400(yoe, era);
  }

  /** The civil date of day doy (0 is 1 March) of the March-based year y. */
  function CivilOfShifted(y: int, doy: int): (date: Date)
    requires 0 <= doy <= 365
    requires doy == 365 ==> IsLeap(y + 1)
    ensures ValidDate(date)
    ensures ShiftedYear(date) == y
    ensures StartOfMonthIndex(ShiftedMonth(date.month)) + date.day - 1 == doy
  {
    MonthFacts(doy);
    var mp := MonthIndex(doy);
    var m := if mp < 10 then mp + 3 else mp - 9;
    Date(y + (if m <= 2 then 1 else 0), m, doy - StartOfMonthIndex(mp) + 1)
  }

  /** The civil date of a day number. */
  function CivilFromDays(days: int): (date: Date)
    ensures ValidDate(date)
  {
    var z := days + 719468;
    var era := z / 146097;
    var doe := z % 146097;
    EraFacts(doe);
    var yoe := YearOfEra(doe);
    LeapInEra(yoe, era);
    CivilOfShifted(yoe + era * 400, doe - StartOfYearOfEra(yoe))
  }

  /** The day number of day doy (0 is 1 March) of the March-based year y. */
  function DayFromShifted(y: int, doy: int): (days: int)
  {
    (y / 400) * 146097 + StartOfYearOfEra(y % 400) + doy - 719468
  }

  /** The day number of a civil date: the inverse of CivilFromDays. */
  function DaysFromCivil(date: Date): (days: int)
  {
    DayFromShifted(ShiftedYear(date), StartOfMonthIndex(ShiftedMonth(date.month)) + date.day - 1)
  }

  /** Year and month of a timestamp, as `dt.strftime("%Y-%m")` reads them. */
  function YearMonthOf(t: int): (ym: (int, int))
    ensures 1 <= ym.1 <= 12
    ensures Representable(t) ==> 1677 <= ym.0 <= 2262
  {
    var date := CivilFromDays(DayNumber(t));
    (date.year, date.month)
  }

  /** CivilFromDays reads a day number as day doy of year yoe of its era. */
  lemma EraPosition(days: int)
    ensures var z := days + 719468;
      var era := z / 146097;
      var yoe := YearOfEra(z % 146097);
      && 0 <= yoe < 400
      && 0 <= z % 146097 - StartOfYearOfEra(yoe) <= 365
      && (z % 146097 - StartOfYearOfEra(yoe) == 365 ==> IsLeap(yoe + era * 400 + 1))
      && CivilFromDays(days) == CivilOfShifted(yoe + era * 400, z % 146097 - StartOfYearOfEra(yoe))
  {
    var z := days + 719468;
    EraFacts(z % 146097);
    LeapInEra(YearOfEra(z % 146097), z / 146097);
  }

  /** DayFromShifted undoes that reading. */
  lemma EraDay(days: int)
    ensures var z := days + 719468;
      var era := z / 146097;
      var yoe := YearOfEra(z % 146097);
      DayFromShifted(yoe + era * 400, z % 146097 - StartOfYearOfEra(yoe)) == days
  {
    var z := days + 719468;
    var era := z / 146097;
    var doe := z % 146097;
    EraFacts(doe);
    var yoe := YearOfEra(doe);
    YearSplit(yoe + era * 400, era, yoe);
    assert era * 146097 + doe == z;
  }

  /** Every day number names a date that names that day number again. */
  lemma DaysRoundTrip(days: int)
    ensures DaysFromCivil(CivilFromDays(days)) == days
  {
    EraPosition(days);
    EraDay(days);
  }

  /** Year r of four-year cycle q of century c starts 36524 c + 1461 q + 365 r days into the era. */
  lemma CycleStart(c: int, q: int, r: int)
    requires 0 <= c <= 3 && 0 <= q <= 24 && 0 <= r <= 3
    ensures StartOfYearOfEra(100 * c + 4 * q + r) == 36524 * c + 1461 * q + 365 * r
  {
    var yoe := 100 * c + 4 * q + r;
    assert yoe / 4 == 25 * c + q;
    assert yoe / 100 == c;
  }

  /** YearOfEra finds year r of cycle q of century c from any of its days (day 365 only in a leap year). */
  lemma YearOfEraAt(c: int, q: int, r: int, doy: int)
    requires 0 <= c <= 3 && 0 <= q <= 24 && 0 <= r <= 3 && 0 <= doy <= 365
    requires doy == 365 ==> r == 3 && (q < 24 || c == 3)
    ensures YearOfEra(36524 * c + 1461 * q + 365 * r + doy) == 100 * c + 4 * q + r
  {
    var doe := 36524 * c + 1461 * q + 365 * r + doy;
    var s := 24 * c + q + 365 * r + doy;
    assert doe == 1460 * (25 * c + q) + s;
    if c == 3 && q == 24 && r == 3 && doy == 365 {
      assert doe == 146096;
    } else {
      assert doe == 36524 * c + (1461 * q + 365 * r + doy);
      assert 1461 * q + 365 * r + doy < 36524;
      assert doe / 36524 == c;
      assert doe < 146096;
      if s < 1460 {
        assert doe / 1460 == 25 * c + q;
        assert doy <= 364;
        assert doe - doe / 1460 + doe / 36524 - doe / 146096 == 365 * (100 * c + 4 * q + r) + doy;
      } else {
        assert doe / 1460 == 25 * c + q + 1;
        assert 1 <= doy;
        assert doe - doe / 1460 + doe / 36524 - doe / 146096 == 365 * (100 * c + 4 * q + r) + doy - 1;
      }
    }
  }

  lemma YearOfEraInverse(yoe: int, doy: int)
    requires 0 <= yoe <= 399 && 0 <= doy <= 365
    requires doy == 365 ==> IsLeap(yoe + 1)
    ensures YearOfEra(StartOfYearOfEra(yoe) + doy) == yoe
  {
    var c, q, r := yoe / 100, yoe % 100 / 4, yoe % 4;
    assert yoe == 100 * c + 4 * q + r;
    CycleStart(c, q, r);
    YearOfEraAt(c, q, r, doy);
  }

  lemma MonthIndexInverse(mp: int, k: int)
    requires 0 <= mp <= 11 && 0 <= k
    requires k < StartOfMonthIndex(mp + 1) - StartOfMonthIndex(mp)
    ensures MonthIndex(StartOfMonthIndex(mp) + k) == mp
  {
  }

  lemma DayOfShiftedYear(date: Date)
    requires ValidDate(date)
    ensures var doy := StartOfMonthIndex(ShiftedMonth(date.month)) + date.day - 1;
      && 0 <= doy <= 365
      && (doy == 365 ==> IsLeap(ShiftedYear(date) % 400 + 1))
      && MonthIndex(doy) == ShiftedMonth(date.month)
  {
    var mp := ShiftedMonth(date.month);
    var doy := StartOfMonthIndex(mp) + date.day - 1;
    assert date.day <= StartOfMonthIndex(mp + 1) - StartOfMonthIndex(mp);
    MonthIndexInverse(mp, date.day - 1);
    if doy == 365 {
      assert mp == 11 && date.day == 29 && date.month == 2;
      assert IsLeap(date.year) && date.year == ShiftedYear(date) + 1;
      LeapModulo(ShiftedYear(date));
    }
  }

  lemma EraSplit(z: int, era: int, doe: int)
    requires z == era * 146097 + doe && 0 <= doe < 146097
    ensures z / 146097 == era && z % 146097 == doe
  {
  }

  lemma YearSplit(y: int, era: int, yoe: int)
    requires y == era * 400 + yoe && 0 <= yoe < 400
    ensures y / 400 == era && y % 400 == yoe
  {
  }

  lemma Shift4(x: int, k: int)
    ensures (x + 400 * k) % 4 == x % 4
  {
    assert x + 400 * k == 4 * (100 * k + x / 4) + x % 4;
  }

  lemma Shift100(x: int, k: int)
    ensures (x + 400 * k) % 100 == x % 100
  {
    assert x + 400 * k == 100 * (4 * k + x / 100) + x % 100;
  }

  lemma Shift400(x: int, k: int)
    ensures (x + 400 * k) % 400 == x % 400
  {
    assert x + 400 * k == 400 * (k + x / 400) + x % 400;
  }

  /** Leap years repeat every 400 years. */
  lemma LeapModulo(y: int)
    ensures IsLeap(y + 1) <==> IsLeap(y % 400 + 1)
  {
    var k := y / 400;
    assert y + 1 == (y % 400 + 1) + 400 * k;
    Shift4(y % 400 + 1, k);
    Shift100(y % 400 + 1, k);
    Shift400(y % 400 + 1, k);
  }

  /** The March-based position of a valid date gives that date back. */
  lemma ShiftedRoundTrip(date: Date)
    requires ValidDate(date)
    ensures var doy := StartOfMonthIndex(ShiftedMonth(date.month)) + date.day - 1;
      && 0 <= doy <= 365
      && (doy == 365 ==> IsLeap(ShiftedYear(date) + 1))
      && CivilOfShifted(ShiftedYear(date), doy) == date
  {
    DayOfShiftedYear(date);
    LeapModulo(ShiftedYear(date));
  }

  /** The era and the year of the era that CivilFromDays finds for DayFromShifted(y, doy). */
  lemma ShiftedDayPosition(y: int, doy: int)
    requires 0 <= doy <= 365
    requires doy == 365 ==> IsLeap(y + 1)
    ensures var z := DayFromShifted(y, doy) + 719468;
      && YearOfEra(z % 146097) + (z / 146097) * 400 == y
      && z % 146097 - StartOfYearOfEra(YearOfEra(z % 146097)) == doy
  {
    var era, yoe := y / 400, y % 400;
    LeapModulo(y);
    YearOfEraInverse(yoe, doy);
    var doe := StartOfYearOfEra(yoe) + doy;
    var z := DayFromShifted(y, doy) + 719468;
    assert z == era * 146097 + doe;
    EraSplit(z, era, doe);
  }

  /** CivilFromDays undoes DayFromShifted. */
  lemma ShiftedDayRoundTrip(y: int, doy: int)
    requires 0 <= doy <= 365
    requires doy == 365 ==> IsLeap(y + 1)
    ensures CivilFromDays(DayFromShifted(y, doy)) == CivilOfShifted(y, doy)
  {
    ShiftedDayPosition(y, doy);
    EraPosition(DayFromShifted(y, doy));
  }

  /** Every valid civil date names a day number that names that date again. */
  lemma DateRoundTrip(date: Date)
    requires ValidDate(date)
    ensures CivilFromDays(DaysFromCivil(date)) == date
  {
    ShiftedRoundTrip(date);
    ShiftedDayRoundTrip(ShiftedYear(date), StartOfMonthIndex(ShiftedMonth(date.month)) + date.day - 1);
  }

  /** Day number 0 is 1970-01-01, the first day of Unix time. */
  lemma UnixEpoch()
    ensures DaysFromCivil(Date(1970, 1, 1)) == 0
    ensures CivilFromDays(0) == Date(1970, 1, 1)
  {
    assert DaysFromCivil(Date(1970, 1, 1)) == 0 by {
      assert StartOfMonthIndex(ShiftedMonth(1)) == 306;
      assert StartOfYearOfEra(369) == 134774;
      YearSplit(1969, 4, 369);
    }
    CivilAt(0, Date(1970, 1, 1));
  }

  /** The calendar day after a valid date. */
  function NextDate(date: Date): (next: Date)
    requires ValidDate(date)
    ensures ValidDate(next)
    ensures next.year == date.year || next.year == date.year + 1
  {
    if date.day < DaysInMonth(date.year, date.month) then Date(date.year, date.month, date.day + 1)
    else if date.month < 12 then Date(date.year, date.month + 1, 1)
    else Date(date.year + 1, 1, 1)
  }

  /** A March-based year is 366 days long when the February it ends with has a leap day, else 365. */
  lemma YearLength(y: int)
    ensures DayFromShifted(y + 1, 0) == DayFromShifted(y, 0) + 365 + (if IsLeap(y + 1) then 1 else 0)
  {
    var era, yoe := y / 400, y % 400;
    YearSplit(y, era, yoe);
    LeapInEra(yoe, era);
    if yoe < 399 {
      YearSplit(y + 1, era, yoe + 1);
      StartOfNextYearOfEra(yoe);
    } else {
      YearSplit(y + 1, era + 1, 0);
      assert StartOfYearOfEra(399) == 146097 - 366;
    }
  }

  lemma StartOfNextYearOfEra(yoe: int)
    requires 0 <= yoe < 399
    ensures StartOfYearOfEra(yoe + 1) == StartOfYearOfEra(yoe) + 365 + (if IsLeap(yoe + 1) then 1 else 0)
  {
    var c, q, r := yoe / 100, yoe % 100 / 4, yoe % 4;
    assert yoe == 100 * c + 4 * q + r;
    CycleStart(c, q, r);
    if r < 3 {
      CycleStart(c, q, r + 1);
    } else if q < 24 {
      CycleStart(c, q + 1, 0);
    } else {
      CycleStart(c + 1, 0, 0);
    }
  }

  /** Consecutive calendar days have consecutive day numbers. */
  lemma DaysFromCivilNext(date: Date)
    requires ValidDate(date)
    ensures DaysFromCivil(NextDate(date)) == DaysFromCivil(date) + 1
  {
    var next := NextDate(date);
    if date.day < DaysInMonth(date.year, date.month) {
      assert ShiftedYear(next) == ShiftedYear(date) && next.month == date.month;
    } else if date.month == 2 {
      assert next == Date(date.year, 3, 1);
      YearLength(date.year - 1);
    } else {
      MonthLength(date.month);
      assert ShiftedYear(next) == ShiftedYear(date);
      assert ShiftedMonth(next.month) == ShiftedMonth(date.month) + 1;
    }
  }

  /** Outside February, a month's length is the gap to the next month's start. */
  lemma MonthLength(month: int)
    requires 1 <= month <= 12 && month != 2
    ensures StartOfMonthIndex(ShiftedMonth(month) + 1) == StartOfMonthIndex(ShiftedMonth(month)) + DaysInMonth(0, month)
  {
  }

  /** CivilFromDays walks the calendar one day at a time. */
  lemma CivilFromDaysNext(days: int)
    ensures CivilFromDays(days + 1) == NextDate(CivilFromDays(days))
  {
    var date := CivilFromDays(days);
    var next := NextDate(date);
    assert DaysFromCivil(next) == days + 1 by {
      DaysRoundTrip(days);
      DaysFromCivilNext(date);
    }
    CivilAt(days + 1, next);
  }

  /** The only valid date with day number n is CivilFromDays(n). */
  lemma CivilAt(n: int, date: Date)
    requires ValidDate(date) && DaysFromCivil(date) == n
    ensures CivilFromDays(n) == date
  {
    DateRoundTrip(date);
  }

  /** (year, month) pairs in chronological order. */
  predicate MonthNotAfter(a: (int, int), b: (int, int))
  {
    a.0 < b.0 || (a.0 == b.0 && a.1 <= b.1)
  }

  /** The next day is in the same month or in a later one. */
  lemma NextDateMonth(date: Date)
    requires ValidDate(date)
    ensures MonthNotAfter((date.year, date.month), (NextDate(date).year, NextDate(date).month))
  {
  }

  /** The month of day d, as CivilFromDays names it. */
  function MonthOfDay(d: int): (ym: (int, int))
    ensures 1 <= ym.1 <= 12
  {
    (CivilFromDays(d).year, CivilFromDays(d).month)
  }

  lemma MonthOfNextDay(d: int)
    ensures MonthNotAfter(MonthOfDay(d), MonthOfDay(d + 1))
  {
    var date := CivilFromDays(d);
    assert CivilFromDays(d + 1) == NextDate(date) by {
      CivilFromDaysNext(d);
    }
    NextDateMonth(date);
  }

  lemma {:induction false} CivilMonthMonotone(d1: int, d2: int)
    requires d1 <= d2
    ensures MonthNotAfter(MonthOfDay(d1), MonthOfDay(d2))
    decreases d2 - d1
  {
    if d1 < d2 {
      CivilMonthMonotone(d1, d2 - 1);
      MonthOfNextDay(d2 - 1);
    }
  }

  /** A later timestamp never falls in an earlier month. */
  lemma YearMonthMonotone(t1: int, t2: int)
    requires t1 <= t2
    ensures MonthNotAfter(YearMonthOf(t1), YearMonthOf(t2))
  {
    assert DayNumber(t1) <= DayNumber(t2);
    CivilMonthMonotone(DayNumber(t1), DayNumber(t2));
  }

  /** YearMonthOf(t) is the year and month of the calendar date whose day number is t's day. */
  lemma YearMonthIsCalendarMonth(t: int, date: Date)
    requires ValidDate(date) && DaysFromCivil(date) == DayNumber(t)
    ensures YearMonthOf(t) == (date.year, date.month)
  {
    CivilAt(DayNumber(t), date);
  }
}
