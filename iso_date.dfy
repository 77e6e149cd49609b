/**
 * The part of JavaScript's `Date` that the scraper relies on:
 * `new Date(ms).toISOString()`. Time values, the proleptic Gregorian
 * calendar and the "YYYY-MM-DDTHH:mm:ss.sssZ" format follow the Date
 * algorithms of ECMA-262 (section 21.4, "Date Objects"): DayFromYear,
 * YearFromTime, MonthFromTime, DateFromTime, TimeClip and the Date Time
 * String Format with its expanded six-digit years.
 */
module IsoDate {
  import opened Wrappers
  import JsNumber

  const MsPerSecond: int := 1000
  const MsPerMinute: int := 60_000
  const MsPerHour: int := 3_600_000
  const MsPerDay: int := 86_400_000

  /** A time value is valid when its magnitude is at most 8.64e15 ms (TimeClip). */
  const MaxTimeValue: int := 8_640_000_000_000_000

  predicate IsLeapYear(y: int) {
    y % 4 == 0 && (y % 100 != 0 || y % 400 == 0)
  }

  function DaysInYear(y: int): int {
    if IsLeapYear(y) then 366 else 365
  }

  /** Day number (days since 1970-01-01) of the first day of year `y`. */
  function DayFromYear(y: int): int {
    365 * (y - 1970) + (y - 1969) / 4 - (y - 1901) / 100 + (y - 1601) / 400
  }

  /** Consecutive years are exactly one year's length apart. */
  lemma DayFromYearStep(y: int)
    ensures DayFromYear(y + 1) == DayFromYear(y) + DaysInYear(y)
  {
    FloorStep4(y);
    FloorStep100(y);
    FloorStep400(y);
    LeapDivisors(y);
  }

  /** A multiple of 400 is a multiple of 100, and a multiple of 100 is a multiple of 4. */
  lemma LeapDivisors(y: int)
    ensures y % 400 == 0 ==> y % 100 == 0
    ensures y % 100 == 0 ==> y % 4 == 0
  {
    if y % 400 == 0 {
      var k, q, r := y / 400, y / 100, y % 100;
      assert y == 400 * k && y == 100 * q + r;
      assert r == 100 * (4 * k - q);
    }
    if y % 100 == 0 {
      var k, q, r := y / 100, y / 4, y % 4;
      assert y == 100 * k && y == 4 * q + r;
      assert r == 4 * (25 * k - q);
    }
  }

  lemma FloorStep4(y: int)
    ensures (y - 1968) / 4 == (y - 1969) / 4 + (if y % 4 == 0 then 1 else 0)
  {
    var q, r := (y - 1969) / 4, (y - 1969) % 4;
    assert y - 1969 == 4 * q + r;
    assert y % 4 == 0 <==> r == 3;
  }

  lemma FloorStep100(y: int)
    ensures (y - 1900) / 100 == (y - 1901) / 100 + (if y % 100 == 0 then 1 else 0)
  {
    var q, r := (y - 1901) / 100, (y - 1901) % 100;
    assert y - 1901 == 100 * q + r;
    assert y % 100 == 0 <==> r == 99;
  }

  lemma FloorStep400(y: int)
    ensures (y - 1600) / 400 == (y - 1601) / 400 + (if y % 400 == 0 then 1 else 0)
  {
    var q, r := (y - 1601) / 400, (y - 1601) % 400;
    assert y - 1601 == 400 * q + r;
    assert y % 400 == 0 <==> r == 399;
  }

  /** One year is 365.2425 days on average, so DayFromYear stays within two days of that line. */
  lemma DayFromYearNear(x: int)
    ensures 146097 * x - 700 <= 400 * DayFromYear(1970 + x) <= 146097 * x + 700
  {
    var a, b, c := (x + 1) / 4, (x + 69) / 100, (x + 369) / 400;
    assert 4 * a <= x + 1 < 4 * a + 4;
    assert 100 * b <= x + 69 < 100 * b + 100;
    assert 400 * c <= x + 369 < 400 * c + 400;
    assert DayFromYear(1970 + x) == 365 * x + a - b + c;
  }

  /** DayFromYear is strictly increasing, by at least a year per year. */
  lemma DayFromYearMonotone(y1: int, y2: int)
    requires y1 < y2
    ensures DayFromYear(y1 + 1) <= DayFromYear(y2)
  {
    if y2 == y1 + 1 {
    } else {
      DayFromYearNear(y1 + 1 - 1970);
      DayFromYearNear(y2 - 1970);
    }
  }

  /** YearFromTime: the year whose days contain day number `d`. */
  function YearFromDay(d: int): (y: int)
    ensures DayFromYear(y) <= d < DayFromYear(y + 1)
  {
    var y0 := 1970 + (400 * d) / 146097;
    YearEstimate(d);
    DayFromYearStep(y0);
    if DayFromYear(y0 + 1) <= d then y0 + 1
    else if DayFromYear(y0) <= d then y0
    else y0 - 1
  }

  /** The estimate 1970 + 400d/146097 is at most one year away from the year of day `d`. */
  lemma YearEstimate(d: int)
    ensures var y0 := 1970 + (400 * d) / 146097;
      DayFromYear(y0 - 1) <= d < DayFromYear(y0 + 2)
  {
    var q := (400 * d) / 146097;
    assert 146097 * q <= 400 * d < 146097 * q + 146097;
    DayFromYearNear(q - 1);
    DayFromYearNear(q + 2);
  }

  /** The year of a day is unique: YearFromDay finds exactly the year containing `d`. */
  lemma YearFromDayUnique(d: int, y: int)
    requires DayFromYear(y) <= d < DayFromYear(y + 1)
    ensures YearFromDay(d) == y
  {
    var r := YearFromDay(d);
    if r < y {
      DayFromYearMonotone(r, y);
    } else if y < r {
      DayFromYearMonotone(y, r);
    }
  }

  /** First day-in-year of month `m` (0-based; m == 12 is the year's length). */
  function MonthStart(m: int, leap: bool): int
    requires 0 <= m <= 12
  {
    var common :=
      if m < 6 then
        if m < 3 then (if m == 0 then 0 else if m == 1 then 31 else 59)
        else (if m == 3 then 90 else if m == 4 then 120 else 151)
      else if m < 9 then (if m == 6 then 181 else if m == 7 then 212 else 243)
      else (if m == 9 then 273 else if m == 10 then 304 else if m == 11 then 334 else 365);
    common + (if leap && m >= 2 then 1 else 0)
  }

  function DaysInMonth(y: int, month: int): int
    requires 1 <= month <= 12
  {
    MonthStart(month, IsLeapYear(y)) - MonthStart(month - 1, IsLeapYear(y))
  }

  /** MonthFromTime: the 0-based month, at or after `m`, whose days contain day-in-year `dy`. */
  function MonthSearch(dy: int, leap: bool, m: int): (r: int)
    requires 0 <= m < 12
    requires MonthStart(m, leap) <= dy < MonthStart(12, leap)
    ensures m <= r < 12
    ensures MonthStart(r, leap) <= dy < MonthStart(r + 1, leap)
    decreases 12 - m
  {
    if dy < MonthStart(m + 1, leap) then m else MonthSearch(dy, leap, m + 1)
  }

  /** A broken-down UTC date and time; `month` runs from 1 to 12 as it is printed. */
  datatype DateTime = DateTime(year: int, month: int, day: int,
                               hour: int, minute: int, second: int, millisecond: int)

  predicate ValidDateTime(dt: DateTime) {
    && 1 <= dt.month <= 12
    && 1 <= dt.day <= DaysInMonth(dt.year, dt.month)
    && 0 <= dt.hour < 24
    && 0 <= dt.minute < 60
    && 0 <= dt.second < 60
    && 0 <= dt.millisecond < 1000
  }

  /** MakeDate(MakeDay(...), MakeTime(...)): the time value of a broken-down date. */
  function ToTimeValue(dt: DateTime): int
    requires 1 <= dt.month <= 12
  {
    DayNumber(dt.year, dt.month, dt.day) * MsPerDay + dt.hour * MsPerHour + dt.minute * MsPerMinute
      + dt.second * MsPerSecond + dt.millisecond
  }

  /** Year, 1-based month and day of month of day number `d` (YearFromTime, MonthFromTime, DateFromTime). */
  function CalendarDate(d: int): (ymd: (int, int, int))
    ensures 1 <= ymd.1 <= 12 && 1 <= ymd.2 <= DaysInMonth(ymd.0, ymd.1)
    ensures DayNumber(ymd.0, ymd.1, ymd.2) == d
  {
    var y := YearFromDay(d);
    DayOfYearBound(d, y);
    var md := MonthAndDay(d - DayFromYear(y), IsLeapYear(y));
    (y, md.0, md.1)
  }

  /** A day of year `y` lies within that year's months. */
  lemma DayOfYearBound(d: int, y: int)
    requires DayFromYear(y) <= d < DayFromYear(y + 1)
    ensures 0 <= d - DayFromYear(y) < MonthStart(12, IsLeapYear(y))
  {
    DayFromYearStep(y);
  }

  /** The 1-based month and day of month of day-in-year `dy`. */
  function MonthAndDay(dy: int, leap: bool): (md: (int, int))
    requires 0 <= dy < MonthStart(12, leap)
    ensures 1 <= md.0 <= 12 && 1 <= md.1 <= MonthStart(md.0, leap) - MonthStart(md.0 - 1, leap)
    ensures MonthStart(md.0 - 1, leap) + md.1 - 1 == dy
  {
    var m := MonthSearch(dy, leap, 0);
    (m + 1, dy - MonthStart(m, leap) + 1)
  }

  /** The day number of a calendar date (MakeDay). */
  function DayNumber(year: int, month: int, day: int): int
    requires 1 <= month <= 12
  {
    DayFromYear(year) + MonthStart(month - 1, IsLeapYear(year)) + day - 1
  }

  /** The calendar fields of a time value. */
  function FromTimeValue(t: int): (dt: DateTime)
    ensures ValidDateTime(dt)
  {
    var ymd := CalendarDate(t / MsPerDay);
    var tod := t % MsPerDay;
    DateTime(ymd.0, ymd.1, ymd.2,
             tod / MsPerHour, tod / MsPerMinute % 60, tod / MsPerSecond % 60, tod % MsPerSecond)
  }

  /** Splitting a time of day into hours, minutes, seconds and milliseconds loses nothing. */
  lemma TimeOfDaySplit(tod: int)
    requires 0 <= tod < MsPerDay
    ensures tod == (tod / MsPerHour) * MsPerHour + (tod / MsPerMinute % 60) * MsPerMinute
                   + (tod / MsPerSecond % 60) * MsPerSecond + tod % MsPerSecond
  {
    var h, r1 := tod / MsPerHour, tod % MsPerHour;
    var mi, r2 := r1 / MsPerMinute, r1 % MsPerMinute;
    var s, ms := r2 / MsPerSecond, r2 % MsPerSecond;
    assert h < 24 && mi < 60 && s < 60;
    assert tod == h * MsPerHour + mi * MsPerMinute + s * MsPerSecond + ms;
    TimeOfDayParts(h, mi, s, ms);
  }

  /** Every valid calendar date is the reading of its own day number. */
  lemma CalendarDateRoundTrip(year: int, month: int, day: int)
    requires 1 <= month <= 12 && 1 <= day <= DaysInMonth(year, month)
    ensures CalendarDate(DayNumber(year, month, day)) == (year, month, day)
  {
    var ymd := CalendarDate(DayNumber(year, month, day));
    DayNumberInjective(ymd.0, ymd.1, ymd.2, year, month, day);
  }

  /** Distinct valid calendar dates have distinct day numbers. */
  lemma DayNumberInjective(y1: int, m1: int, d1: int, y2: int, m2: int, d2: int)
    requires 1 <= m1 <= 12 && 1 <= d1 <= DaysInMonth(y1, m1)
    requires 1 <= m2 <= 12 && 1 <= d2 <= DaysInMonth(y2, m2)
    requires DayNumber(y1, m1, d1) == DayNumber(y2, m2, d2)
    ensures y1 == y2 && m1 == m2 && d1 == d2
  {
    var n := DayNumber(y1, m1, d1);
    assert y1 == y2 by {
      DayInYearBound(m1, d1, IsLeapYear(y1));
      DayFromYearStep(y1);
      YearFromDayUnique(n, y1);
      DayInYearBound(m2, d2, IsLeapYear(y2));
      DayFromYearStep(y2);
      YearFromDayUnique(n, y2);
    }
    var leap := IsLeapYear(y1);
    MonthStartMonotone(m1 - 1, m2 - 1, leap);
    MonthStartMonotone(m2 - 1, m1 - 1, leap);
  }

  /** A valid month and day fall inside the year. */
  lemma DayInYearBound(month: int, day: int, leap: bool)
    requires 1 <= month <= 12
    requires 1 <= day <= MonthStart(month, leap) - MonthStart(month - 1, leap)
    ensures 0 <= MonthStart(month - 1, leap) + day - 1 < MonthStart(12, leap)
    ensures MonthStart(12, leap) == if leap then 366 else 365
  {
    if month < 12 {
      MonthStartMonotone(month, 11, leap);
    }
  }

  /** Every time value is recovered from its calendar fields. */
  lemma {:induction false} TimeValueRoundTrip(t: int)
    ensures ToTimeValue(FromTimeValue(t)) == t
  {
    var d, tod := t / MsPerDay, t % MsPerDay;
    TimeOfDaySplit(tod);
    assert t == d * MsPerDay + tod;
  }

  /** Every valid broken-down date is the calendar reading of its own time value. */
  lemma {:induction false} DateTimeRoundTrip(dt: DateTime)
    requires ValidDateTime(dt)
    ensures FromTimeValue(ToTimeValue(dt)) == dt
  {
    var d := DayNumber(dt.year, dt.month, dt.day);
    var tod := dt.hour * MsPerHour + dt.minute * MsPerMinute + dt.second * MsPerSecond + dt.millisecond;
    var t := ToTimeValue(dt);
    assert t / MsPerDay == d && t % MsPerDay == tod by {
      TimeOfDayParts(dt.hour, dt.minute, dt.second, dt.millisecond);
      DayFromParts(d, tod);
    }
    assert CalendarDate(d) == (dt.year, dt.month, dt.day) by {
      CalendarDateRoundTrip(dt.year, dt.month, dt.day);
    }
    TimeOfDayParts(dt.hour, dt.minute, dt.second, dt.millisecond);
  }

  lemma DayFromParts(d: int, tod: int)
    requires 0 <= tod < MsPerDay
    ensures (d * MsPerDay + tod) / MsPerDay == d
    ensures (d * MsPerDay + tod) % MsPerDay == tod
  {
  }

  lemma TimeOfDayParts(h: int, mi: int, s: int, ms: int)
    requires 0 <= h < 24 && 0 <= mi < 60 && 0 <= s < 60 && 0 <= ms < 1000
    ensures var tod := h * MsPerHour + mi * MsPerMinute + s * MsPerSecond + ms;
      && 0 <= tod < MsPerDay
      && tod / MsPerHour == h
      && tod / MsPerMinute % 60 == mi
      && tod / MsPerSecond % 60 == s
      && tod % MsPerSecond == ms
  {
    var tod := h * MsPerHour + mi * MsPerMinute + s * MsPerSecond + ms;
    assert tod / MsPerSecond == 3600 * h + 60 * mi + s;
    assert tod / MsPerMinute == 60 * h + mi;
  }

  /** Month starts increase: if month a starts no later than month b ends, a <= b. */
  lemma MonthStartMonotone(a: int, b: int, leap: bool)
    requires 0 <= a < 12 && 0 <= b < 12
    requires MonthStart(a, leap) < MonthStart(b + 1, leap)
    ensures a <= b
  {
  }


  // ---------------------------------------------------------------------
  // Decimal fields

  function Pow10(w: nat): (p: nat)
    ensures p >= 1
  {
    if w == 0 then 1 else 10 * Pow10(w - 1)
  }

  function DigitChar(k: int): char
    requires 0 <= k < 10
  {
    ('0' as int + k) as char
  }

  /** The last `w` decimal digits of `n`, zero-padded on the left. */
  function Digits(n: nat, w: nat): (s: string)
    ensures |s| == w
    ensures forall i :: 0 <= i < w ==> '0' <= s[i] <= '9'
  {
    if w == 0 then [] else Digits(n / 10, w - 1) + [DigitChar(n % 10)]
  }

  /** The value of a string of decimal digits, or None if it holds anything else. */
  function ParseDigits(s: string): Option<nat> {
    if s == [] then Some(0)
    else if '0' <= s[|s| - 1] <= '9' then
      match ParseDigits(s[..|s| - 1])
      case None => None
      case Some(v) => Some(10 * v + (s[|s| - 1] as int - '0' as int))
    else None
  }

  /** Padding and reading back a number that fits in `w` digits gives that number. */
  lemma {:induction false} DigitsRoundTrip(n: nat, w: nat)
    requires n < Pow10(w)
    ensures ParseDigits(Digits(n, w)) == Some(n)
  {
    if w > 0 {
      var s := Digits(n, w);
      assert s[..w - 1] == Digits(n / 10, w - 1);
      DigitsRoundTrip(n / 10, w - 1);
      assert s[w - 1] == DigitChar(n % 10);
      assert DigitChar(n % 10) as int - '0' as int == n % 10;
    }
  }

  /** A string that reads as digits is the zero-padded rendering of its value, which fits in its width. */
  lemma {:induction false} ParseDigitsCanonical(s: string)
    requires ParseDigits(s).Some?
    ensures ParseDigits(s).value < Pow10(|s|)
    ensures s == Digits(ParseDigits(s).value, |s|)
  {
    if s != [] {
      var init, c := s[..|s| - 1], s[|s| - 1];
      ParseDigitsCanonical(init);
      var v, k := ParseDigits(init).value, c as int - '0' as int;
      assert (10 * v + k) / 10 == v && (10 * v + k) % 10 == k;
      assert DigitChar(k) == c;
      assert s == init + [c];
    }
  }

  // ---------------------------------------------------------------------
  // The Date Time String Format

  /** The year in four digits when it is 0..9999, else a sign and six digits. */
  function YearField(y: int): (s: string)
    requires -999_999 <= y <= 999_999
    ensures |s| == if 0 <= y <= 9999 then 4 else 7
  {
    if 0 <= y <= 9999 then Digits(y, 4)
    else if y < 0 then "-" + Digits(-y, 6)
    else "+" + Digits(y, 6)
  }

  /**
   * Reads a year field back. Only the forms YearField writes are accepted:
   * four digits, '+' and six digits for a year above 9999, '-' and six
   * digits for a year below 0.
   */
  function ParseYearField(s: string): Option<int> {
    if |s| == 4 then
      match ParseDigits(s)
      case None => None
      case Some(v) => Some(v as int)
    else if |s| == 7 && s[0] == '+' then
      match ParseDigits(s[1..])
      case None => None
      case Some(v) => if v > 9999 then Some(v as int) else None
    else if |s| == 7 && s[0] == '-' then
      match ParseDigits(s[1..])
      case None => None
      case Some(v) => if v > 0 then Some(-(v as int)) else None
    else None
  }

  lemma YearFieldRoundTrip(y: int)
    requires -999_999 <= y <= 999_999
    ensures ParseYearField(YearField(y)) == Some(y)
  {
    if 0 <= y <= 9999 {
      DigitsRoundTrip(y, 4);
    } else if y < 0 {
      DigitsRoundTrip(-y, 6);
      assert YearField(y)[1..] == Digits(-y, 6);
    } else {
      DigitsRoundTrip(y, 6);
      assert YearField(y)[1..] == Digits(y, 6);
    }
  }

  /** A year field that reads back is the field YearField writes for that year. */
  lemma YearFieldCanonical(s: string)
    requires ParseYearField(s).Some?
    ensures -999_999 <= ParseYearField(s).value <= 999_999
    ensures s == YearField(ParseYearField(s).value)
  {
    assert Pow10(4) == 10_000 && Pow10(6) == 1_000_000;
    if |s| == 4 {
      ParseDigitsCanonical(s);
    } else {
      ParseDigitsCanonical(s[1..]);
      assert s == [s[0]] + s[1..];
    }
  }

  /** "-MM-DDTHH:mm:ss.sssZ": the twenty characters that follow the year. */
  function DateTimeTail(dt: DateTime): (s: string)
    requires ValidDateTime(dt)
    ensures |s| == 20
  {
    var mo, d, h := Digits(dt.month, 2), Digits(dt.day, 2), Digits(dt.hour, 2);
    var mi, se, ms := Digits(dt.minute, 2), Digits(dt.second, 2), Digits(dt.millisecond, 3);
    ['-', mo[0], mo[1], '-', d[0], d[1], 'T', h[0], h[1], ':', mi[0], mi[1], ':', se[0], se[1],
     '.', ms[0], ms[1], ms[2], 'Z']
  }

  function ParseDateTimeTail(year: int, s: string): Option<DateTime>
    requires |s| == 20
  {
    if s[0] != '-' || s[3] != '-' || s[6] != 'T' || s[9] != ':' || s[12] != ':'
       || s[15] != '.' || s[19] != 'Z'
    then None
    else
      var mo, d, h := ParseDigits(s[1..3]), ParseDigits(s[4..6]), ParseDigits(s[7..9]);
      var mi, se, ms := ParseDigits(s[10..12]), ParseDigits(s[13..15]), ParseDigits(s[16..19]);
      if mo.Some? && d.Some? && h.Some? && mi.Some? && se.Some? && ms.Some? then
        Some(DateTime(year, mo.value, d.value, h.value, mi.value, se.value, ms.value))
      else None
  }

  lemma DateTimeTailRoundTrip(dt: DateTime)
    requires ValidDateTime(dt)
    ensures ParseDateTimeTail(dt.year, DateTimeTail(dt)) == Some(dt)
  {
    var s := DateTimeTail(dt);
    assert s[0] == '-' && s[3] == '-' && s[6] == 'T' && s[9] == ':' && s[12] == ':'
      && s[15] == '.' && s[19] == 'Z';
    TailDateFields(dt);
    TailTimeFields(dt);
  }

  /** A tail that reads back to a valid date and time is the tail DateTimeTail writes for it. */
  lemma TailCanonical(year: int, s: string)
    requires |s| == 20
    requires ParseDateTimeTail(year, s).Some? && ValidDateTime(ParseDateTimeTail(year, s).value)
    ensures ParseDateTimeTail(year, s).value.year == year
    ensures s == DateTimeTail(ParseDateTimeTail(year, s).value)
  {
    var dt := ParseDateTimeTail(year, s).value;
    var t := DateTimeTail(dt);
    TailFieldsCanonical(s);
    assert s[1] == s[1..3][0] && s[2] == s[1..3][1] && s[4] == s[4..6][0] && s[5] == s[4..6][1];
    assert s[7] == s[7..9][0] && s[8] == s[7..9][1] && s[10] == s[10..12][0] && s[11] == s[10..12][1];
    assert s[13] == s[13..15][0] && s[14] == s[13..15][1];
    assert s[16] == s[16..19][0] && s[17] == s[16..19][1] && s[18] == s[16..19][2];
    assert forall i :: 0 <= i < 20 ==> s[i] == t[i];
  }

  /** Each field of a tail that reads back is the zero-padded rendering of its value. */
  lemma TailFieldsCanonical(s: string)
    requires |s| == 20
    requires && ParseDigits(s[1..3]).Some? && ParseDigits(s[4..6]).Some? && ParseDigits(s[7..9]).Some?
             && ParseDigits(s[10..12]).Some? && ParseDigits(s[13..15]).Some? && ParseDigits(s[16..19]).Some?
    ensures && s[1..3] == Digits(ParseDigits(s[1..3]).value, 2)
            && s[4..6] == Digits(ParseDigits(s[4..6]).value, 2)
            && s[7..9] == Digits(ParseDigits(s[7..9]).value, 2)
            && s[10..12] == Digits(ParseDigits(s[10..12]).value, 2)
            && s[13..15] == Digits(ParseDigits(s[13..15]).value, 2)
            && s[16..19] == Digits(ParseDigits(s[16..19]).value, 3)
  {
    ParseDigitsCanonical(s[1..3]);
    ParseDigitsCanonical(s[4..6]);
    ParseDigitsCanonical(s[7..9]);
    ParseDigitsCanonical(s[10..12]);
    ParseDigitsCanonical(s[13..15]);
    ParseDigitsCanonical(s[16..19]);
  }

  /** The month, day and hour fields of the tail read back. */
  lemma TailDateFields(dt: DateTime)
    requires ValidDateTime(dt)
    ensures var s := DateTimeTail(dt);
      && ParseDigits(s[1..3]) == Some(dt.month)
      && ParseDigits(s[4..6]) == Some(dt.day)
      && ParseDigits(s[7..9]) == Some(dt.hour)
  {
    var s := DateTimeTail(dt);
    assert dt.day <= 31;
    assert ParseDigits(s[1..3]) == Some(dt.month) by {
      assert s[1..3] == Digits(dt.month, 2);
      DigitsRoundTrip(dt.month, 2);
    }
    assert ParseDigits(s[4..6]) == Some(dt.day) by {
      assert s[4..6] == Digits(dt.day, 2);
      DigitsRoundTrip(dt.day, 2);
    }
    assert ParseDigits(s[7..9]) == Some(dt.hour) by {
      assert s[7..9] == Digits(dt.hour, 2);
      DigitsRoundTrip(dt.hour, 2);
    }
  }

  /** The minute, second and millisecond fields of the tail read back. */
  lemma TailTimeFields(dt: DateTime)
    requires ValidDateTime(dt)
    ensures var s := DateTimeTail(dt);
      && ParseDigits(s[10..12]) == Some(dt.minute)
      && ParseDigits(s[13..15]) == Some(dt.second)
      && ParseDigits(s[16..19]) == Some(dt.millisecond)
  {
    var s := DateTimeTail(dt);
    assert ParseDigits(s[10..12]) == Some(dt.minute) by {
      assert s[10..12] == Digits(dt.minute, 2);
      DigitsRoundTrip(dt.minute, 2);
    }
    assert ParseDigits(s[13..15]) == Some(dt.second) by {
      assert s[13..15] == Digits(dt.second, 2);
      DigitsRoundTrip(dt.second, 2);
    }
    assert ParseDigits(s[16..19]) == Some(dt.millisecond) by {
      assert s[16..19] == Digits(dt.millisecond, 3);
      DigitsRoundTrip(dt.millisecond, 3);
    }
  }

  /** Every valid time value names a year of at most six digits. */
  lemma YearOfValidTime(t: int)
    requires -MaxTimeValue <= t <= MaxTimeValue
    ensures -999_999 <= FromTimeValue(t).year <= 999_999
  {
    var d := t / MsPerDay;
    var y := YearFromDay(d);
    assert -100_000_000 <= d <= 100_000_000;
    DayFromYearNear(y - 1970);
    DayFromYearNear(y + 1 - 1970);
  }

  /**
   * TimeClip: a time beyond 8.64e15 ms in magnitude is no valid time
   * (NaN); any other keeps its integer part, rounding toward zero.
   */
  function TimeClip(time: real): (r: Option<int>)
    ensures r.Some? <==> -MaxTimeValue as real <= time <= MaxTimeValue as real
    ensures r.Some? ==> -MaxTimeValue <= r.value <= MaxTimeValue
    ensures r.Some? && time >= 0.0 ==> r.value as real <= time < r.value as real + 1.0
    ensures r.Some? && time < 0.0 ==> r.value as real - 1.0 < time <= r.value as real
  {
    if -MaxTimeValue as real <= time <= MaxTimeValue as real then Some(JsNumber.Trunc(time)) else None
  }

  /**
   * Date.prototype.toISOString of a valid time value: 24 characters for
   * years 0 to 9999 and 27 (a sign and six year digits) otherwise, ending in 'Z'.
   */
  function IsoString(t: int): (s: string)
    requires -MaxTimeValue <= t <= MaxTimeValue
    ensures |s| == (if 0 <= FromTimeValue(t).year <= 9999 then 24 else 27)
    ensures s[|s| - 1] == 'Z' && s[|s| - 20] == '-' && s[|s| - 14] == 'T'
  {
    var dt := FromTimeValue(t);
    YearOfValidTime(t);
    YearField(dt.year) + DateTimeTail(dt)
  }

  /**
   * Reads a string of the Date Time String Format back into its time value;
   * a calendar date that does not exist, or a time beyond the valid range, is refused.
   */
  function ParseIso(s: string): Option<int> {
    if |s| < 20 then None
    else
      match ParseYearField(s[..|s| - 20])
      case None => None
      case Some(y) =>
        match ParseDateTimeTail(y, s[|s| - 20..])
        case None => None
        case Some(dt) =>
          if ValidDateTime(dt) && -MaxTimeValue <= ToTimeValue(dt) <= MaxTimeValue then Some(ToTimeValue(dt))
          else None
  }

  /** toISOString loses nothing: the time value is read back from its rendering. */
  lemma {:induction false} IsoStringRoundTrip(t: int)
    requires -MaxTimeValue <= t <= MaxTimeValue
    ensures ParseIso(IsoString(t)) == Some(t)
  {
    var dt := FromTimeValue(t);
    YearOfValidTime(t);
    var s := IsoString(t);
    assert s[..|s| - 20] == YearField(dt.year);
    assert s[|s| - 20..] == DateTimeTail(dt);
    YearFieldRoundTrip(dt.year);
    DateTimeTailRoundTrip(dt);
    TimeValueRoundTrip(t);
  }

  /** ParseIso accepts nothing but renderings: a string it reads is toISOString of the time value read. */
  lemma IsoStringCanonical(s: string)
    requires ParseIso(s).Some?
    ensures -MaxTimeValue <= ParseIso(s).value <= MaxTimeValue
    ensures s == IsoString(ParseIso(s).value)
  {
    var year, tail := s[..|s| - 20], s[|s| - 20..];
    var y := ParseYearField(year).value;
    var dt := ParseDateTimeTail(y, tail).value;
    YearFieldCanonical(year);
    TailCanonical(y, tail);
    DateTimeRoundTrip(dt);
    assert s == year + tail;
  }

  /** ParseIso is exactly the inverse of toISOString on valid time values. */
  lemma ParseIsoInverse(s: string, t: int)
    requires -MaxTimeValue <= t <= MaxTimeValue
    ensures ParseIso(s) == Some(t) <==> s == IsoString(t)
  {
    IsoStringRoundTrip(t);
    if ParseIso(s) == Some(t) {
      IsoStringCanonical(s);
    }
  }

  /** The rendering of a valid broken-down time is its year field followed by its tail. */
  lemma IsoStringOfDateTime(dt: DateTime)
    requires ValidDateTime(dt) && -MaxTimeValue <= ToTimeValue(dt) <= MaxTimeValue
    ensures -999_999 <= dt.year <= 999_999
    ensures IsoString(ToTimeValue(dt)) == YearField(dt.year) + DateTimeTail(dt)
  {
    DateTimeRoundTrip(dt);
    YearOfValidTime(ToTimeValue(dt));
  }

  /** 951782400000 ms after the epoch is the leap day of 2000, at midnight. */
  lemma LeapDayExample()
    ensures IsoString(951_782_400_000) == "2000-02-29T00:00:00.000Z"
  {
    var dt := DateTime(2000, 2, 29, 0, 0, 0, 0);
    assert ToTimeValue(dt) == 951_782_400_000;
    IsoStringOfDateTime(dt);
    LeapDayRendering(dt);
  }

  /** The year field and the tail of 2000-02-29T00:00:00.000 put together. */
  lemma LeapDayRendering(dt: DateTime)
    requires dt == DateTime(2000, 2, 29, 0, 0, 0, 0)
    ensures YearField(dt.year) + DateTimeTail(dt) == "2000-02-29T00:00:00.000Z"
  {
    LeapDayFields();
    assert "2000" + "-02-29T00:00:00.000Z" == "2000-02-29T00:00:00.000Z";
  }

  /** The year field and the tail of 2000-02-29T00:00:00.000, digit by digit. */
  lemma LeapDayFields()
    ensures YearField(2000) == "2000"
    ensures DateTimeTail(DateTime(2000, 2, 29, 0, 0, 0, 0)) == "-02-29T00:00:00.000Z"
  {
    assert Digits(2000, 4) == "2000";
    assert Digits(2, 2) == "02" && Digits(29, 2) == "29";
    assert Digits(0, 2) == "00" && Digits(0, 3) == "000";
  }
}
