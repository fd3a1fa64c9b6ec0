/** The timestamp printed on every query-log row, checked against the Gregorian calendar.

    `EpochToDatetime` is the era/century arithmetic the logger runs.  The calendar it is
    compared with is written out independently: leap years as in Appendix C of RFC 3339,
    month lengths as in section 5.7 of RFC 3339, and a day count that simply adds up whole
    years and whole months since 1970-01-01. */
module CivilDate {

  datatype DateTime = DateTime(year: nat, month: nat, day: nat, hour: nat, minute: nat, second: nat)

  const U32: nat := 0x1_0000_0000
  const SECONDS_PER_DAY: nat := 86_400

  /** 4294967296-01-01 00:00:00, the first instant whose year needs 33 bits. */
  const FIRST_WRAPPED_SECOND: nat := 135_536_014_634_284_800

  // ----- The logger's algorithm -----

  /** Calendar date of the `doy`-th day after 1 March of year `y0`. */
  function DateInMarchYear(y0: nat, doy: nat): (nat, nat, nat)
    requires doy <= 365
  {
    var mp := (5 * doy + 2) / 153;
    var d := doy - (153 * mp + 2) / 5 + 1;
    var mo := if mp < 10 then mp + 3 else mp - 9;
    var y := if mo <= 2 then y0 + 1 else y0;
    (y, mo, d)
  }

  function DayOfYear(doe: nat): (doy: nat)
    requires doe < 146_097
    ensures doy <= 365
  {
    var yoe := YearOfEra(doe);
    YearOfEraBounds(doe);
    doe - (365 * yoe + yoe / 4 - yoe / 100)
  }

  /** The March-based year holding day `z` of the proleptic count, and the day within it. */
  function MarchDate(z: nat): (r: (nat, nat))
    ensures r.1 <= 365
  {
    var era := z / 146_097;
    var doe := z - era * 146_097;
    (YearOfEra(doe) + era * 400, DayOfYear(doe))
  }

  /** Year, month and day of the given number of days after 1970-01-01. */
  function DateOf(days: nat): (nat, nat, nat)
  {
    var (y0, doy) := MarchDate(days + 719_468);
    DateInMarchYear(y0, doy)
  }

  /** The year is narrowed with `as u32`; every other component fits. */
  function EpochToDatetime(secs: nat): DateTime
  {
    var s := secs % 60;
    var mi := secs / 60 % 60;
    var h := secs / 3_600 % 24;
    var (y, mo, d) := DateOf(secs / SECONDS_PER_DAY);
    DateTime(y % U32, mo, d, h, mi, s)
  }

  function YearOfEra(doe: nat): nat
  {
    assert doe / 1_460 <= doe;
    (doe - doe / 1_460 + doe / 36_524 - doe / 146_096) / 365
  }

  // ----- The calendar -----

  predicate IsLeap(y: nat)
  {
    y % 4 == 0 && (y % 100 != 0 || y % 400 == 0)
  }

  function DaysInMonth(y: nat, m: nat): nat
    requires 1 <= m <= 12
  {
    if m == 2 then (if IsLeap(y) then 29 else 28)
    else if m == 4 || m == 6 || m == 9 || m == 11 then 30
    else 31
  }

  function DaysInYear(y: nat): nat
  {
    if IsLeap(y) then 366 else 365
  }

  /** Days from 1970-01-01 to y-01-01. */
  function DaysBeforeYear(y: nat): nat
    requires 1970 <= y
  {
    if y == 1970 then 0 else DaysBeforeYear(y - 1) + DaysInYear(y - 1)
  }

  /** Days from y-01-01 to y-m-01. */
  function DaysBeforeMonth(y: nat, m: nat): nat
    requires 1 <= m <= 12
  {
    if m == 1 then 0 else DaysBeforeMonth(y, m - 1) + DaysInMonth(y, m - 1)
  }

  predicate Valid(t: DateTime)
  {
    && 1 <= t.month <= 12
    && 1 <= t.day <= DaysInMonth(t.year, t.month)
    && t.hour < 24 && t.minute < 60 && t.second < 60
  }

  /** Seconds from the epoch to `t`, counted on the calendar. */
  function ToEpoch(t: DateTime): nat
    requires Valid(t) && 1970 <= t.year
  {
    (DaysBeforeYear(t.year) + DaysBeforeMonth(t.year, t.month) + t.day - 1) * SECONDS_PER_DAY
    + t.hour * 3_600 + t.minute * 60 + t.second
  }

  predicate Before(a: DateTime, b: DateTime)
  {
    || a.year < b.year
    || (a.year == b.year && (
          || a.month < b.month
          || (a.month == b.month && (
                || a.day < b.day
                || (a.day == b.day && (
                      || a.hour < b.hour
                      || (a.hour == b.hour && (
                            || a.minute < b.minute
                            || (a.minute == b.minute && a.second < b.second)))))))))
  }

  // ----- Closed forms the proof needs -----

  /** Days from 0000-03-01 to the first of March of year `y`. */
  function MarchDays(y: nat): nat
  {
    365 * y + y / 4 - y / 100 + y / 400
  }

  lemma Quarters(y: nat)
    ensures (y + 1) / 4 == y / 4 + (if (y + 1) % 4 == 0 then 1 else 0)
  {
  }

  lemma Centuries(y: nat)
    ensures (y + 1) / 100 == y / 100 + (if (y + 1) % 100 == 0 then 1 else 0)
    ensures (y + 1) % 100 == 0 ==> (y + 1) % 4 == 0
  {
  }

  lemma Eras(y: nat)
    ensures (y + 1) / 400 == y / 400 + (if (y + 1) % 400 == 0 then 1 else 0)
    ensures (y + 1) % 400 == 0 ==> (y + 1) % 100 == 0
  {
  }

  lemma MarchDaysStep(y: nat)
    ensures MarchDays(y + 1) == MarchDays(y) + DaysInYear(y + 1)
  {
    Quarters(y);
    Centuries(y);
    Eras(y);
  }

  lemma {:induction false} DaysBeforeYearClosed(y: nat)
    requires 1970 <= y
    ensures DaysBeforeYear(y) + 719_468 == MarchDays(y - 1) + 306
  {
    if y != 1970 {
      DaysBeforeYearClosed(y - 1);
      MarchDaysStep(y - 2);
    }
  }

  /** Century, four-year cycle, year of the cycle and day of the year, counted from 1 March. */
  lemma YearOfEraDigits(c: nat, q: nat, k: nat, doy: nat)
    requires c <= 3 && q <= 24 && k <= 3 && doy <= 365
    requires doy == 365 ==> k == 3 && (q == 24 ==> c == 3)
    ensures YearOfEra(36_524 * c + 1_461 * q + 365 * k + doy) == 100 * c + 4 * q + k
  {
    var doe := 36_524 * c + 1_461 * q + 365 * k + doy;
    var rest := 24 * c + q + 365 * k + doy;
    assert doe == 1_460 * (25 * c + q) + rest;
    assert doe / 1_460 == 25 * c + q + (if rest >= 1_460 then 1 else 0);
    var last := if doe == 146_096 then 1 else 0;
    assert doe / 36_524 == c + last;
    assert doe / 146_096 == last;
  }

  /** The digits of a day of the era, and what they say about its year. */
  lemma EraDigits(doe: nat) returns (c: nat, q: nat, k: nat, doy: nat)
    requires doe < 146_097
    ensures c <= 3 && q <= 24 && k <= 3 && doy <= 365
    ensures doy == 365 ==> k == 3 && (q == 24 ==> c == 3)
    ensures doe == 36_524 * c + 1_461 * q + 365 * k + doy
  {
    c := if doe / 36_524 < 3 then doe / 36_524 else 3;
    var r := doe - 36_524 * c;
    q := r / 1_461;
    var t := r - 1_461 * q;
    k := if t / 365 < 3 then t / 365 else 3;
    doy := t - 365 * k;
  }

  lemma LeapOfDigits(c: nat, q: nat, k: nat)
    requires c <= 3 && q <= 24 && k <= 3
    ensures (100 * c + 4 * q + k) / 4 == 25 * c + q
    ensures (100 * c + 4 * q + k) / 100 == c
    ensures IsLeap(100 * c + 4 * q + k + 1) <==> k == 3 && (q == 24 ==> c == 3)
  {
    var next := 100 * c + 4 * q + k + 1;
    assert next == 4 * (25 * c + q) + (k + 1);
    if k == 3 && q == 24 {
      assert next == 100 * (c + 1);
    } else {
      assert next == 100 * c + (4 * q + k + 1) && 0 < 4 * q + k + 1 < 100;
    }
  }

  lemma YearOfEraBounds(doe: nat)
    requires doe < 146_097
    ensures var yoe := YearOfEra(doe);
            && yoe < 400
            && 365 * yoe + yoe / 4 - yoe / 100 <= doe
            && doe - (365 * yoe + yoe / 4 - yoe / 100) <= 365
            && (doe - (365 * yoe + yoe / 4 - yoe / 100) == 365 ==> IsLeap(yoe + 1))
  {
    var c, q, k, doy := EraDigits(doe);
    YearOfEraDigits(c, q, k, doy);
    LeapOfDigits(c, q, k);
  }

  // ----- One date at a time -----

  /** Days before a month, measured from the preceding first of March. */
  lemma MarchMonths(y: nat, mp: nat)
    requires 1 <= y && mp <= 11
    ensures mp < 10 ==> DaysBeforeMonth(y, mp + 3) == (153 * mp + 2) / 5 + DaysBeforeMonth(y, 3)
    ensures mp >= 10 ==> DaysBeforeMonth(y, mp - 9) == (153 * mp + 2) / 5 - 306
    ensures DaysBeforeMonth(y, 3) == 59 + (if IsLeap(y) then 1 else 0)
  {
    assert DaysBeforeMonth(y, 1) == 0;
    var february := DaysBeforeMonth(y, 2);
    var march := DaysBeforeMonth(y, 3);
    var april := DaysBeforeMonth(y, 4);
    var may := DaysBeforeMonth(y, 5);
    var june := DaysBeforeMonth(y, 6);
    var july := DaysBeforeMonth(y, 7);
    var august := DaysBeforeMonth(y, 8);
    var september := DaysBeforeMonth(y, 9);
    var october := DaysBeforeMonth(y, 10);
    var november := DaysBeforeMonth(y, 11);
    var december := DaysBeforeMonth(y, 12);
  }

  lemma LeapShift(yoe: nat, era: nat)
    ensures IsLeap(yoe + 400 * era) == IsLeap(yoe)
    ensures MarchDays(yoe + 400 * era) == MarchDays(yoe) + 146_097 * era
  {
    var y := yoe + 400 * era;
    assert y / 4 == yoe / 4 + 100 * era;
    assert y / 100 == yoe / 100 + 4 * era;
    assert y / 400 == yoe / 400 + era;
  }

  lemma {:induction false} MarchDaysMonotone(a: nat, b: nat)
    requires a <= b
    ensures MarchDays(a) + 365 * (b - a) <= MarchDays(b)
    decreases b - a
  {
    if a < b {
      MarchDaysStep(a);
      MarchDaysMonotone(a + 1, b);
    }
  }

  /** The month found from the day of the year holds that day. */
  lemma MonthHoldsDay(y0: nat, doy: nat)
    requires doy <= 365 && (doy == 365 ==> IsLeap(y0 + 1))
    ensures var (y, mo, d) := DateInMarchYear(y0, doy);
            1 <= mo <= 12 && 1 <= d <= DaysInMonth(y, mo)
  {
    var mp := (5 * doy + 2) / 153;
    assert mp <= 11;
    assert 153 * mp <= 5 * doy + 2 < 153 * (mp + 1);
    var start := (153 * mp + 2) / 5;
    assert 5 * start <= 153 * mp + 2 < 5 * start + 5;
  }

  lemma DateInMarchYearCounts(y0: nat, doy: nat)
    requires doy <= 365 && (doy == 365 ==> IsLeap(y0 + 1))
    requires MarchDays(y0) + doy >= 719_468
    ensures var (y, mo, d) := DateInMarchYear(y0, doy);
            && 1970 <= y
            && 1 <= mo <= 12
            && 1 <= d <= DaysInMonth(y, mo)
            && DaysBeforeYear(y) + DaysBeforeMonth(y, mo) + d - 1 + 719_468 == MarchDays(y0) + doy
  {
    MonthHoldsDay(y0, doy);
    var mp := (5 * doy + 2) / 153;
    assert 1969 <= y0 by {
      if y0 < 1969 { MarchDaysMonotone(y0, 1968); }
    }
    if mp < 10 {
      assert y0 != 1969 by { assert MarchDays(1969) == 719_162; }
      DaysBeforeYearClosed(y0);
      MarchDaysStep(y0 - 1);
      MarchMonths(y0, mp);
    } else {
      DaysBeforeYearClosed(y0 + 1);
      MarchMonths(y0 + 1, mp);
    }
  }

  lemma MarchDateCounts(z: nat)
    ensures var (y0, doy) := MarchDate(z);
            && (doy == 365 ==> IsLeap(y0 + 1))
            && MarchDays(y0) + doy == z
  {
    var era := z / 146_097;
    var doe := z - era * 146_097;
    YearOfEraBounds(doe);
    var yoe := YearOfEra(doe);
    LeapShift(yoe, era);
    LeapShift(yoe + 1, era);
  }

  /** The date the algorithm finds is valid, and is the one the calendar counts to. */
  lemma DateOfDay(days: nat)
    ensures var (y, mo, d) := DateOf(days);
            && 1970 <= y
            && 1 <= mo <= 12
            && 1 <= d <= DaysInMonth(y, mo)
            && DaysBeforeYear(y) + DaysBeforeMonth(y, mo) + d - 1 == days
  {
    MarchDateCounts(days + 719_468);
    var (y0, doy) := MarchDate(days + 719_468);
    DateInMarchYearCounts(y0, doy);
  }

  lemma TimeOfDay(secs: nat)
    ensures secs / SECONDS_PER_DAY * SECONDS_PER_DAY
            + secs / 3_600 % 24 * 3_600 + secs / 60 % 60 * 60 + secs % 60 == secs
  {
    assert secs / 60 / 60 == secs / 3_600;
    assert secs / 3_600 / 24 == secs / SECONDS_PER_DAY;
  }

  // ----- Order -----

  lemma {:induction false} YearsAscend(a: nat, b: nat)
    requires 1970 <= a < b
    ensures DaysBeforeYear(a) + DaysInYear(a) <= DaysBeforeYear(b)
  {
    if a + 1 < b {
      YearsAscend(a, b - 1);
    }
  }

  lemma {:induction false} MonthsAscend(y: nat, m: nat, n: nat)
    requires 1 <= m < n <= 12
    ensures DaysBeforeMonth(y, m) + DaysInMonth(y, m) <= DaysBeforeMonth(y, n)
  {
    if m + 1 < n {
      MonthsAscend(y, m, n - 1);
    }
  }

  lemma DayFitsYear(t: DateTime)
    requires Valid(t) && 1 <= t.year
    ensures DaysBeforeMonth(t.year, t.month) + t.day <= DaysInYear(t.year)
  {
    MarchMonths(t.year, 9);
    if t.month < 12 {
      MonthsAscend(t.year, t.month, 12);
    }
  }

  /** Counting seconds on the calendar respects the lexicographic order of the fields. */
  lemma ToEpochAscends(a: DateTime, b: DateTime)
    requires Valid(a) && Valid(b) && 1970 <= a.year && 1970 <= b.year
    requires Before(a, b)
    ensures ToEpoch(a) < ToEpoch(b)
  {
    var da := DaysBeforeYear(a.year) + DaysBeforeMonth(a.year, a.month) + a.day - 1;
    var db := DaysBeforeYear(b.year) + DaysBeforeMonth(b.year, b.month) + b.day - 1;
    if a.year < b.year {
      DayFitsYear(a);
      YearsAscend(a.year, b.year);
      assert da < db;
    } else if a.month < b.month {
      MonthsAscend(a.year, a.month, b.month);
      assert da < db;
    }
  }

  // ----- Main results -----

  /** First second of a year, in closed form. */
  function YearStart(y: nat): int
    requires 1 <= y
  {
    (MarchDays(y - 1) + 306 - 719_468) * SECONDS_PER_DAY
  }

  lemma YearSpan(t: DateTime)
    requires Valid(t) && 1970 <= t.year
    ensures YearStart(t.year) <= ToEpoch(t) < YearStart(t.year + 1)
  {
    DaysBeforeYearClosed(t.year);
    MarchDaysStep(t.year - 1);
    DayFitsYear(t);
  }

  lemma FirstWrappedYear(y: nat)
    requires 1 <= y
    ensures y <= U32 ==> YearStart(y) <= FIRST_WRAPPED_SECOND
    ensures U32 <= y ==> FIRST_WRAPPED_SECOND <= YearStart(y)
  {
    assert YearStart(U32) == FIRST_WRAPPED_SECOND;
    if y <= U32 {
      MarchDaysMonotone(y - 1, U32 - 1);
    } else {
      MarchDaysMonotone(U32 - 1, y - 1);
    }
  }

  lemma YearFits(t: DateTime)
    requires Valid(t) && 1970 <= t.year
    ensures t.year < U32 <==> ToEpoch(t) < FIRST_WRAPPED_SECOND
  {
    YearSpan(t);
    FirstWrappedYear(t.year);
    FirstWrappedYear(t.year + 1);
  }

  /** The printed fields are a calendar date that counts back to the same second, for every
      second whose year fits 32 bits and for no other. */
  lemma DatetimeIsExact(secs: nat)
    ensures var t := EpochToDatetime(secs);
            (Valid(t) && 1970 <= t.year && ToEpoch(t) == secs) <==> secs < FIRST_WRAPPED_SECOND
  {
    var (y, mo, d) := DateOf(secs / SECONDS_PER_DAY);
    DateOfDay(secs / SECONDS_PER_DAY);
    TimeOfDay(secs);
    var full := DateTime(y, mo, d, secs / 3_600 % 24, secs / 60 % 60, secs % 60);
    assert Valid(full) && ToEpoch(full) == secs;
    YearFits(full);
    NarrowedYear(full);
  }

  lemma NarrowedYear(t: DateTime)
    requires Valid(t) && 1970 <= t.year
    ensures t.year < U32 ==> t.(year := t.year % U32) == t
    ensures var narrow := t.(year := t.year % U32);
            t.year >= U32 && Valid(narrow) && 1970 <= narrow.year ==> ToEpoch(narrow) < ToEpoch(t)
  {
    var narrow := t.(year := t.year % U32);
    if t.year >= U32 && Valid(narrow) && 1970 <= narrow.year {
      ToEpochAscends(narrow, t);
    }
  }

  /** Every valid date from 1970 on is found again from its second. */
  lemma DatetimeInvertsCalendar(t: DateTime)
    requires Valid(t) && 1970 <= t.year < U32
    ensures EpochToDatetime(ToEpoch(t)) == t
  {
    YearFits(t);
    var back := EpochToDatetime(ToEpoch(t));
    DatetimeIsExact(ToEpoch(t));
    if back != t {
      if Before(back, t) {
        ToEpochAscends(back, t);
      } else {
        assert Before(t, back);
        ToEpochAscends(t, back);
      }
    }
  }

  /** Later seconds have lexicographically later fields. */
  lemma DatetimeAscends(earlier: nat, later: nat)
    requires earlier < later < FIRST_WRAPPED_SECOND
    ensures Before(EpochToDatetime(earlier), EpochToDatetime(later))
  {
    DatetimeIsExact(earlier);
    DatetimeIsExact(later);
    var a, b := EpochToDatetime(earlier), EpochToDatetime(later);
    if !Before(a, b) {
      assert a == b || Before(b, a);
      if Before(b, a) {
        ToEpochAscends(b, a);
      }
    }
  }
}
