/** The timestamp column of the query log as text, and how far it sorts by time. */
module LogLine {
  import opened Wrappers
  import opened Text
  import opened CivilDate

  /** 10000-01-01 00:00:00, the first instant whose year prints with five digits. */
  const FIRST_LONG_YEAR: nat := 253_402_300_800

  function TimeText(t: DateTime): string
  {
    Padded(t.hour, 2) + (":" + (Padded(t.minute, 2) + (":" + Padded(t.second, 2))))
  }

  /** `YYYY-MM-DD HH:MM:SS` */
  function TimestampText(t: DateTime): string
  {
    Padded(t.year, 4) + ("-" + (Padded(t.month, 2) + ("-" + (Padded(t.day, 2) + (" " + TimeText(t))))))
  }

  /** `iso_timestamp`, at the given second. */
  function Timestamp(secs: nat): string
  {
    TimestampText(EpochToDatetime(secs))
  }

  // ----- Fields of fixed width -----

  function Pow10(w: nat): nat
  {
    if w == 0 then 1 else 10 * Pow10(w - 1)
  }

  function Fixed(n: nat, w: nat): (s: string)
    ensures |s| == w
  {
    if w == 0 then "" else Fixed(n / 10, w - 1) + [DigitChar(n % 10)]
  }

  lemma {:induction false} ZerosAreFixed(w: nat)
    ensures Zeros(w) == Fixed(0, w)
  {
    if w > 0 {
      ZerosAreFixed(w - 1);
    }
  }

  lemma {:induction false} PaddedIsFixed(n: nat, w: nat)
    requires 0 < w && n < Pow10(w)
    ensures Padded(n, w) == Fixed(n, w)
  {
    if n < 10 {
      ZerosAreFixed(w - 1);
    } else {
      PaddedIsFixed(n / 10, w - 1);
    }
  }

  /** Fields of one width first, then the rest. */
  lemma {:induction false} CmpConcat(u: string, v: string, x: string, y: string)
    requires |u| == |v|
    ensures CmpStr(u + x, v + y) == if CmpStr(u, v) == Equal then CmpStr(x, y) else CmpStr(u, v)
  {
    if u == "" {
      assert u + x == x && v + y == y;
    } else {
      assert (u + x)[1..] == u[1..] + x && (v + y)[1..] == v[1..] + y;
      CmpConcat(u[1..], v[1..], x, y);
    }
  }

  lemma {:induction false} CmpFixed(a: nat, b: nat, w: nat)
    requires a < Pow10(w) && b < Pow10(w)
    ensures CmpStr(Fixed(a, w), Fixed(b, w)) == CmpInt(a, b)
  {
    if w > 0 {
      CmpFixed(a / 10, b / 10, w - 1);
      CmpConcat(Fixed(a / 10, w - 1), Fixed(b / 10, w - 1), [DigitChar(a % 10)], [DigitChar(b % 10)]);
      CmpDigit(a % 10, b % 10);
    }
  }

  lemma CmpDigit(a: nat, b: nat)
    requires a < 10 && b < 10
    ensures CmpStr([DigitChar(a)], [DigitChar(b)]) == CmpInt(a, b)
  {
    assert [DigitChar(a)][1..] == "" && [DigitChar(b)][1..] == "";
  }

  /** A field, its separator, and what follows. */
  lemma CmpField(a: nat, b: nat, w: nat, sep: char, x: string, y: string)
    requires 0 < w && a < Pow10(w) && b < Pow10(w)
    ensures CmpStr(Padded(a, w) + ([sep] + x), Padded(b, w) + ([sep] + y))
            == if a == b then CmpStr(x, y) else CmpInt(a, b)
  {
    PaddedIsFixed(a, w);
    PaddedIsFixed(b, w);
    CmpFixed(a, b, w);
    CmpConcat(Fixed(a, w), Fixed(b, w), [sep] + x, [sep] + y);
    CmpConcat([sep], [sep], x, y);
    CmpStrEqual([sep], [sep]);
  }

  lemma CmpLastField(a: nat, b: nat, w: nat)
    requires 0 < w && a < Pow10(w) && b < Pow10(w)
    ensures CmpStr(Padded(a, w), Padded(b, w)) == CmpInt(a, b)
  {
    PaddedIsFixed(a, w);
    PaddedIsFixed(b, w);
    CmpFixed(a, b, w);
  }

  lemma TimeTextAscends(a: DateTime, b: DateTime)
    requires Valid(a) && Valid(b)
    requires (a.hour, a.minute, a.second) != (b.hour, b.minute, b.second)
    ensures CmpStr(TimeText(a), TimeText(b)) == CmpInt(
      (a.hour * 60 + a.minute) * 60 + a.second, (b.hour * 60 + b.minute) * 60 + b.second)
  {
    hide Padded, CmpStr;
    assert Pow10(2) == 100 by { assert Pow10(1) == 10; }
    CmpField(a.hour, b.hour, 2, ':', Padded(a.minute, 2) + (":" + Padded(a.second, 2)),
             Padded(b.minute, 2) + (":" + Padded(b.second, 2)));
    CmpField(a.minute, b.minute, 2, ':', Padded(a.second, 2), Padded(b.second, 2));
    CmpLastField(a.second, b.second, 2);
  }

  /** Below year 10000 the text orders dates as their fields do. */
  lemma TextAscends(a: DateTime, b: DateTime)
    requires Valid(a) && Valid(b) && a.year < 10_000 && b.year < 10_000 && Before(a, b)
    ensures CmpStr(TimestampText(a), TimestampText(b)) == Less
  {
    hide Padded, CmpStr, TimeText;
    assert Pow10(2) == 100 by { assert Pow10(1) == 10; }
    assert Pow10(4) == 10_000 by { assert Pow10(3) == 1_000; }
    var dayA, dayB := Padded(a.day, 2) + (" " + TimeText(a)), Padded(b.day, 2) + (" " + TimeText(b));
    CmpField(a.year, b.year, 4, '-', Padded(a.month, 2) + ("-" + dayA), Padded(b.month, 2) + ("-" + dayB));
    CmpField(a.month, b.month, 2, '-', dayA, dayB);
    CmpField(a.day, b.day, 2, ' ', TimeText(a), TimeText(b));
    if a.year == b.year && a.month == b.month && a.day == b.day {
      TimeTextAscends(a, b);
    }
  }

  // ----- How far the column sorts -----

  lemma YearsBelow(secs: nat)
    requires secs < FIRST_WRAPPED_SECOND
    ensures EpochToDatetime(secs).year < 10_000 <==> secs < FIRST_LONG_YEAR
    ensures secs == FIRST_LONG_YEAR ==> EpochToDatetime(secs).year == 10_000
    ensures secs == FIRST_LONG_YEAR - 1 ==> EpochToDatetime(secs).year == 9_999
  {
    var t := EpochToDatetime(secs);
    DatetimeIsExact(secs);
    YearSpan(t);
    assert YearStart(9_999) < FIRST_LONG_YEAR - 1;
    assert YearStart(10_000) == FIRST_LONG_YEAR;
    assert FIRST_LONG_YEAR < YearStart(10_001);
    YearStartsAscend(t.year + 1, 10_000);
    YearStartsAscend(10_000, t.year);
    YearStartsAscend(t.year + 1, 9_999);
    YearStartsAscend(10_001, t.year);
  }

  lemma YearStartsAscend(y: nat, z: nat)
    requires 1 <= y && 1 <= z
    ensures y <= z ==> YearStart(y) <= YearStart(z)
  {
    if y <= z {
      MarchDaysMonotone(y - 1, z - 1);
    }
  }

  lemma FirstDigit(n: nat, d: nat)
    requires 1 <= d < 10 && 1_000 * d <= n < 1_000 * (d + 1)
    ensures Decimal(n)[0] == DigitChar(d) && |Decimal(n)| == 4
  {
    assert Decimal(n) == Decimal(n / 10) + [DigitChar(n % 10)];
    assert Decimal(n / 10) == Decimal(n / 10 / 10) + [DigitChar(n / 10 % 10)];
    assert Decimal(n / 10 / 10) == Decimal(n / 10 / 10 / 10) + [DigitChar(n / 10 / 10 % 10)];
    assert n / 10 / 10 / 10 == d;
  }

  /** The last second of 9999 sorts after the first of 10000. */
  lemma LongYearSortsFirst()
    ensures CmpStr(Timestamp(FIRST_LONG_YEAR - 1), Timestamp(FIRST_LONG_YEAR)) == Greater
  {
    YearsBelow(FIRST_LONG_YEAR - 1);
    YearsBelow(FIRST_LONG_YEAR);
    LongYearTextSortsFirst(EpochToDatetime(FIRST_LONG_YEAR - 1), EpochToDatetime(FIRST_LONG_YEAR));
  }

  lemma LongYearTextSortsFirst(a: DateTime, b: DateTime)
    requires a.year == 9_999 && b.year == 10_000
    ensures CmpStr(TimestampText(a), TimestampText(b)) == Greater
  {
    FirstDigit(a.year, 9);
    FirstDigit(b.year / 10, 1);
    assert Decimal(b.year) == Decimal(b.year / 10) + [DigitChar(b.year % 10)];
    hide Decimal;
    assert Padded(a.year, 4) == Decimal(a.year) && Padded(b.year, 4) == Decimal(b.year);
    assert TimestampText(a)[0] == '9' && TimestampText(b)[0] == '1';
  }

  /** The column sorts by time among the seconds before `end`. */
  ghost predicate SortsBelow(end: nat)
  {
    forall earlier: nat, later: nat :: earlier < later < end ==>
      CmpStr(Timestamp(earlier), Timestamp(later)) == Less
  }

  /** Later rows of the log print later exactly as long as years have four digits. */
  lemma LogSortsExactlyBelow(end: nat)
    ensures SortsBelow(end) <==> end <= FIRST_LONG_YEAR
  {
    if end <= FIRST_LONG_YEAR {
      forall earlier: nat, later: nat | earlier < later < end
        ensures CmpStr(Timestamp(earlier), Timestamp(later)) == Less
      {
        TimestampsAscend(earlier, later);
      }
    } else {
      LongYearSortsFirst();
    }
  }

  lemma TimestampsAscend(earlier: nat, later: nat)
    requires earlier < later < FIRST_LONG_YEAR
    ensures CmpStr(Timestamp(earlier), Timestamp(later)) == Less
  {
    DatetimeIsExact(earlier);
    DatetimeIsExact(later);
    DatetimeAscends(earlier, later);
    YearsBelow(earlier);
    YearsBelow(later);
    TextAscends(EpochToDatetime(earlier), EpochToDatetime(later));
  }
}
