/** Python's `datetime` as far as the core uses it: dates that `datetime(y, m, d)`
    accepts, the field-by-field comparison of datetimes, adding whole days with
    `timedelta`, and `strftime('%Y%m%d')`. */
module Dates {
  import opened Text

  datatype Date = Date(year: int, month: int, day: int)

  predicate IsLeap(y: int) {
    y % 4 == 0 && (y % 100 != 0 || y % 400 == 0)
  }

  function DaysInMonth(y: int, m: int): int
    requires 1 <= m <= 12
  {
    if m == 2 then (if IsLeap(y) then 29 else 28)
    else if m == 4 || m == 6 || m == 9 || m == 11 then 30
    else 31
  }

  /** The dates `datetime(year, month, day)` accepts without raising ValueError
      (MINYEAR is 1, MAXYEAR is 9999). */
  predicate ValidDate(d: Date) {
    1 <= d.year <= 9999 && 1 <= d.month <= 12 && 1 <= d.day <= DaysInMonth(d.year, d.month)
  }

  /** Dates compare by year, then month, then day. */
  predicate DateLe(a: Date, b: Date) {
    a.year < b.year || (a.year == b.year && (a.month < b.month || (a.month == b.month && a.day <= b.day)))
  }

  predicate DateLt(a: Date, b: Date) {
    DateLe(a, b) && a != b
  }

  const MicrosPerDay: int := 86_400_000_000

  /** A naive `datetime`: a date and the time of day in microseconds since midnight. */
  datatype DateTime = DateTime(date: Date, micros: int)

  predicate ValidDateTime(t: DateTime) {
    ValidDate(t.date) && 0 <= t.micros < MicrosPerDay
  }

  /** `datetime(y, m, d)` without a time: midnight of that day. */
  function Midnight(d: Date): DateTime {
    DateTime(d, 0)
  }

  /** `a <= b` on datetimes: by date, then by time of day. */
  predicate DtLe(a: DateTime, b: DateTime) {
    DateLt(a.date, b.date) || (a.date == b.date && a.micros <= b.micros)
  }

  /** `datum <= today` with `datum` at midnight: the publication day is today or earlier. */
  lemma MidnightNotAfter(d: Date, now: DateTime)
    requires ValidDateTime(now)
    ensures DtLe(Midnight(d), now) <==> DateLe(d, now.date)
  {
  }

  /** `today <= datum` with `datum` at midnight: a later day, or today only when the
      clock reads exactly midnight. */
  lemma MidnightNotBefore(d: Date, now: DateTime)
    requires ValidDateTime(now)
    ensures DtLe(now, Midnight(d)) <==> (DateLt(now.date, d) || (d == now.date && now.micros == 0))
  {
  }

  function DaysBeforeYear(y: int): int
    requires y >= 1
  {
    var p := y - 1;
    p * 365 + p / 4 - p / 100 + p / 400
  }

  function DaysBeforeMonth(y: int, m: int): int
    requires 1 <= m <= 12
  {
    [0, 31, 59, 90, 120, 151, 181, 212, 243, 273, 304, 334][m - 1] + (if m > 2 && IsLeap(y) then 1 else 0)
  }

  /** `date.toordinal()`: 0001-01-01 is day 1. */
  function Ordinal(d: Date): int
    requires ValidDate(d)
  {
    DaysBeforeYear(d.year) + DaysBeforeMonth(d.year, d.month) + d.day
  }

  /** `date(9999, 12, 31).toordinal()`: the last day `datetime` can hold. */
  const MaxOrdinal: int := 3652059

  /** A datetime as a count of microseconds: what `timedelta` arithmetic adds to. */
  function Instant(t: DateTime): int
    requires ValidDateTime(t)
  {
    Ordinal(t.date) * MicrosPerDay + t.micros
  }

  lemma YearLength(y: int)
    requires y >= 1
    ensures DaysBeforeYear(y + 1) == DaysBeforeYear(y) + (if IsLeap(y) then 366 else 365)
  {
    QuotientStep4(y);
    QuotientStep100(y);
    QuotientStep400(y);
    Multiples(y);
    var p := y - 1;
    assert DaysBeforeYear(y) == p * 365 + p / 4 - p / 100 + p / 400;
    assert DaysBeforeYear(y + 1) == y * 365 + y / 4 - y / 100 + y / 400;
  }

  /** A multiple of 400 is one of 100, and a multiple of 100 one of 4. */
  lemma Multiples(y: int)
    ensures y % 400 == 0 ==> y % 100 == 0
    ensures y % 100 == 0 ==> y % 4 == 0
  {
  }

  /** The count of multiples of 4 up to `y` grows by one exactly at a multiple. */
  lemma QuotientStep4(y: int)
    requires y >= 1
    ensures y / 4 == (y - 1) / 4 + (if y % 4 == 0 then 1 else 0)
  {
  }

  /** The count of multiples of 100 up to `y` grows by one exactly at a multiple. */
  lemma QuotientStep100(y: int)
    requires y >= 1
    ensures y / 100 == (y - 1) / 100 + (if y % 100 == 0 then 1 else 0)
  {
  }

  /** The count of multiples of 400 up to `y` grows by one exactly at a multiple. */
  lemma QuotientStep400(y: int)
    requires y >= 1
    ensures y / 400 == (y - 1) / 400 + (if y % 400 == 0 then 1 else 0)
  {
  }

  /** The days of a valid date fall inside its year. */
  lemma OrdinalInYear(d: Date)
    requires ValidDate(d)
    ensures DaysBeforeYear(d.year) < Ordinal(d) <= DaysBeforeYear(d.year + 1)
  {
    YearLength(d.year);
  }

  lemma {:induction false} DaysBeforeYearMonotone(y1: int, y2: int)
    requires 1 <= y1 <= y2
    ensures DaysBeforeYear(y1) <= DaysBeforeYear(y2)
    decreases y2 - y1
  {
    if y1 < y2 {
      YearLength(y1);
      DaysBeforeYearMonotone(y1 + 1, y2);
    }
  }

  lemma {:induction false} DaysBeforeMonthMonotone(y: int, m1: int, m2: int)
    requires 1 <= m1 < m2 <= 12
    ensures DaysBeforeMonth(y, m1) + DaysInMonth(y, m1) <= DaysBeforeMonth(y, m2)
  {
  }

  /** Later dates have larger ordinals. */
  lemma OrdinalMonotone(a: Date, b: Date)
    requires ValidDate(a) && ValidDate(b) && DateLt(a, b)
    ensures Ordinal(a) < Ordinal(b)
  {
    if a.year < b.year {
      OrdinalInYear(a);
      OrdinalInYear(b);
      DaysBeforeYearMonotone(a.year + 1, b.year);
    } else if a.month < b.month {
      DaysBeforeMonthMonotone(a.year, a.month, b.month);
    }
  }

  /** Comparing dates field by field is comparing their ordinals. */
  lemma OrdinalOrder(a: Date, b: Date)
    requires ValidDate(a) && ValidDate(b)
    ensures DateLe(a, b) <==> Ordinal(a) <= Ordinal(b)
    ensures a == b <==> Ordinal(a) == Ordinal(b)
  {
    if DateLt(a, b) {
      OrdinalMonotone(a, b);
    } else if DateLt(b, a) {
      OrdinalMonotone(b, a);
    }
  }

  /** Every valid date has an ordinal between 1 and MaxOrdinal. */
  lemma OrdinalRange(d: Date)
    requires ValidDate(d)
    ensures 1 <= Ordinal(d) <= MaxOrdinal
  {
    OrdinalInYear(d);
    DaysBeforeYearMonotone(1, d.year);
    DaysBeforeYearMonotone(d.year + 1, 10000);
  }

  /** Comparing datetimes field by field is comparing their instants; so
      `datum <= today + timedelta(days=n)` is `Instant(datum) <= Instant(today) + n days`. */
  lemma InstantOrder(a: DateTime, b: DateTime)
    requires ValidDateTime(a) && ValidDateTime(b)
    ensures DtLe(a, b) <==> Instant(a) <= Instant(b)
  {
    OrdinalOrder(a.date, b.date);
    if Ordinal(a.date) < Ordinal(b.date) {
      assert Ordinal(a.date) * MicrosPerDay + MicrosPerDay <= Ordinal(b.date) * MicrosPerDay;
    } else if Ordinal(b.date) < Ordinal(a.date) {
      assert Ordinal(b.date) * MicrosPerDay + MicrosPerDay <= Ordinal(a.date) * MicrosPerDay;
    }
  }

  /** `strftime('%Y%m%d')`: zero-padded year, month and day, eight digits in all. */
  function FormatYmd(d: Date): (r: string)
    requires ValidDate(d)
    ensures |r| == 8 && AllDigits(r)
  {
    Pad(d.year, 4) + Pad(d.month, 2) + Pad(d.day, 2)
  }

  /** Reads an eight-digit YYYYMMDD stamp back. */
  function DecodeYmd(s: string): Date
    requires |s| == 8 && AllDigits(s)
  {
    Date(DigitsValue(s[..4]), DigitsValue(s[4..6]), DigitsValue(s[6..]))
  }

  /** The YYYYMMDD stamp determines the date. */
  lemma FormatYmdRoundTrip(d: Date)
    requires ValidDate(d)
    ensures DecodeYmd(FormatYmd(d)) == d
  {
    var r := FormatYmd(d);
    assert Pow10(2) == 100 && Pow10(4) == 10000 by {
      assert Pow10(1) == 10;
      assert Pow10(3) == 1000;
    }
    PadRoundTrip(d.year, 4);
    PadRoundTrip(d.month, 2);
    PadRoundTrip(d.day, 2);
    assert r[..4] == Pad(d.year, 4);
    assert r[4..6] == Pad(d.month, 2);
    assert r[6..] == Pad(d.day, 2);
  }
}
