/**
 * The proleptic Gregorian calendar as Python's `datetime.date` counts it:
 * years 1..9999, day ordinals with 0001-01-01 as day 1 (a Monday),
 * `weekday()` with Monday = 0, and `date + timedelta(days=k)` moving the
 * ordinal and failing (OverflowError) outside the representable range.
 */
module Calendar {
  import opened Common

  const MaxYear := 9999
  /** Ordinal of 9999-12-31, Python's `date.max.toordinal()`. */
  const MaxOrdinal := 3652059

  predicate IsLeap(y: int) {
    y % 4 == 0 && (y % 100 != 0 || y % 400 == 0)
  }

  function DaysInYear(y: int): nat {
    if IsLeap(y) then 366 else 365
  }

  function DaysInMonth(y: int, m: int): (n: nat)
    requires 1 <= m <= 12
    ensures 28 <= n <= 31
  {
    if m == 2 then (if IsLeap(y) then 29 else 28)
    else if m == 4 || m == 6 || m == 9 || m == 11 then 30
    else 31
  }

  datatype Date = Date(year: int, month: int, day: int)

  /** What a Python `date` object always satisfies. */
  predicate ValidDate(d: Date) {
    1 <= d.year <= MaxYear && 1 <= d.month <= 12 && 1 <= d.day <= DaysInMonth(d.year, d.month)
  }

  /** Days in all years before `y`, in closed form. */
  function DaysBeforeYear(y: int): int
    requires y >= 1
  {
    var p := y - 1;
    p * 365 + p / 4 - p / 100 + p / 400
  }

  /** Days in the months of year `y` before month `m`. */
  function DaysBeforeMonth(y: int, m: int): nat
    requires 1 <= m <= 13
  {
    if m == 1 then 0 else DaysBeforeMonth(y, m - 1) + DaysInMonth(y, m - 1)
  }

  /** The closed form adds exactly one year's length per year. */
  lemma DaysBeforeYearStep(y: int)
    requires y >= 1
    ensures DaysBeforeYear(y + 1) == DaysBeforeYear(y) + DaysInYear(y)
  {
    var p := y - 1;
    assert (p + 1) / 4 == p / 4 + (if y % 4 == 0 then 1 else 0);
    assert (p + 1) / 100 == p / 100 + (if y % 100 == 0 then 1 else 0);
    assert (p + 1) / 400 == p / 400 + (if y % 400 == 0 then 1 else 0);
  }

  lemma {:induction false} DaysBeforeYearMonotone(a: int, b: int)
    requires 1 <= a <= b
    ensures DaysBeforeYear(a) + 365 * (b - a) <= DaysBeforeYear(b)
    decreases b - a
  {
    if a < b {
      DaysBeforeYearMonotone(a, b - 1);
      DaysBeforeYearStep(b - 1);
    }
  }

  lemma {:induction false} DaysBeforeMonthMonotone(y: int, a: int, b: int)
    requires 1 <= a <= b <= 13
    ensures DaysBeforeMonth(y, a) + 28 * (b - a) <= DaysBeforeMonth(y, b)
    decreases b - a
  {
    if a < b {
      DaysBeforeMonthMonotone(y, a, b - 1);
    }
  }

  lemma DaysBeforeMonthYear(y: int)
    ensures DaysBeforeMonth(y, 13) == DaysInYear(y)
  {
    assert DaysBeforeMonth(y, 2) == DaysBeforeMonth(y, 1) + DaysInMonth(y, 1);
    assert DaysBeforeMonth(y, 3) == DaysBeforeMonth(y, 2) + DaysInMonth(y, 2);
    assert DaysBeforeMonth(y, 4) == DaysBeforeMonth(y, 3) + DaysInMonth(y, 3);
    assert DaysBeforeMonth(y, 5) == DaysBeforeMonth(y, 4) + DaysInMonth(y, 4);
    assert DaysBeforeMonth(y, 6) == DaysBeforeMonth(y, 5) + DaysInMonth(y, 5);
    assert DaysBeforeMonth(y, 7) == DaysBeforeMonth(y, 6) + DaysInMonth(y, 6);
    assert DaysBeforeMonth(y, 8) == DaysBeforeMonth(y, 7) + DaysInMonth(y, 7);
    assert DaysBeforeMonth(y, 9) == DaysBeforeMonth(y, 8) + DaysInMonth(y, 8);
    assert DaysBeforeMonth(y, 10) == DaysBeforeMonth(y, 9) + DaysInMonth(y, 9);
    assert DaysBeforeMonth(y, 11) == DaysBeforeMonth(y, 10) + DaysInMonth(y, 10);
    assert DaysBeforeMonth(y, 12) == DaysBeforeMonth(y, 11) + DaysInMonth(y, 11);
    assert DaysBeforeMonth(y, 13) == DaysBeforeMonth(y, 12) + DaysInMonth(y, 12);
  }

  /** Python's `date.toordinal()`. */
  function ToOrdinal(d: Date): (n: int)
    requires ValidDate(d)
    ensures 1 <= n <= MaxOrdinal
    ensures DaysBeforeYear(d.year) < n <= DaysBeforeYear(d.year + 1)
  {
    DaysBeforeYearStep(d.year);
    DaysBeforeYearMonotone(d.year + 1, MaxYear + 1);
    DaysBeforeMonthMonotone(d.year, d.month + 1, 13);
    DaysBeforeMonthYear(d.year);
    DaysBeforeYear(d.year) + DaysBeforeMonth(d.year, d.month) + d.day
  }

  /** The year holding ordinal `n`, searched upwards from `y`. */
  function FindYear(n: int, y: int): (r: int)
    requires 1 <= y <= MaxYear && DaysBeforeYear(y) < n <= MaxOrdinal
    ensures y <= r <= MaxYear && DaysBeforeYear(r) < n <= DaysBeforeYear(r + 1)
    decreases MaxYear - y
  {
    if n <= DaysBeforeYear(y + 1) then y else FindYear(n, y + 1)
  }

  /** The month of year `y` holding day-of-year `doy`, searched upwards from `m`. */
  function FindMonth(y: int, doy: int, m: int): (r: int)
    requires 1 <= m <= 12 && DaysBeforeMonth(y, m) < doy <= DaysInYear(y)
    ensures m <= r <= 12 && DaysBeforeMonth(y, r) < doy <= DaysBeforeMonth(y, r + 1)
    decreases 12 - m
  {
    DaysBeforeMonthYear(y);
    if doy <= DaysBeforeMonth(y, m + 1) then m else FindMonth(y, doy, m + 1)
  }

  /** Python's `date.fromordinal(n)`: the one valid date with ordinal `n`. */
  function FromOrdinal(n: int): (d: Date)
    requires 1 <= n <= MaxOrdinal
    ensures ValidDate(d) && ToOrdinal(d) == n
  {
    var y := FindYear(n, 1);
    DaysBeforeYearStep(y);
    var doy := n - DaysBeforeYear(y);
    var m := FindMonth(y, doy, 1);
    Date(y, m, doy - DaysBeforeMonth(y, m))
  }

  /** Distinct dates have distinct ordinals. */
  lemma ToOrdinalInjective(a: Date, b: Date)
    requires ValidDate(a) && ValidDate(b) && ToOrdinal(a) == ToOrdinal(b)
    ensures a == b
  {
    SameOrdinalSameYear(a, b);
    SameOrdinalSameMonth(a, b);
  }

  lemma SameOrdinalSameYear(a: Date, b: Date)
    requires ValidDate(a) && ValidDate(b) && ToOrdinal(a) == ToOrdinal(b)
    ensures a.year == b.year
  {
    if a.year < b.year {
      DaysBeforeYearMonotone(a.year + 1, b.year);
    } else if b.year < a.year {
      DaysBeforeYearMonotone(b.year + 1, a.year);
    }
  }

  lemma SameOrdinalSameMonth(a: Date, b: Date)
    requires ValidDate(a) && ValidDate(b) && ToOrdinal(a) == ToOrdinal(b) && a.year == b.year
    ensures a.month == b.month
  {
    var y := a.year;
    assert DaysBeforeMonth(y, a.month) + a.day == DaysBeforeMonth(y, b.month) + b.day;
    if a.month < b.month {
      assert DaysBeforeMonth(y, a.month + 1) == DaysBeforeMonth(y, a.month) + DaysInMonth(y, a.month);
      DaysBeforeMonthMonotone(y, a.month + 1, b.month);
    } else if b.month < a.month {
      assert DaysBeforeMonth(y, b.month + 1) == DaysBeforeMonth(y, b.month) + DaysInMonth(y, b.month);
      DaysBeforeMonthMonotone(y, b.month + 1, a.month);
    }
  }

  /** `fromordinal` undoes `toordinal`: the two are inverse bijections. */
  lemma FromToOrdinal(d: Date)
    requires ValidDate(d)
    ensures FromOrdinal(ToOrdinal(d)) == d
  {
    ToOrdinalInjective(FromOrdinal(ToOrdinal(d)), d);
  }

  /** Python's `date.weekday()`: Monday = 0 ... Sunday = 6. */
  function Weekday(n: int): (w: int)
    ensures 0 <= w < 7
  {
    (n + 6) % 7
  }

  /**
   * The numbering is anchored where Python anchors it: 1 January of year 1
   * was a Monday (0), and 13 March 2024 was a Wednesday (2).
   */
  lemma WeekdayAnchors()
    ensures Weekday(ToOrdinal(Date(1, 1, 1))) == 0
    ensures Weekday(ToOrdinal(Date(2024, 3, 13))) == 2
  {
  }

  /** Two days of the same month are as many ordinals apart as their day numbers. */
  lemma SameMonthOrdinals(d: Date, k: int)
    requires ValidDate(d) && ValidDate(Date(d.year, d.month, d.day + k))
    ensures ToOrdinal(Date(d.year, d.month, d.day + k)) == ToOrdinal(d) + k
  {
  }

  /** 11 March 2024, two days before the anchoring Wednesday, was a Monday. */
  lemma MondayBeforeAnchor()
    ensures Weekday(ToOrdinal(Date(2024, 3, 11))) == 0
  {
    assert ToOrdinal(Date(2024, 3, 11)) == 738956;
  }

  /** Python's `date + timedelta(days=k)`; None where Python raises OverflowError. */
  function AddDays(d: Date, k: int): (r: Option<Date>)
    requires ValidDate(d)
    ensures r.Some? <==> 1 <= ToOrdinal(d) + k <= MaxOrdinal
    ensures r.Some? ==> ValidDate(r.value) && ToOrdinal(r.value) == ToOrdinal(d) + k
  {
    var n := ToOrdinal(d) + k;
    if 1 <= n <= MaxOrdinal then Some(FromOrdinal(n)) else None
  }

  /** `date.strftime("%Y-%m-%d")`: four-digit year, two-digit month and day. */
  function IsoDate(d: Date): (s: string)
    requires ValidDate(d)
    ensures |s| == 10 && s[4] == '-' && s[7] == '-'
    ensures ParseFixed(s[..4], 4) == Some(d.year)
    ensures ParseFixed(s[5..7], 2) == Some(d.month)
    ensures ParseFixed(s[8..], 2) == Some(d.day)
  {
    Pad4Shape(d.year);
    Pad2Shape(d.month);
    Pad2Shape(d.day);
    var s := ZeroPad(d.year, 4) + "-" + ZeroPad(d.month, 2) + "-" + ZeroPad(d.day, 2);
    assert s[..4] == ZeroPad(d.year, 4);
    assert s[5..7] == ZeroPad(d.month, 2);
    assert s[8..] == ZeroPad(d.day, 2);
    s
  }
}
