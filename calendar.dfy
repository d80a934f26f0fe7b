/**
 * Python `datetime.date` restricted to what `generate_date_ranges` uses:
 * proleptic Gregorian dates of years 1 to 9999, comparison, adding a
 * signed number of days (which raises `OverflowError` outside that range,
 * here `None`), `replace(day=…)`, and `strftime("%Y-%m-%d")`, the ISO 8601
 * extended calendar-date form (section 4.1.2.2 of ISO 8601:2004).
 *
 * Day arithmetic is defined one day at a time; its partner is the ordinal
 * day number, and adding `n` days is shown to add `n` to it.
 */
module Calendar {
  import opened Common

  datatype Date = Date(year: int, month: int, day: int)

  const MinYear: int := 1
  const MaxYear: int := 9999

  predicate IsLeapYear(y: int) {
    y % 4 == 0 && (y % 100 != 0 || y % 400 == 0)
  }

  function DaysInMonth(y: int, m: int): (r: int)
    requires 1 <= m <= 12
  {
    if m == 2 then (if IsLeapYear(y) then 29 else 28)
    else if m == 4 || m == 6 || m == 9 || m == 11 then 30
    else 31
  }

  predicate ValidDate(d: Date) {
    MinYear <= d.year <= MaxYear && 1 <= d.month <= 12 && 1 <= d.day <= DaysInMonth(d.year, d.month)
  }

  const FirstDate: Date := Date(MinYear, 1, 1)
  const LastDate: Date := Date(MaxYear, 12, 31)

  /** Python's `a < b` on dates: the order of (year, month, day). */
  predicate Before(a: Date, b: Date) {
    a.year < b.year || (a.year == b.year && (a.month < b.month || (a.month == b.month && a.day < b.day)))
  }

  /** The following day; `None` after the last representable date. */
  function NextDay(d: Date): (r: Option<Date>)
    requires ValidDate(d)
    ensures r.None? <==> d == LastDate
    ensures r.Some? ==> ValidDate(r.value) && Before(d, r.value)
  {
    if d.day < DaysInMonth(d.year, d.month) then Some(Date(d.year, d.month, d.day + 1))
    else if d.month < 12 then Some(Date(d.year, d.month + 1, 1))
    else if d.year < MaxYear then Some(Date(d.year + 1, 1, 1))
    else None
  }

  /** The preceding day; `None` before the first representable date. */
  function PrevDay(d: Date): (r: Option<Date>)
    requires ValidDate(d)
    ensures r.None? <==> d == FirstDate
    ensures r.Some? ==> ValidDate(r.value) && Before(r.value, d)
  {
    if d.day > 1 then Some(Date(d.year, d.month, d.day - 1))
    else if d.month > 1 then Some(Date(d.year, d.month - 1, DaysInMonth(d.year, d.month - 1)))
    else if d.year > MinYear then Some(Date(d.year - 1, 12, 31))
    else None
  }

  /** `d + timedelta(days=n)`; `None` where Python raises `OverflowError`. */
  function AddDays(d: Date, n: int): (r: Option<Date>)
    requires ValidDate(d)
    ensures r.Some? ==> ValidDate(r.value)
    decreases if n >= 0 then n else -n
  {
    if n == 0 then Some(d)
    else if n > 0 then
      match NextDay(d)
      case None => None
      case Some(e) => AddDays(e, n - 1)
    else
      match PrevDay(d)
      case None => None
      case Some(e) => AddDays(e, n + 1)
  }

  // ---------------------------------------------------------------------
  // Ordinal day numbers

  function YearLength(y: int): (r: int) {
    if IsLeapYear(y) then 366 else 365
  }

  /** Days of year `y` before the first of month `m` (`m` up to 13: the whole year). */
  function DaysBeforeMonth(y: int, m: int): (r: int)
    requires 1 <= m <= 13
  {
    if m == 1 then 0 else DaysBeforeMonth(y, m - 1) + DaysInMonth(y, m - 1)
  }

  /** Days before 1 January of year `y`, counted from 1 January of year 1. */
  function DaysBeforeYear(y: int): (r: int)
    requires y >= 1
  {
    365 * (y - 1) + (y - 1) / 4 - (y - 1) / 100 + (y - 1) / 400
  }

  /** Days since 1 January of year 1. */
  function Ordinal(d: Date): (r: int)
    requires ValidDate(d)
  {
    DaysBeforeYear(d.year) + DaysBeforeMonth(d.year, d.month) + d.day - 1
  }

  lemma WholeYear(y: int)
    ensures DaysBeforeMonth(y, 13) == YearLength(y)
    ensures DaysBeforeMonth(y, 12) == YearLength(y) - 31
  {
    assert DaysBeforeMonth(y, 2) == 31;
    assert DaysBeforeMonth(y, 3) == 31 + DaysInMonth(y, 2);
    assert DaysBeforeMonth(y, 4) == DaysBeforeMonth(y, 3) + 31;
    assert DaysBeforeMonth(y, 5) == DaysBeforeMonth(y, 4) + 30;
    assert DaysBeforeMonth(y, 6) == DaysBeforeMonth(y, 5) + 31;
    assert DaysBeforeMonth(y, 7) == DaysBeforeMonth(y, 6) + 30;
    assert DaysBeforeMonth(y, 8) == DaysBeforeMonth(y, 7) + 31;
    assert DaysBeforeMonth(y, 9) == DaysBeforeMonth(y, 8) + 31;
    assert DaysBeforeMonth(y, 10) == DaysBeforeMonth(y, 9) + 30;
    assert DaysBeforeMonth(y, 11) == DaysBeforeMonth(y, 10) + 31;
    assert DaysBeforeMonth(y, 12) == DaysBeforeMonth(y, 11) + 30;
  }

  lemma LeapDivisors(y: int)
    ensures y % 400 == 0 ==> y % 100 == 0
    ensures y % 100 == 0 ==> y % 4 == 0
  {
    if y % 400 == 0 {
      assert y == 400 * (y / 400);
      assert y == 100 * (4 * (y / 400));
    }
    if y % 100 == 0 {
      assert y == 100 * (y / 100);
      assert y == 4 * (25 * (y / 100));
    }
  }

  lemma YearStep(y: int)
    requires y >= 1
    ensures DaysBeforeYear(y + 1) == DaysBeforeYear(y) + YearLength(y)
  {
    assert y / 4 - (y - 1) / 4 == if y % 4 == 0 then 1 else 0;
    assert y / 100 - (y - 1) / 100 == if y % 100 == 0 then 1 else 0;
    assert y / 400 - (y - 1) / 400 == if y % 400 == 0 then 1 else 0;
    LeapDivisors(y);
  }

  /** Each following day is the next ordinal. */
  lemma NextDayOrdinal(d: Date)
    requires ValidDate(d) && NextDay(d).Some?
    ensures Ordinal(NextDay(d).value) == Ordinal(d) + 1
  {
    if d.day == DaysInMonth(d.year, d.month) && d.month == 12 {
      YearStep(d.year);
      WholeYear(d.year);
    }
  }

  lemma PrevDayNext(d: Date)
    requires ValidDate(d) && PrevDay(d).Some?
    ensures NextDay(PrevDay(d).value) == Some(d)
  {
  }

  /** `NextDay` and `PrevDay` are inverse. */
  lemma NextPrevInverse(d: Date, e: Date)
    requires ValidDate(d) && ValidDate(e)
    ensures NextDay(d) == Some(e) <==> PrevDay(e) == Some(d)
  {
    if PrevDay(e) == Some(d) {
      PrevDayNext(e);
    }
  }

  lemma PrevDayOrdinal(d: Date)
    requires ValidDate(d) && PrevDay(d).Some?
    ensures Ordinal(PrevDay(d).value) == Ordinal(d) - 1
  {
    PrevDayNext(d);
    NextDayOrdinal(PrevDay(d).value);
  }

  lemma DaysBeforeMonthMonotone(y: int, m: int, m': int)
    requires 1 <= m <= m' <= 13
    ensures DaysBeforeMonth(y, m) <= DaysBeforeMonth(y, m')
    decreases m' - m
  {
    if m < m' {
      DaysBeforeMonthMonotone(y, m, m' - 1);
    }
  }

  lemma {:induction false} DaysBeforeYearMonotone(y: int, y': int)
    requires 1 <= y < y'
    ensures DaysBeforeYear(y) + YearLength(y) <= DaysBeforeYear(y')
    decreases y' - y
  {
    YearStep(y);
    if y + 1 < y' {
      DaysBeforeYearMonotone(y + 1, y');
    }
  }

  /** The ordinal of a date lies within its year. */
  lemma OrdinalBounds(d: Date)
    requires ValidDate(d)
    ensures DaysBeforeYear(d.year) <= Ordinal(d) < DaysBeforeYear(d.year) + YearLength(d.year)
  {
    assert DaysBeforeMonth(d.year, d.month + 1) == DaysBeforeMonth(d.year, d.month) + DaysInMonth(d.year, d.month);
    DaysBeforeMonthMonotone(d.year, 1, d.month);
    DaysBeforeMonthMonotone(d.year, d.month + 1, 13);
    WholeYear(d.year);
  }

  /** Date order is ordinal order. */
  lemma OrdinalOrder(a: Date, b: Date)
    requires ValidDate(a) && ValidDate(b)
    ensures Before(a, b) <==> Ordinal(a) < Ordinal(b)
    ensures a == b <==> Ordinal(a) == Ordinal(b)
  {
    OrdinalBounds(a);
    OrdinalBounds(b);
    if a.year < b.year {
      DaysBeforeYearMonotone(a.year, b.year);
    } else if b.year < a.year {
      DaysBeforeYearMonotone(b.year, a.year);
    } else if a.month < b.month {
      DaysBeforeMonthMonotone(a.year, a.month + 1, b.month);
    } else if b.month < a.month {
      DaysBeforeMonthMonotone(a.year, b.month + 1, a.month);
    }
  }

  /**
   * Adding `n` days adds `n` to the ordinal, and fails exactly when the
   * result would lie outside years 1 to 9999.
   */
  lemma {:induction false} AddDaysOrdinal(d: Date, n: int)
    requires ValidDate(d)
    ensures AddDays(d, n).Some? ==> Ordinal(AddDays(d, n).value) == Ordinal(d) + n
    ensures AddDays(d, n).Some? <==> 0 <= Ordinal(d) + n <= Ordinal(LastDate)
    decreases if n >= 0 then n else -n
  {
    OrdinalOrder(d, LastDate);
    OrdinalOrder(FirstDate, d);
    if n > 0 {
      if NextDay(d).Some? {
        NextDayOrdinal(d);
        AddDaysOrdinal(NextDay(d).value, n - 1);
      }
    } else if n < 0 {
      if PrevDay(d).Some? {
        PrevDayOrdinal(d);
        AddDaysOrdinal(PrevDay(d).value, n + 1);
      }
    }
  }

  /** The date `n` days later, if it exists, is unique: days line up one to one with ordinals. */
  lemma AddDaysFromOrdinal(d: Date, n: int, e: Date)
    requires ValidDate(d) && ValidDate(e) && Ordinal(e) == Ordinal(d) + n
    ensures AddDays(d, n) == Some(e)
  {
    OrdinalOrder(e, LastDate);
    OrdinalOrder(FirstDate, e);
    AddDaysOrdinal(d, n);
    OrdinalOrder(AddDays(d, n).value, e);
  }

  // ---------------------------------------------------------------------
  // Steps within and across a month

  /** Moving forward or backward inside a month only changes the day. */
  lemma AddDaysWithinMonth(d: Date, n: int)
    requires ValidDate(d) && 1 <= d.day + n <= DaysInMonth(d.year, d.month)
    ensures AddDays(d, n) == Some(Date(d.year, d.month, d.day + n))
  {
    var e := Date(d.year, d.month, d.day + n);
    AddDaysFromOrdinal(d, n, e);
  }

  /** The month after `(y, m)`; `None` after December 9999. */
  function NextMonth(y: int, m: int): (r: Option<(int, int)>)
    requires 1 <= m <= 12
  {
    if m < 12 then Some((y, m + 1))
    else if y < MaxYear then Some((y + 1, 1))
    else None
  }

  lemma NextMonthFirstDay(y: int, m: int)
    requires MinYear <= y <= MaxYear && 1 <= m <= 12 && NextMonth(y, m).Some?
    ensures var (y', m') := NextMonth(y, m).value;
      AddDays(Date(y, m, DaysInMonth(y, m)), 1) == Some(Date(y', m', 1))
  {
    var d := Date(y, m, DaysInMonth(y, m));
    assert AddDays(d, 1) == AddDays(NextDay(d).value, 0);
  }

  /**
   * `month_start.replace(day=28) + timedelta(days=4)` lands on day
   * `32 - last` of the next month, where `last` is the month's length;
   * the addition raises only in December 9999.
   */
  lemma Day28Plus4(y: int, m: int)
    requires MinYear <= y <= MaxYear && 1 <= m <= 12
    ensures NextMonth(y, m).None? <==> AddDays(Date(y, m, 28), 4).None?
    ensures NextMonth(y, m).Some? ==>
      var (y', m') := NextMonth(y, m).value;
      AddDays(Date(y, m, 28), 4) == Some(Date(y', m', 32 - DaysInMonth(y, m)))
  {
    var d := Date(y, m, 28);
    var last := Date(y, m, DaysInMonth(y, m));
    AddDaysWithinMonth(d, DaysInMonth(y, m) - 28);
    AddDaysOrdinal(d, 4);
    if NextMonth(y, m).Some? {
      var (y', m') := NextMonth(y, m).value;
      var e := Date(y', m', 32 - DaysInMonth(y, m));
      NextMonthFirstDay(y, m);
      AddDaysOrdinal(last, 1);
      AddDaysWithinMonth(Date(y', m', 1), 31 - DaysInMonth(y, m));
      AddDaysFromOrdinal(d, 4, e);
    } else {
      AddDaysOrdinal(last, 4 - (DaysInMonth(y, m) - 28));
      assert last == LastDate;
    }
  }

  /**
   * The trick of app.py:153-154: going back from that day by its own day
   * number gives the last day of the original month.
   */
  lemma MonthEndTrick(y: int, m: int)
    requires MinYear <= y <= MaxYear && 1 <= m <= 12 && NextMonth(y, m).Some?
    ensures var next := AddDays(Date(y, m, 28), 4).value;
      AddDays(next, -next.day) == Some(Date(y, m, DaysInMonth(y, m)))
  {
    Day28Plus4(y, m);
    var (y', m') := NextMonth(y, m).value;
    var next := Date(y', m', 32 - DaysInMonth(y, m));
    var last := Date(y, m, DaysInMonth(y, m));
    NextMonthFirstDay(y, m);
    AddDaysOrdinal(last, 1);
    AddDaysWithinMonth(next, 1 - next.day);
    AddDaysFromOrdinal(next, -next.day, last);
  }

  // ---------------------------------------------------------------------
  // Months in sequence

  /** Months counted from January of year 0. */
  function MonthIndex(d: Date): (r: int) {
    12 * d.year + d.month - 1
  }

  /** The first day of the month with index `k`. */
  function MonthStart(k: int): (r: Date) {
    Date(k / 12, k % 12 + 1, 1)
  }

  lemma MonthStartIndex(k: int)
    ensures MonthIndex(MonthStart(k)) == k
    ensures k / 12 >= MinYear && k / 12 <= MaxYear ==> ValidDate(MonthStart(k))
  {
  }

  /** A month index gives back its year and month. */
  lemma MonthIndexParts(d: Date)
    requires 1 <= d.month <= 12
    ensures MonthIndex(d) / 12 == d.year && MonthIndex(d) % 12 + 1 == d.month
  {
  }

  /** Dates are ordered no later than their month order. */
  lemma MonthIndexMonotone(a: Date, b: Date)
    requires !Before(b, a) && 1 <= a.month <= 12 && 1 <= b.month <= 12
    ensures MonthIndex(a) <= MonthIndex(b)
  {
  }

  // ---------------------------------------------------------------------
  // strftime("%Y-%m-%d")

  function DigitChar(n: int): (c: char)
    requires 0 <= n < 10
    ensures IsDigit(c)
  {
    ('0' as int + n) as char
  }

  function Pow10(w: nat): (r: nat) {
    if w == 0 then 1 else 10 * Pow10(w - 1)
  }

  /** The number a string of decimal digits spells, most significant digit first. */
  function DecimalValue(s: string): (r: int)
  {
    if s == [] then 0 else 10 * DecimalValue(s[..|s| - 1]) + (s[|s| - 1] as int - '0' as int)
  }

  /** `n` written in decimal with `w` digits, zero-padded on the left. */
  function Pad(n: nat, w: nat): (r: string)
    ensures |r| == w
    ensures forall i :: 0 <= i < |r| ==> IsDigit(r[i])
  {
    if w == 0 then [] else Pad(n / 10, w - 1) + [DigitChar(n % 10)]
  }

  /** The padded digits spell `n` whenever `n` has at most `w` digits. */
  lemma {:induction false} PadValue(n: nat, w: nat)
    requires n < Pow10(w)
    ensures DecimalValue(Pad(n, w)) == n
  {
    if w > 0 {
      PadValue(n / 10, w - 1);
      var s := Pad(n, w);
      assert s[..|s| - 1] == Pad(n / 10, w - 1);
    }
  }

  /** `%Y-%m-%d` with a four-digit year. */
  function FormatDate(d: Date): (r: string)
    requires ValidDate(d)
  {
    Pad(d.year, 4) + ("-" + (Pad(d.month, 2) + ("-" + Pad(d.day, 2))))
  }

  /**
   * The formatted date spells the date: ten characters, the year in the
   * first four, `-`, the month in two, `-`, the day in two.
   */
  lemma FormatDateFields(d: Date)
    requires ValidDate(d)
    ensures var s := FormatDate(d);
      && |s| == 10 && s[4] == '-' && s[7] == '-'
      && DecimalValue(s[..4]) == d.year && DecimalValue(s[5..7]) == d.month && DecimalValue(s[8..]) == d.day
  {
    assert Pow10(2) == 100 && Pow10(4) == 10000;
    DateLayout(Pad(d.year, 4), Pad(d.month, 2), Pad(d.day, 2));
    PadValue(d.year, 4);
    PadValue(d.month, 2);
    PadValue(d.day, 2);
  }

  /** Where the fields sit in `y-m-d` for a four-character `y` and two-character `m` and `d`. */
  lemma DateLayout(y: string, m: string, d: string)
    requires |y| == 4 && |m| == 2 && |d| == 2
    ensures var s := y + ("-" + (m + ("-" + d)));
      && |s| == 10 && s[4] == '-' && s[7] == '-'
      && s[..4] == y && s[5..7] == m && s[8..] == d
  {
  }

  /** Comparing two strings of equal length, then the rest. */
  lemma {:induction false} StrLtConcat(a: string, s: string, b: string, t: string)
    requires |a| == |b|
    ensures StrLt(a + s, b + t) <==> StrLt(a, b) || (a == b && StrLt(s, t))
  {
    if a != [] {
      assert (a + s)[1..] == a[1..] + s && (a + s)[0] == a[0];
      assert (b + t)[1..] == b[1..] + t && (b + t)[0] == b[0];
      StrLtConcat(a[1..], s, b[1..], t);
      if a[0] == b[0] {
        assert a == [a[0]] + a[1..] && b == [b[0]] + b[1..];
        assert a[1..] == b[1..] ==> a == b;
      }
    } else {
      assert a + s == s && b + t == t;
    }
  }

  lemma DigitCharOrder(x: int, y: int)
    requires 0 <= x < 10 && 0 <= y < 10
    ensures DigitChar(x) < DigitChar(y) <==> x < y
    ensures DigitChar(x) == DigitChar(y) <==> x == y
  {
  }

  /** Zero-padded numbers of the same width compare as strings as they do as numbers. */
  lemma {:induction false} PadOrder(x: nat, y: nat, w: nat)
    requires x < Pow10(w) && y < Pow10(w)
    ensures StrLt(Pad(x, w), Pad(y, w)) <==> x < y
    ensures Pad(x, w) == Pad(y, w) <==> x == y
  {
    if w > 0 {
      PadOrder(x / 10, y / 10, w - 1);
      DigitCharOrder(x % 10, y % 10);
      StrLtConcat(Pad(x / 10, w - 1), [DigitChar(x % 10)], Pad(y / 10, w - 1), [DigitChar(y % 10)]);
      var px, py := Pad(x, w), Pad(y, w);
      assert px == Pad(x / 10, w - 1) + [DigitChar(x % 10)];
      if px == py {
        assert px[..w - 1] == Pad(x / 10, w - 1) && py[..w - 1] == Pad(y / 10, w - 1);
        assert px[w - 1] == DigitChar(x % 10) && py[w - 1] == DigitChar(y % 10);
      }
      assert x == 10 * (x / 10) + x % 10 && y == 10 * (y / 10) + y % 10;
    } else {
      StrLtIrreflexive([]);
    }
  }

  /** Formatted dates compare as strings exactly as the dates compare. */
  lemma FormatOrder(a: Date, b: Date)
    requires ValidDate(a) && ValidDate(b)
    ensures StrLt(FormatDate(a), FormatDate(b)) <==> Before(a, b)
    ensures FormatDate(a) == FormatDate(b) <==> a == b
  {
    assert Pow10(2) == 100 && Pow10(4) == 10000;
    PadOrder(a.year, b.year, 4);
    PadOrder(a.month, b.month, 2);
    PadOrder(a.day, b.day, 2);
    var ra := "-" + (Pad(a.month, 2) + ("-" + Pad(a.day, 2)));
    var rb := "-" + (Pad(b.month, 2) + ("-" + Pad(b.day, 2)));
    StrLtConcat(Pad(a.year, 4), ra, Pad(b.year, 4), rb);
    StrLtConcat("-", Pad(a.month, 2) + ("-" + Pad(a.day, 2)), "-", Pad(b.month, 2) + ("-" + Pad(b.day, 2)));
    StrLtConcat(Pad(a.month, 2), "-" + Pad(a.day, 2), Pad(b.month, 2), "-" + Pad(b.day, 2));
    StrLtConcat("-", Pad(a.day, 2), "-", Pad(b.day, 2));
    StrLtIrreflexive("-");
    if FormatDate(a) == FormatDate(b) {
      assert FormatDate(a)[..4] == Pad(a.year, 4) && FormatDate(b)[..4] == Pad(b.year, 4);
      assert FormatDate(a)[5..7] == Pad(a.month, 2) && FormatDate(b)[5..7] == Pad(b.month, 2);
      assert FormatDate(a)[8..] == Pad(a.day, 2) && FormatDate(b)[8..] == Pad(b.day, 2);
    }
  }
}
