/**
 * `generate_date_ranges`: from `start` until `start + delta` days, one
 * week-long stay per calendar month, whose check-in day is drawn with
 * `random.randint(1, max(1, last - 7))`, `last` being the month's length.
 *
 * The draws are an oracle `randint(k, a, b)`: the value the `k`-th call
 * `random.randint(a, b)` returns, assumed to lie within its bounds.
 * Python's `OverflowError` (a date beyond 9999-12-31 or before
 * 0001-01-01) is the outcome `Overflow`.
 */
module DateRanges {
  import opened Common
  import opened Calendar

  type Oracle = (nat, int, int) -> int

  /** `random.randint(a, b)` returns a value in `[a, b]`. */
  ghost predicate OracleInBounds(randint: Oracle) {
    forall k: nat, a: int, b: int :: a <= b ==> a <= randint(k, a, b) <= b
  }

  datatype Outcome = Ok(ranges: seq<(string, string)>) | Overflow

  function Max(a: int, b: int): (r: int) {
    if a >= b then a else b
  }

  /** The length of the month with index `mi`. */
  function LastDayOf(mi: int): (r: int) {
    DaysInMonth(mi / 12, mi % 12 + 1)
  }

  /** The check-in day drawn in the `k`-th iteration for month `mi` (app.py:157). */
  function DrawnDay(randint: Oracle, k: nat, mi: int): (r: int) {
    randint(k, 1, Max(1, LastDayOf(mi) - 7))
  }

  /**
   * The number of calendar months holding a day of `[start, end)`: from
   * the month of `start` to the month of the day before `end`.
   */
  function Touched(start: Date, end: Date): (r: nat)
    requires ValidDate(start) && ValidDate(end)
  {
    if Before(start, end) then
      var last := PrevDay(end).value;
      OrdinalOrder(last, start);
      PrevDayOrdinal(end);
      OrdinalOrder(start, end);
      MonthIndexMonotone(start, last);
      MonthIndex(last) - MonthIndex(start) + 1
    else 0
  }

  /** The horizon reaches into December 9999, where `replace(day=28) + 4 days` overflows. */
  predicate TouchesLastMonth(start: Date, end: Date)
    requires ValidDate(start) && ValidDate(end)
  {
    Touched(start, end) > 0 && MonthIndex(start) + Touched(start, end) - 1 == MonthIndex(LastDate)
  }

  /**
   * `p` is the stay in month `mi` that checks in on `day`: a valid day at
   * least seven days before the month's end, and a check-out on the day
   * seven days later in the same month, both written `%Y-%m-%d`.
   */
  predicate IsRangeFor(p: (string, string), mi: int, day: int) {
    var y, m := mi / 12, mi % 12 + 1;
    && ValidDate(Date(y, m, day))
    && day + 7 <= DaysInMonth(y, m)
    && p == (FormatDate(Date(y, m, day)), FormatDate(Date(y, m, day + 7)))
  }

  /** `rs[j]` is the range for the `j`-th month from `mi0`, with the `j`-th draw. */
  predicate RangesFrom(rs: seq<(string, string)>, mi0: int, randint: Oracle) {
    forall j :: 0 <= j < |rs| ==> IsRangeFor(rs[j], mi0 + j, DrawnDay(randint, j, mi0 + j))
  }

  lemma RangesFromAppend(rs: seq<(string, string)>, p: (string, string), mi0: int, randint: Oracle)
    requires RangesFrom(rs, mi0, randint)
    requires IsRangeFor(p, mi0 + |rs|, DrawnDay(randint, |rs|, mi0 + |rs|))
    ensures RangesFrom(rs + [p], mi0, randint)
  {
    assert forall j :: 0 <= j < |rs| ==> (rs + [p])[j] == rs[j];
  }

  /** The first day of a month is before `end` exactly when the month holds a day before `end`. */
  lemma FirstOfMonthBefore(c: Date, end: Date)
    requires ValidDate(c) && c.day == 1 && ValidDate(end) && end != FirstDate
    ensures Before(c, end) <==> MonthIndex(c) <= MonthIndex(PrevDay(end).value)
  {
    var p := PrevDay(end).value;
    PrevDayNext(end);
  }

  /** A stay from `day` to `day + 7` in the month of `c` is the range for that month. */
  lemma RangeInMonth(c: Date, day: int, mi: int, p: (string, string))
    requires ValidDate(c) && 1 <= day <= DaysInMonth(c.year, c.month) - 7 && mi == MonthIndex(c)
    requires p == (FormatDate(Date(c.year, c.month, day)), FormatDate(Date(c.year, c.month, day + 7)))
    ensures IsRangeFor(p, mi, day)
  {
    MonthIndexParts(c);
  }

  /** One iteration of the loop body for the month of `current` (app.py:152-159, 162). */
  lemma MonthStep(current: Date, day: int)
    requires ValidDate(current) && NextMonth(current.year, current.month).Some?
    requires 1 <= day <= DaysInMonth(current.year, current.month) - 7
    ensures var next := AddDays(Date(current.year, current.month, 28), 4);
      && next.Some?
      && AddDays(next.value, -next.value.day) == Some(Date(current.year, current.month, DaysInMonth(current.year, current.month)))
    ensures AddDays(Date(current.year, current.month, day), 7) == Some(Date(current.year, current.month, day + 7))
    ensures var (y', m') := NextMonth(current.year, current.month).value;
      AddDays(Date(current.year, current.month, DaysInMonth(current.year, current.month)), 1) == Some(Date(y', m', 1))
  {
    Day28Plus4(current.year, current.month);
    MonthEndTrick(current.year, current.month);
    AddDaysWithinMonth(Date(current.year, current.month, day), 7);
    NextMonthFirstDay(current.year, current.month);
  }

  /** The loop's state before its `k`-th iteration. */
  predicate LoopState(start: Date, end: Date, current: Date, k: nat)
    requires ValidDate(start) && ValidDate(end)
  {
    && ValidDate(current)
    && MonthIndex(current) == MonthIndex(start) + k
    && (k == 0 ==> current == start)
    && (k > 0 ==> current.day == 1)
    && k <= Touched(start, end)
    && (Before(current, end) <==> k < Touched(start, end))
  }

  /** The loop starts in that state. */
  lemma LoopStart(start: Date, end: Date)
    requires ValidDate(start) && ValidDate(end)
    ensures LoopState(start, end, start, 0)
  {
  }

  /** The month-end computation overflows only in the last month of the horizon, December 9999. */
  lemma LoopOverflow(start: Date, end: Date, current: Date, k: nat)
    requires ValidDate(start) && ValidDate(end) && LoopState(start, end, current, k) && Before(current, end)
    requires NextMonth(current.year, current.month).None?
    ensures TouchesLastMonth(start, end)
  {
    var last := PrevDay(end).value;
    assert !Before(LastDate, last);
    MonthIndexMonotone(last, LastDate);
  }

  /** Each iteration moves to the first day of the next month. */
  lemma LoopNext(start: Date, end: Date, current: Date, k: nat)
    requires ValidDate(start) && ValidDate(end) && LoopState(start, end, current, k) && Before(current, end)
    requires NextMonth(current.year, current.month).Some?
    ensures var (y', m') := NextMonth(current.year, current.month).value;
      LoopState(start, end, Date(y', m', 1), k + 1)
  {
    var (y', m') := NextMonth(current.year, current.month).value;
    var next := Date(y', m', 1);
    assert end != FirstDate;
    FirstOfMonthBefore(next, end);
  }

  /** When the loop ends normally, the horizon does not reach December 9999. */
  lemma LoopDone(start: Date, end: Date, current: Date, k: nat)
    requires ValidDate(start) && ValidDate(end) && LoopState(start, end, current, k) && !Before(current, end)
    ensures k == Touched(start, end) && !TouchesLastMonth(start, end)
  {
    assert !Before(LastDate, current);
    MonthIndexMonotone(current, LastDate);
  }

  /**
   * One iteration of the loop of `generate_date_ranges`, the `k`-th, for
   * the month of `current`: the stay it appends and the first day of the
   * next month, or `None` where `replace(day=28) + 4 days` overflows.
   */
  method MonthStay(current: Date, k: nat, randint: Oracle) returns (r: Option<((string, string), Date)>)
    requires ValidDate(current) && OracleInBounds(randint)
    ensures r.None? <==> NextMonth(current.year, current.month).None?
    ensures r.Some? ==>
      && IsRangeFor(r.value.0, MonthIndex(current), DrawnDay(randint, k, MonthIndex(current)))
      && Some((r.value.1.year, r.value.1.month)) == NextMonth(current.year, current.month)
      && r.value.1.day == 1
  {
    var monthStart := Date(current.year, current.month, 1);
    var nextMonth := AddDays(Date(monthStart.year, monthStart.month, 28), 4);
    Day28Plus4(current.year, current.month);
    if nextMonth.None? {
      return None;
    }
    MonthStep(current, 1);
    var monthEnd := AddDays(nextMonth.value, -nextMonth.value.day).value;
    var startDay := randint(k, 1, Max(1, monthEnd.day - 7));
    var rangeStart := Date(monthStart.year, monthStart.month, startDay);
    MonthIndexParts(current);
    assert startDay == DrawnDay(randint, k, MonthIndex(current));
    MonthStep(current, startDay);
    var rangeEnd := AddDays(rangeStart, 7).value;
    var stay := (FormatDate(rangeStart), FormatDate(rangeEnd));
    RangeInMonth(current, startDay, MonthIndex(current), stay);
    r := Some((stay, AddDays(monthEnd, 1).value));
  }

  /**
   * The `while` loop of `generate_date_ranges`: one pair per month that
   * holds a day of `[start, start + delta)`, in month order, with the
   * `k`-th draw for the `k`-th month; `Overflow` when `start + delta` is
   * out of range or the horizon reaches December 9999.
   */
  method GenerateDateRanges(start: Date, delta: int, randint: Oracle) returns (r: Outcome)
    requires ValidDate(start) && OracleInBounds(randint)
    ensures r.Overflow? <==> AddDays(start, delta).None? || TouchesLastMonth(start, AddDays(start, delta).value)
    ensures r.Ok? ==>
      && |r.ranges| == Touched(start, AddDays(start, delta).value)
      && RangesFrom(r.ranges, MonthIndex(start), randint)
  {
    var endDate := AddDays(start, delta);
    if endDate.None? {
      return Overflow;
    }
    var end := endDate.value;
    var dateRanges: seq<(string, string)> := [];
    var current := start;
    var k: nat := 0;
    LoopStart(start, end);
    while Before(current, end)
      invariant LoopState(start, end, current, k)
      invariant |dateRanges| == k
      invariant RangesFrom(dateRanges, MonthIndex(start), randint)
      decreases Touched(start, end) - k
    {
      var step := MonthStay(current, k, randint);
      if step.None? {
        LoopOverflow(start, end, current, k);
        return Overflow;
      }
      RangesFromAppend(dateRanges, step.value.0, MonthIndex(start), randint);
      dateRanges := dateRanges + [step.value.0];
      LoopNext(start, end, current, k);
      current := step.value.1;
      k := k + 1;
    }
    LoopDone(start, end, current, k);
    r := Ok(dateRanges);
  }

  // ---------------------------------------------------------------------
  // Properties

  /** A later month index means a later date. */
  lemma MonthBefore(a: Date, b: Date)
    requires 1 <= a.month <= 12 && 1 <= b.month <= 12 && MonthIndex(a) < MonthIndex(b)
    ensures Before(a, b)
  {
    if !Before(a, b) {
      MonthIndexMonotone(b, a);
    }
  }

  /**
   * The months counted by `Touched` are exactly the months that hold a
   * day of `[start, end)`.
   */
  lemma TouchedMonths(start: Date, end: Date, m: int)
    requires ValidDate(start) && ValidDate(end)
    ensures MonthIndex(start) <= m < MonthIndex(start) + Touched(start, end) <==>
      exists d :: ValidDate(d) && !Before(d, start) && Before(d, end) && MonthIndex(d) == m
  {
    if exists d :: ValidDate(d) && !Before(d, start) && Before(d, end) && MonthIndex(d) == m {
      var d :| ValidDate(d) && !Before(d, start) && Before(d, end) && MonthIndex(d) == m;
      InHorizon(start, end, d);
    }
    if MonthIndex(start) <= m < MonthIndex(start) + Touched(start, end) {
      if m == MonthIndex(start) {
        assert ValidDate(start) && !Before(start, start) && Before(start, end) && MonthIndex(start) == m;
      } else {
        var d := MonthStart(m);
        MonthStartIndex(m);
        MonthInHorizon(start, end, d);
      }
    }
  }

  /** A day of `[start, end)` lies in one of the months counted by `Touched`. */
  lemma InHorizon(start: Date, end: Date, d: Date)
    requires ValidDate(start) && ValidDate(end) && ValidDate(d) && !Before(d, start) && Before(d, end)
    ensures MonthIndex(start) <= MonthIndex(d) < MonthIndex(start) + Touched(start, end)
  {
    var last := PrevDay(end).value;
    OrdinalOrder(d, end);
    PrevDayOrdinal(end);
    OrdinalOrder(last, d);
    MonthIndexMonotone(start, d);
    MonthIndexMonotone(d, last);
  }

  /** Each counted month after the first has its first day in `[start, end)`. */
  lemma MonthInHorizon(start: Date, end: Date, d: Date)
    requires ValidDate(start) && ValidDate(end) && d.day == 1 && 1 <= d.month <= 12
    requires MonthIndex(start) < MonthIndex(d) < MonthIndex(start) + Touched(start, end)
    ensures ValidDate(d) && !Before(d, start) && Before(d, end)
  {
    var last := PrevDay(end).value;
    assert !Before(LastDate, last);
    MonthIndexMonotone(last, LastDate);
    MonthBefore(start, d);
    FirstOfMonthBefore(d, end);
  }

  /**
   * A generated stay checks in on a day of its month at least seven days
   * before the month's end, and checks out `timedelta(days=7)` later, in
   * the same month; the check-out string sorts after the check-in string.
   */
  lemma RangeIsWeek(p: (string, string), mi: int, day: int)
    requires IsRangeFor(p, mi, day)
    ensures var checkIn := Date(mi / 12, mi % 12 + 1, day);
      && 1 <= day <= LastDayOf(mi) - 7
      && AddDays(checkIn, 7) == Some(Date(mi / 12, mi % 12 + 1, day + 7))
      && StrLt(p.0, p.1)
  {
    var checkIn := Date(mi / 12, mi % 12 + 1, day);
    var checkOut := Date(mi / 12, mi % 12 + 1, day + 7);
    AddDaysWithinMonth(checkIn, 7);
    FormatOrder(checkIn, checkOut);
  }

  /**
   * The stays are in strictly increasing month order: each one, check-out
   * included, sorts before the check-in of every later one.
   */
  lemma RangesIncrease(rs: seq<(string, string)>, mi0: int, randint: Oracle, i: int, j: int)
    requires RangesFrom(rs, mi0, randint) && 0 <= i < j < |rs|
    ensures StrLt(rs[i].0, rs[j].0) && StrLt(rs[i].1, rs[j].0)
  {
    PairOrder(rs[i], mi0 + i, DrawnDay(randint, i, mi0 + i), rs[j], mi0 + j, DrawnDay(randint, j, mi0 + j));
  }

  /** The stay of an earlier month sorts before the check-in of a later one. */
  lemma PairOrder(p: (string, string), a: int, da: int, q: (string, string), b: int, db: int)
    requires IsRangeFor(p, a, da) && IsRangeFor(q, b, db) && a < b
    ensures StrLt(p.0, q.0) && StrLt(p.1, q.0)
  {
    var inA := Date(a / 12, a % 12 + 1, da);
    var outA := Date(a / 12, a % 12 + 1, da + 7);
    var inB := Date(b / 12, b % 12 + 1, db);
    MonthStartIndex(a);
    MonthStartIndex(b);
    MonthBefore(outA, inB);
    MonthBefore(inA, inB);
    FormatOrder(outA, inB);
    FormatOrder(inA, inB);
  }

  /** A horizon of no days touches no month, so the generator returns no stays. */
  lemma EmptyHorizon(start: Date, delta: int)
    requires ValidDate(start) && delta <= 0 && AddDays(start, delta).Some?
    ensures Touched(start, AddDays(start, delta).value) == 0
    ensures !TouchesLastMonth(start, AddDays(start, delta).value)
  {
    AddDaysOrdinal(start, delta);
    OrdinalOrder(start, AddDays(start, delta).value);
  }
}
