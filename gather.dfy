/**
 * `gather_hotel_data`: one task per (hotel, date range), hotel-major; the
 * concurrent run is replaced by its result list, one outcome per task in
 * task order (what `asyncio.gather(..., return_exceptions=True)` yields),
 * and the outcomes are folded into one frame: raised tasks and empty
 * frames are dropped and the rest are concatenated in order.
 *
 * A frame is its sequence of records; `Raised` stands for an exception
 * object in the result list.
 */
module Gather {
  import opened Common
  import opened HotelPage
  import opened BookingUrl

  /** The arguments of one `get_hotel_details_async` call that vary between tasks. */
  datatype Task = Task(hotel: string, checkIn: string, checkOut: string)

  datatype TaskResult = Raised | Frame(rows: seq<Record>)

  /** The URL a task fetches. */
  function TaskUrl(t: Task, country: string, currency: string): (r: string) {
    HotelUrl(country, t.hotel, t.checkIn, t.checkOut, currency)
  }

  /**
   * `get_hotel_details_async` after the fetch: an empty body (`""`, which
   * is also what a failed fetch returns) gives an empty frame, any other
   * body the records of its page.
   */
  function HotelDetails(body: Option<Page>, t: Task, country: string, currency: string): (r: TaskResult)
    ensures r.Frame?
    ensures body.None? ==> r.rows == []
    ensures body.Some? ==> forall x :: x in r.rows ==> x.url == TaskUrl(t, country, currency) && x.checkIn == t.checkIn
  {
    match body
    case None => Frame([])
    case Some(page) =>
      var rows := PageRecords(page, t.hotel, t.checkIn, t.checkOut, TaskUrl(t, country, currency));
      assert forall x :: x in rows ==> x.url == TaskUrl(t, country, currency) && x.checkIn == t.checkIn by {
        forall x | x in rows
          ensures x.url == TaskUrl(t, country, currency) && x.checkIn == t.checkIn
        {
          PageRecordsShape(page, t.hotel, t.checkIn, t.checkOut, TaskUrl(t, country, currency), x);
        }
      }
      Frame(rows)
  }

  /** The tasks of one hotel, one per date range, in range order. */
  function HotelTasks(hotel: string, ranges: seq<(string, string)>): (r: seq<Task>)
    ensures |r| == |ranges|
    ensures forall j :: 0 <= j < |ranges| ==> r[j] == Task(hotel, ranges[j].0, ranges[j].1)
  {
    if ranges == [] then []
    else HotelTasks(hotel, ranges[..|ranges| - 1]) + [Task(hotel, ranges[|ranges| - 1].0, ranges[|ranges| - 1].1)]
  }

  /** All tasks, hotel by hotel. */
  function TasksOf(hotels: seq<string>, ranges: seq<(string, string)>): (r: seq<Task>) {
    if hotels == [] then []
    else TasksOf(hotels[..|hotels| - 1], ranges) + HotelTasks(hotels[|hotels| - 1], ranges)
  }

  /** `i` rows of `n` end no later than `m` rows when `i < m`. */
  lemma {:induction false} RowsBefore(i: nat, m: nat, n: nat)
    requires i < m
    ensures i * n + n <= m * n
  {
    if m > i + 1 {
      RowsBefore(i, m - 1, n);
    }
  }

  /** There is one task per (hotel, range) pair. */
  lemma {:induction false} TasksOfLength(hotels: seq<string>, ranges: seq<(string, string)>)
    ensures |TasksOf(hotels, ranges)| == |hotels| * |ranges|
  {
    if hotels != [] {
      var init := hotels[..|hotels| - 1];
      TasksOfLength(init, ranges);
      NextRow(|init|, |ranges|);
    }
  }

  lemma NextRow(m: nat, n: nat)
    ensures m * n + n == (m + 1) * n
  {
  }

  /** The task of the `i`-th hotel and the `j`-th range is at position `i * |ranges| + j`. */
  lemma {:induction false} TaskAt(hotels: seq<string>, ranges: seq<(string, string)>, i: nat, j: nat)
    requires i < |hotels| && j < |ranges|
    ensures i * |ranges| + j < |TasksOf(hotels, ranges)|
    ensures TasksOf(hotels, ranges)[i * |ranges| + j] == Task(hotels[i], ranges[j].0, ranges[j].1)
  {
    var init := hotels[..|hotels| - 1];
    var n := |ranges|;
    TasksOfLength(init, ranges);
    TasksOfLength(hotels, ranges);
    if i < |init| {
      TaskAt(init, ranges, i, j);
      RowsBefore(i, |init|, n);
      assert hotels[i] == init[i];
    }
  }

  /** Position `k` of `m` rows of `n` is column `k % n` of row `k / n`. */
  lemma {:induction false} RowColumn(k: nat, m: nat, n: nat)
    requires k < m * n
    ensures n > 0 && k / n < m && k == k / n * n + k % n
  {
    PositiveFactor(m, n);
    var i := k / n;
    if i >= m {
      if i > m {
        RowsBefore(m, i, n);
      }
    }
  }

  lemma PositiveFactor(a: nat, b: nat)
    requires a * b > 0
    ensures b > 0
  {
  }

  /** Every task is the task of some hotel and some range, at its hotel-major position. */
  lemma {:induction false} TaskIndex(hotels: seq<string>, ranges: seq<(string, string)>, k: nat)
    requires k < |TasksOf(hotels, ranges)|
    ensures |ranges| > 0
    ensures var i, j := k / |ranges|, k % |ranges|;
      && 0 <= i < |hotels| && 0 <= j < |ranges| && k == i * |ranges| + j
      && TasksOf(hotels, ranges)[k] == Task(hotels[i], ranges[j].0, ranges[j].1)
  {
    TasksOfLength(hotels, ranges);
    var i, j := RowColumnOf(k, |hotels|, |ranges|);
    TaskAtPosition(hotels, ranges, k, i, j);
  }

  lemma RowColumnOf(k: nat, m: nat, n: nat) returns (i: nat, j: nat)
    requires k < m * n
    ensures n > 0 && i == k / n && j == k % n && i < m && j < n && k == i * n + j
  {
    RowColumn(k, m, n);
    i, j := k / n, k % n;
  }

  lemma TaskAtPosition(hotels: seq<string>, ranges: seq<(string, string)>, k: nat, i: nat, j: nat)
    requires i < |hotels| && j < |ranges| && k == i * |ranges| + j
    ensures k < |TasksOf(hotels, ranges)| && TasksOf(hotels, ranges)[k] == Task(hotels[i], ranges[j].0, ranges[j].1)
  {
    TaskAt(hotels, ranges, i, j);
  }

  /** The nested loops that build `tasks`. */
  method BuildTasks(hotels: seq<string>, ranges: seq<(string, string)>) returns (tasks: seq<Task>)
    ensures tasks == TasksOf(hotels, ranges)
  {
    tasks := [];
    for i := 0 to |hotels|
      invariant tasks == TasksOf(hotels[..i], ranges)
    {
      assert hotels[..i + 1][..i] == hotels[..i];
      for j := 0 to |ranges|
        invariant tasks == TasksOf(hotels[..i], ranges) + HotelTasks(hotels[i], ranges[..j])
      {
        assert ranges[..j + 1][..j] == ranges[..j];
        tasks := tasks + [Task(hotels[i], ranges[j].0, ranges[j].1)];
      }
      assert ranges[..|ranges|] == ranges;
    }
    assert hotels[..|hotels|] == hotels;
  }

  /** The frames that are kept: results that are frames with at least one row, in order. */
  function ValidFrames(results: seq<TaskResult>): (r: seq<seq<Record>>) {
    if results == [] then []
    else
      var last := results[|results| - 1];
      ValidFrames(results[..|results| - 1]) + (if last.Frame? && last.rows != [] then [last.rows] else [])
  }

  function Concat(frames: seq<seq<Record>>): (r: seq<Record>) {
    if frames == [] then [] else Concat(frames[..|frames| - 1]) + frames[|frames| - 1]
  }

  /** The final `pd.concat(valid_dfs) if valid_dfs else pd.DataFrame()`. */
  function Collected(results: seq<TaskResult>): (r: seq<Record>) {
    Concat(ValidFrames(results))
  }

  /** The rows of every frame, the empty ones included, in order. */
  function AllFrameRows(results: seq<TaskResult>): (r: seq<Record>) {
    if results == [] then []
    else
      var last := results[|results| - 1];
      AllFrameRows(results[..|results| - 1]) + (if last.Frame? then last.rows else [])
  }

  /** The loop that builds `valid_dfs`, then the concatenation. */
  method CollectResults(results: seq<TaskResult>) returns (r: seq<Record>)
    ensures r == Collected(results)
  {
    var validDfs: seq<seq<Record>> := [];
    for i := 0 to |results|
      invariant validDfs == ValidFrames(results[..i])
    {
      assert results[..i + 1][..i] == results[..i];
      var result := results[i];
      if result.Raised? {
        // the exception is reported and the task dropped
      } else if result.rows != [] {
        validDfs := validDfs + [result.rows];
      }
    }
    assert results[..|results|] == results;
    r := [];
    for i := 0 to |validDfs|
      invariant r == Concat(validDfs[..i])
    {
      assert validDfs[..i + 1][..i] == validDfs[..i];
      r := r + validDfs[i];
    }
    assert validDfs[..|validDfs|] == validDfs;
  }

  /**
   * `gather_hotel_data` with the concurrent run as an oracle: `fetch(k, t)`
   * is the outcome of the `k`-th task `t`.
   */
  method GatherHotelData(hotels: seq<string>, ranges: seq<(string, string)>, fetch: (nat, Task) -> TaskResult)
    returns (r: seq<Record>)
    ensures r == Collected(Outcomes(TasksOf(hotels, ranges), fetch))
  {
    var tasks := BuildTasks(hotels, ranges);
    var results := Outcomes(tasks, fetch);
    r := CollectResults(results);
  }

  /** The result list of `asyncio.gather`: one outcome per task, in task order. */
  function Outcomes(tasks: seq<Task>, fetch: (nat, Task) -> TaskResult): (r: seq<TaskResult>)
    ensures |r| == |tasks| && forall k :: 0 <= k < |tasks| ==> r[k] == fetch(k, tasks[k])
  {
    seq(|tasks|, k requires 0 <= k < |tasks| => fetch(k, tasks[k]))
  }

  // ---------------------------------------------------------------------
  // Properties

  lemma {:induction false} ConcatAppend(a: seq<seq<Record>>, b: seq<seq<Record>>)
    ensures Concat(a + b) == Concat(a) + Concat(b)
    decreases |b|
  {
    if b == [] {
      assert a + b == a;
    } else {
      assert (a + b)[..|a + b| - 1] == a + b[..|b| - 1];
      ConcatAppend(a, b[..|b| - 1]);
    }
  }

  /** Dropping the empty frames does not change the rows: the result is every frame's rows in order. */
  lemma {:induction false} CollectedIsAllRows(results: seq<TaskResult>)
    ensures Collected(results) == AllFrameRows(results)
  {
    if results != [] {
      var init := results[..|results| - 1];
      var last := results[|results| - 1];
      CollectedIsAllRows(init);
      var tail := if last.Frame? && last.rows != [] then [last.rows] else [];
      ConcatAppend(ValidFrames(init), tail);
      if tail != [] {
        assert Concat(tail) == Concat([]) + last.rows;
      }
    }
  }

  /** A record is collected exactly when some frame in the result list holds it. */
  lemma {:induction false} CollectedMembers(results: seq<TaskResult>, x: Record)
    ensures x in Collected(results) <==> exists k :: 0 <= k < |results| && results[k].Frame? && x in results[k].rows
  {
    CollectedIsAllRows(results);
    AllFrameRowsMembers(results, x);
  }

  lemma {:induction false} AllFrameRowsMembers(results: seq<TaskResult>, x: Record)
    ensures x in AllFrameRows(results) <==> exists k :: 0 <= k < |results| && results[k].Frame? && x in results[k].rows
  {
    if results != [] {
      var init := results[..|results| - 1];
      AllFrameRowsMembers(init, x);
      if exists k :: 0 <= k < |results| && results[k].Frame? && x in results[k].rows {
        var k :| 0 <= k < |results| && results[k].Frame? && x in results[k].rows;
        if k < |init| {
          assert init[k] == results[k];
        }
      }
      if x in AllFrameRows(init) {
        var k :| 0 <= k < |init| && init[k].Frame? && x in init[k].rows;
        assert results[k] == init[k];
      }
    }
  }

  /** The result is empty exactly when every task raised or returned an empty frame. */
  lemma CollectedEmpty(results: seq<TaskResult>)
    ensures Collected(results) == [] <==> forall k :: 0 <= k < |results| ==> results[k].Raised? || results[k].rows == []
  {
    if Collected(results) == [] {
      forall k | 0 <= k < |results| && results[k].Frame? && results[k].rows != []
        ensures false
      {
        CollectedMembers(results, results[k].rows[0]);
      }
    }
    if Collected(results) != [] {
      CollectedMembers(results, Collected(results)[0]);
    }
  }

  /**
   * A record of the gathered result comes from the outcome of the task of
   * some hotel and some date range, at that task's position.
   */
  lemma GatheredFrom(hotels: seq<string>, ranges: seq<(string, string)>, fetch: (nat, Task) -> TaskResult, x: Record)
    requires x in Collected(Outcomes(TasksOf(hotels, ranges), fetch))
    ensures exists i, j ::
              && 0 <= i < |hotels| && 0 <= j < |ranges|
              && fetch(i * |ranges| + j, Task(hotels[i], ranges[j].0, ranges[j].1)).Frame?
              && x in fetch(i * |ranges| + j, Task(hotels[i], ranges[j].0, ranges[j].1)).rows
  {
    var tasks := TasksOf(hotels, ranges);
    var results := Outcomes(tasks, fetch);
    CollectedMembers(results, x);
    var k :| 0 <= k < |results| && results[k].Frame? && x in results[k].rows;
    var i, j := OutcomeAt(hotels, ranges, fetch, k);
  }

  /** The `k`-th outcome is the outcome of the task of hotel `i` and range `j`, at position `i * |ranges| + j`. */
  lemma OutcomeAt(hotels: seq<string>, ranges: seq<(string, string)>, fetch: (nat, Task) -> TaskResult, k: nat)
    returns (i: nat, j: nat)
    requires k < |TasksOf(hotels, ranges)|
    ensures i < |hotels| && j < |ranges|
    ensures Outcomes(TasksOf(hotels, ranges), fetch)[k]
      == fetch(i * |ranges| + j, Task(hotels[i], ranges[j].0, ranges[j].1))
  {
    TasksOfLength(hotels, ranges);
    i, j := RowColumnOf(k, |hotels|, |ranges|);
    TaskAtPosition(hotels, ranges, k, i, j);
  }

  /**
   * When every task's outcome is `get_hotel_details_async` on the body
   * fetched for it, each gathered record carries the URL and the check-in
   * date of the task of some hotel and some date range.
   */
  lemma GatheredDetails(hotels: seq<string>, ranges: seq<(string, string)>, country: string, currency: string,
                        bodies: (nat, Task) -> Option<Page>, x: Record)
    requires x in Collected(Outcomes(TasksOf(hotels, ranges),
                                     (k: nat, t: Task) => HotelDetails(bodies(k, t), t, country, currency)))
    ensures exists i, j ::
              && 0 <= i < |hotels| && 0 <= j < |ranges|
              && x.url == HotelUrl(country, hotels[i], ranges[j].0, ranges[j].1, currency)
              && x.checkIn == ranges[j].0
  {
    var fetch := (k: nat, t: Task) => HotelDetails(bodies(k, t), t, country, currency);
    var tasks := TasksOf(hotels, ranges);
    var results := Outcomes(tasks, fetch);
    CollectedMembers(results, x);
    var k :| 0 <= k < |results| && results[k].Frame? && x in results[k].rows;
    TasksOfLength(hotels, ranges);
    var i, j := RowColumnOf(k, |hotels|, |ranges|);
    TaskAtPosition(hotels, ranges, k, i, j);
    var t := Task(hotels[i], ranges[j].0, ranges[j].1);
    assert results[k] == HotelDetails(bodies(k, t), t, country, currency);
    assert x.url == TaskUrl(t, country, currency) && x.checkIn == t.checkIn;
  }
}
