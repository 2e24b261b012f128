/**
 * The dashboard's statistics (src/component/Dashboard.tsx): status counts, the
 * rounded mean progress and the five nearest upcoming deadlines.
 *
 * Dates are strings in the store; `timeOf` stands for `new Date(s).getTime()`
 * (None for an unparseable string, whose time is NaN) and `now` for `new Date()`.
 */
module Dashboard {
  import opened Wrappers
  import opened TaskTypes

  /** `taskArray.filter(t => t.status === s).length`. */
  function CountStatus(ts: seq<Task>, s: Status): nat {
    |OfStatus(ts, s)|
  }

  /** The four counts add up to the total. */
  lemma CountsAddUp(ts: seq<Task>)
    ensures CountStatus(ts, Completed) + CountStatus(ts, InProgress) + CountStatus(ts, Paused) + CountStatus(ts, Backlog) == |ts|
  {
    StatusGroupsPartition(ts);
  }

  /** `taskArray.reduce((acc, task) => acc + task.progress, 0)`. */
  function SumProgress(ts: seq<Task>): int {
    if ts == [] then 0 else SumProgress(ts[..|ts| - 1]) + ts[|ts| - 1].progress
  }

  /** With every progress in [0, 100], the sum lies in [0, 100 * |ts|]. */
  lemma {:induction false} SumProgressBounds(ts: seq<Task>)
    requires forall t :: t in ts ==> ProgressInRange(t)
    ensures 0 <= SumProgress(ts) <= 100 * |ts|
  {
    if ts != [] {
      assert ts[|ts| - 1] in ts;
      forall t | t in ts[..|ts| - 1] ensures ProgressInRange(t) {
        assert t in ts;
      }
      SumProgressBounds(ts[..|ts| - 1]);
    }
  }

  /**
   * `Math.round(sum / total || 0)`: 0 for an empty collection (0 / 0 is NaN),
   * otherwise the quotient rounded half up, the integer nearest to it.
   */
  function RoundedMean(sum: int, total: nat): (r: int)
    ensures total == 0 ==> r == 0
    ensures total > 0 ==> 2 * total * r <= 2 * sum + total < 2 * total * (r + 1)
  {
    if total == 0 then 0 else (2 * sum + total) / (2 * total)
  }

  /** The sign of a product with a positive factor. */
  lemma MulSign(m: int, x: int)
    requires m > 0
    ensures x > 0 ==> m * x >= m
    ensures x <= 0 ==> m * x <= 0
  {
  }

  /** A mean of values in [0, 100] rounds to a value in [0, 100]. */
  lemma RoundedMeanBounds(sum: int, n: nat)
    requires 0 <= sum <= 100 * n
    ensures 0 <= RoundedMean(sum, n) <= 100
  {
    if n > 0 {
      var r := RoundedMean(sum, n);
      var m := 2 * n;
      MulSign(m, r + 1);
      MulSign(m, r - 100);
      assert m * (r + 1) == m * r + m;
      assert m * (r - 100) == m * r - 100 * m;
    }
  }

  /** With every progress in [0, 100], so is the average. */
  lemma AverageInRange(ts: seq<Task>)
    requires forall t :: t in ts ==> ProgressInRange(t)
    ensures 0 <= RoundedMean(SumProgress(ts), |ts|) <= 100
  {
    SumProgressBounds(ts);
    RoundedMeanBounds(SumProgress(ts), |ts|);
  }

  /** The rounded mean of n copies of p is p. */
  lemma RoundedMeanOfEqual(n: nat, p: int)
    requires n > 0
    ensures RoundedMean(n * p, n) == p
  {
    var r := RoundedMean(n * p, n);
    var m := 2 * n;
    assert m * r <= m * p + n < m * (r + 1);
    MulSign(m, r - p);
    MulSign(m, p - r);
    assert m * (r - p) == m * r - m * p;
    assert m * (p - r) == m * p - m * r;
  }

  /** When every task has the same progress, the average is that progress. */
  lemma AverageOfEqual(ts: seq<Task>, p: int)
    requires |ts| > 0 && forall t :: t in ts ==> t.progress == p
    ensures RoundedMean(SumProgress(ts), |ts|) == p
  {
    SumOfEqual(ts, p);
    RoundedMeanOfEqual(|ts|, p);
  }

  lemma {:induction false} SumOfEqual(ts: seq<Task>, p: int)
    requires forall t :: t in ts ==> t.progress == p
    ensures SumProgress(ts) == |ts| * p
  {
    if ts != [] {
      assert ts[|ts| - 1] in ts;
      forall t | t in ts[..|ts| - 1] ensures t.progress == p {
        assert t in ts;
      }
      SumOfEqual(ts[..|ts| - 1], p);
    }
  }

  /**
   * `t.endDate && new Date(t.endDate) > new Date()`: an empty or absent end date
   * is falsy, and an unparseable one compares false.
   */
  predicate Upcoming(t: Task, timeOf: string -> Option<int>, now: int) {
    && t.endDate.Some? && t.endDate.value != ""
    && timeOf(t.endDate.value).Some? && timeOf(t.endDate.value).value > now
  }

  /** `new Date(t.endDate!).getTime()`, for the tasks that passed the filter. */
  function Deadline(t: Task, timeOf: string -> Option<int>): int {
    if t.endDate.Some? && timeOf(t.endDate.value).Some? then timeOf(t.endDate.value).value else 0
  }

  function FilterUpcoming(ts: seq<Task>, timeOf: string -> Option<int>, now: int): (r: seq<Task>)
    ensures |r| <= |ts|
    ensures forall t :: t in r <==> t in ts && Upcoming(t, timeOf, now)
  {
    if ts == [] then []
    else
      var init := FilterUpcoming(ts[..|ts| - 1], timeOf, now);
      assert ts == ts[..|ts| - 1] + [ts[|ts| - 1]];
      if Upcoming(ts[|ts| - 1], timeOf, now) then init + [ts[|ts| - 1]] else init
  }

  /** The filter distributes over concatenation, so the kept tasks stay in `tasks` order. */
  lemma {:induction false} FilterUpcomingAppend(xs: seq<Task>, ys: seq<Task>, timeOf: string -> Option<int>, now: int)
    ensures FilterUpcoming(xs + ys, timeOf, now) == FilterUpcoming(xs, timeOf, now) + FilterUpcoming(ys, timeOf, now)
  {
    if ys == [] {
      assert xs + ys == xs;
    } else {
      var init, last := ys[..|ys| - 1], ys[|ys| - 1];
      var kept := if Upcoming(last, timeOf, now) then [last] else [];
      FilterUpcomingAppend(xs, init, timeOf, now);
      assert (xs + ys)[..|xs + ys| - 1] == xs + init;
      assert (xs + ys)[|xs + ys| - 1] == last;
      assert FilterUpcoming(xs + ys, timeOf, now) == FilterUpcoming(xs + init, timeOf, now) + kept;
      assert FilterUpcoming(ys, timeOf, now) == FilterUpcoming(init, timeOf, now) + kept;
    }
  }

  ghost predicate SortedByDeadline(ts: seq<Task>, timeOf: string -> Option<int>) {
    forall i, j :: 0 <= i < j < |ts| ==> Deadline(ts[i], timeOf) <= Deadline(ts[j], timeOf)
  }

  /** `t` placed after every element whose deadline is not later: inserting keeps ties in arrival order. */
  function Insert(s: seq<Task>, t: Task, timeOf: string -> Option<int>): (r: seq<Task>)
    ensures |r| == |s| + 1
    ensures multiset(r) == multiset(s) + multiset{t}
  {
    if s == [] || Deadline(s[|s| - 1], timeOf) <= Deadline(t, timeOf) then s + [t]
    else
      var init := s[..|s| - 1];
      assert s == init + [s[|s| - 1]];
      Insert(init, t, timeOf) + [s[|s| - 1]]
  }

  lemma {:induction false} InsertSorted(s: seq<Task>, t: Task, timeOf: string -> Option<int>)
    requires SortedByDeadline(s, timeOf)
    ensures SortedByDeadline(Insert(s, t, timeOf), timeOf)
    ensures forall x :: x in Insert(s, t, timeOf) ==> x in s || x == t
  {
    if s == [] || Deadline(s[|s| - 1], timeOf) <= Deadline(t, timeOf) {
    } else {
      var init := s[..|s| - 1];
      var last := s[|s| - 1];
      assert SortedByDeadline(init, timeOf);
      InsertSorted(init, t, timeOf);
      var r := Insert(init, t, timeOf);
      forall x | x in r ensures Deadline(x, timeOf) <= Deadline(last, timeOf) {
        if x != t {
          var k :| 0 <= k < |init| && init[k] == x;
          assert s[k] == x;
        }
      }
      assert Insert(s, t, timeOf) == r + [last];
    }
  }

  /**
   * `.sort((a, b) => deadline(a) - deadline(b))`. `Array.prototype.sort` is
   * stable, as this insertion sort is.
   */
  function SortByDeadline(ts: seq<Task>, timeOf: string -> Option<int>): (r: seq<Task>)
    ensures |r| == |ts|
    ensures multiset(r) == multiset(ts)
  {
    if ts == [] then []
    else
      var init := ts[..|ts| - 1];
      assert ts == init + [ts[|ts| - 1]];
      Insert(SortByDeadline(init, timeOf), ts[|ts| - 1], timeOf)
  }

  lemma {:induction false} SortByDeadlineSorted(ts: seq<Task>, timeOf: string -> Option<int>)
    ensures SortedByDeadline(SortByDeadline(ts, timeOf), timeOf)
  {
    if ts != [] {
      SortByDeadlineSorted(ts[..|ts| - 1], timeOf);
      InsertSorted(SortByDeadline(ts[..|ts| - 1], timeOf), ts[|ts| - 1], timeOf);
    }
  }

  /** `upcomingDeadlines`: filter, sort, `.slice(0, 5)`. */
  function UpcomingDeadlines(ts: seq<Task>, timeOf: string -> Option<int>, now: int): (r: seq<Task>)
    ensures |r| <= 5
  {
    var sorted := SortByDeadline(FilterUpcoming(ts, timeOf, now), timeOf);
    if |sorted| <= 5 then sorted else sorted[..5]
  }

  /**
   * At most five tasks, each with a non-empty end date strictly after now, in
   * ascending deadline order; they are min(k, 5) of the k upcoming tasks, and no
   * upcoming task left out is due earlier than any task shown.
   */
  lemma UpcomingDeadlinesSpec(ts: seq<Task>, timeOf: string -> Option<int>, now: int)
    ensures var r := UpcomingDeadlines(ts, timeOf, now);
      var q := FilterUpcoming(ts, timeOf, now);
      && |r| == (if |q| <= 5 then |q| else 5)
      && (forall t :: t in r ==> t in ts && Upcoming(t, timeOf, now))
      && SortedByDeadline(r, timeOf)
      && multiset(r) <= multiset(q)
      && (forall x, y :: x in r && y in multiset(q) - multiset(r) ==> Deadline(x, timeOf) <= Deadline(y, timeOf))
  {
    var q := FilterUpcoming(ts, timeOf, now);
    var sorted := SortByDeadline(q, timeOf);
    SortByDeadlineSorted(q, timeOf);
    var n := if |sorted| <= 5 then |sorted| else 5;
    assert UpcomingDeadlines(ts, timeOf, now) == sorted[..n];
    PrefixIsEarliest(sorted, n, timeOf);
    forall t | t in sorted[..n] ensures t in ts && Upcoming(t, timeOf, now) {
      assert t in multiset(q);
    }
  }

  /** A prefix of a sorted sequence is sorted, and no element after it is due earlier. */
  lemma PrefixIsEarliest(sorted: seq<Task>, n: nat, timeOf: string -> Option<int>)
    requires SortedByDeadline(sorted, timeOf) && n <= |sorted|
    ensures SortedByDeadline(sorted[..n], timeOf)
    ensures multiset(sorted[..n]) <= multiset(sorted)
    ensures forall x, y :: x in sorted[..n] && y in multiset(sorted) - multiset(sorted[..n]) ==> Deadline(x, timeOf) <= Deadline(y, timeOf)
  {
    var r := sorted[..n];
    var rest := sorted[n..];
    assert sorted == r + rest;
    assert multiset(sorted) == multiset(r) + multiset(rest);
    forall x, y | x in r && y in multiset(sorted) - multiset(r) ensures Deadline(x, timeOf) <= Deadline(y, timeOf) {
      var i :| 0 <= i < n && r[i] == x;
      assert y in multiset(rest);
      var j :| 0 <= j < |rest| && rest[j] == y;
      assert sorted[i] == x && sorted[n + j] == y;
    }
  }

  /** Tasks with no end date, or an empty one, are never listed. */
  lemma NoEndDateNeverListed(ts: seq<Task>, timeOf: string -> Option<int>, now: int, t: Task)
    requires t.endDate == None || t.endDate == Some("")
    ensures t !in UpcomingDeadlines(ts, timeOf, now)
  {
    UpcomingDeadlinesSpec(ts, timeOf, now);
  }

  /** The `stats` object. */
  datatype Stats = Stats(
    total: nat,
    completed: nat,
    inProgress: nat,
    paused: nat,
    backlog: nat,
    averageProgress: int,
    upcomingDeadlines: seq<Task>)

  /** `stats`, from `Array.from(tasks.values())`. */
  function ComputeStats(taskArray: seq<Task>, timeOf: string -> Option<int>, now: int): (st: Stats)
    ensures st.completed + st.inProgress + st.paused + st.backlog == st.total == |taskArray|
    ensures |taskArray| == 0 ==> st.averageProgress == 0 && st.upcomingDeadlines == []
    ensures (forall t :: t in taskArray ==> ProgressInRange(t)) ==> 0 <= st.averageProgress <= 100
    ensures |st.upcomingDeadlines| <= 5
  {
    CountsAddUp(taskArray);
    AverageBoundedIfValid(taskArray);
    Stats(
      |taskArray|,
      CountStatus(taskArray, Completed),
      CountStatus(taskArray, InProgress),
      CountStatus(taskArray, Paused),
      CountStatus(taskArray, Backlog),
      RoundedMean(SumProgress(taskArray), |taskArray|),
      UpcomingDeadlines(taskArray, timeOf, now))
  }

  lemma AverageBoundedIfValid(ts: seq<Task>)
    ensures (forall t :: t in ts ==> ProgressInRange(t)) ==> 0 <= RoundedMean(SumProgress(ts), |ts|) <= 100
  {
    if forall t :: t in ts ==> ProgressInRange(t) {
      AverageInRange(ts);
    }
  }
}
