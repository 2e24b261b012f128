/**
 * The task record and its status (src/types/task.ts).
 * Timestamps (`createdAt`, `updatedAt`) are clock readings; the ISO-8601 text
 * the source stores for them is not modelled. `startDate`, `endDate` and
 * `description` stay text, because the form stores '' in them and the views
 * test them for emptiness.
 */
module TaskTypes {
  import opened Wrappers

  /** The four statuses; every task has exactly one. */
  datatype Status = Backlog | InProgress | Paused | Completed

  /** The string value of each status, as the source spells it. */
  function StatusText(s: Status): string {
    match s
    case Backlog => "backlog"
    case InProgress => "in-progress"
    case Paused => "paused"
    case Completed => "completed"
  }

  /** Reading a string back as a status; anything else is not a status. */
  function ParseStatus(text: string): (r: Option<Status>)
    ensures r.Some? ==> StatusText(r.value) == text
    ensures r.None? ==> forall s :: StatusText(s) != text
  {
    if text == "backlog" then Some(Backlog)
    else if text == "in-progress" then Some(InProgress)
    else if text == "paused" then Some(Paused)
    else if text == "completed" then Some(Completed)
    else None
  }

  lemma ParseStatusText(s: Status)
    ensures ParseStatus(StatusText(s)) == Some(s)
  {
  }

  /**
   * A task. `progress` is documented as a percentage in 0..100, but nothing
   * enforces it: see ProgressInRange.
   */
  datatype Task = Task(
    id: string,
    title: string,
    description: Option<string>,
    status: Status,
    assignees: seq<string>,
    startDate: Option<string>,
    endDate: Option<string>,
    progress: int,
    createdAt: int,
    updatedAt: int)

  /**
   * What `addTask` is given: a task without `id`, `createdAt` and `updatedAt`.
   * The type demands `progress`, but the form's payload has none, so it is optional here.
   */
  datatype TaskInput = TaskInput(
    title: string,
    description: Option<string>,
    status: Status,
    assignees: seq<string>,
    startDate: Option<string>,
    endDate: Option<string>,
    progress: Option<int>)

  /** The documented, unenforced range of `progress`. */
  predicate ProgressInRange(t: Task) {
    0 <= t.progress <= 100
  }

  function Ids(ts: seq<Task>): (ids: seq<string>)
    ensures |ids| == |ts| && forall i :: 0 <= i < |ts| ==> ids[i] == ts[i].id
  {
    seq(|ts|, i requires 0 <= i < |ts| => ts[i].id)
  }

  ghost predicate DistinctIds(ts: seq<Task>) {
    forall i, j :: 0 <= i < j < |ts| ==> ts[i].id != ts[j].id
  }

  /** The tasks of `ts` that have status `s`, in their order in `ts`: one status group. */
  function OfStatus(ts: seq<Task>, s: Status): (r: seq<Task>)
    ensures |r| <= |ts|
  {
    if ts == [] then []
    else OfStatus(ts[..|ts| - 1], s) + (if ts[|ts| - 1].status == s then [ts[|ts| - 1]] else [])
  }

  /** Appending one task extends its own group only. */
  lemma OfStatusSnoc(ts: seq<Task>, x: Task, s: Status)
    ensures OfStatus(ts + [x], s) == OfStatus(ts, s) + (if x.status == s then [x] else [])
  {
    assert (ts + [x])[..|ts|] == ts;
  }

  /** Filtering distributes over concatenation. */
  lemma {:induction false} OfStatusAppend(a: seq<Task>, b: seq<Task>, s: Status)
    ensures OfStatus(a + b, s) == OfStatus(a, s) + OfStatus(b, s)
  {
    if b != [] {
      var b' := b[..|b| - 1];
      assert (a + b)[..|a + b| - 1] == a + b';
      OfStatusAppend(a, b', s);
    } else {
      assert a + b == a;
    }
  }

  /** A task is in a status group exactly when it is in the sequence and has that status. */
  lemma {:induction false} OfStatusMembers(ts: seq<Task>, s: Status)
    ensures forall t :: t in OfStatus(ts, s) <==> t in ts && t.status == s
  {
    if ts != [] {
      OfStatusMembers(ts[..|ts| - 1], s);
      assert ts == ts[..|ts| - 1] + [ts[|ts| - 1]];
    }
  }

  /** The four status groups partition the sequence: their sizes add up to its length. */
  lemma {:induction false} StatusGroupsPartition(ts: seq<Task>)
    ensures |OfStatus(ts, Backlog)| + |OfStatus(ts, InProgress)| + |OfStatus(ts, Paused)| + |OfStatus(ts, Completed)| == |ts|
  {
    if ts != [] {
      StatusGroupsPartition(ts[..|ts| - 1]);
    }
  }
}
