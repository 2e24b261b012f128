/**
 * The members timeline (src/component/TimeLine.tsx): tasks grouped by
 * assignee, the zoom control, the colour of a task bar and an assignee's initials.
 */
module Timeline {
  import opened Wrappers
  import opened TaskTypes
  import opened Strings
  import JsMap

  // ---------------------------------------------------------------- grouping

  /** The (assignee, task) pairs `task.assignees.forEach` visits for one task. */
  function PairsOf(t: Task): (ps: seq<(string, Task)>)
    ensures |ps| == |t.assignees|
    ensures forall i :: 0 <= i < |ps| ==> ps[i] == (t.assignees[i], t)
  {
    seq(|t.assignees|, i requires 0 <= i < |t.assignees| => (t.assignees[i], t))
  }

  /** All pairs the nested `forEach` loops visit, in order. */
  function AssigneePairs(ts: seq<Task>): (ps: seq<(string, Task)>) {
    if ts == [] then [] else AssigneePairs(ts[..|ts| - 1]) + PairsOf(ts[|ts| - 1])
  }

  /** Every assignee of every task, in order, with repetitions. */
  function AllAssignees(ts: seq<Task>): seq<string> {
    if ts == [] then [] else AllAssignees(ts[..|ts| - 1]) + ts[|ts| - 1].assignees
  }

  /** The elements of `xs` in order of first appearance. */
  function Dedup(xs: seq<string>): (r: seq<string>)
    ensures forall x :: x in r <==> x in xs
    ensures forall i, j :: 0 <= i < j < |r| ==> r[i] != r[j]
  {
    if xs == [] then []
    else
      var init := Dedup(xs[..|xs| - 1]);
      assert xs == xs[..|xs| - 1] + [xs[|xs| - 1]];
      if xs[|xs| - 1] in init then init else init + [xs[|xs| - 1]]
  }

  type Groups = seq<(string, seq<Task>)>

  /** One visit: `if (!grouped.has(a)) grouped.set(a, []); grouped.get(a).push(t)`. */
  function AddToGroup(g: Groups, a: string, t: Task): Groups {
    var g' := if JsMap.Has(g, a) then g else JsMap.Set(g, a, []);
    JsMap.Set(g', a, JsMap.Get(g', a).value + [t])
  }

  /** The Map the loops build from a sequence of visits. */
  function GroupPairs(ps: seq<(string, Task)>): Groups {
    if ps == [] then [] else AddToGroup(GroupPairs(ps[..|ps| - 1]), ps[|ps| - 1].0, ps[|ps| - 1].1)
  }

  lemma GroupPairsSnoc(ps: seq<(string, Task)>, a: string, t: Task)
    ensures GroupPairs(ps + [(a, t)]) == AddToGroup(GroupPairs(ps), a, t)
  {
    assert (ps + [(a, t)])[..|ps|] == ps;
  }

  /** Visiting the next assignee of `t` extends the grouping by one visit. */
  lemma VisitStep(before: seq<(string, Task)>, t: Task, j: nat)
    requires j < |t.assignees|
    ensures GroupPairs(before + PairsOf(t)[..j + 1]) == AddToGroup(GroupPairs(before + PairsOf(t)[..j]), t.assignees[j], t)
  {
    var ps := PairsOf(t);
    assert ps[..j + 1] == ps[..j] + [ps[j]];
    assert before + ps[..j + 1] == (before + ps[..j]) + [(t.assignees[j], t)];
    GroupPairsSnoc(before + ps[..j], t.assignees[j], t);
  }

  /** `tasksByAssignee`: nested loops over the Map's tasks and each task's assignees. */
  method GroupByAssignee(tasks: seq<Task>) returns (grouped: Groups)
    ensures grouped == GroupPairs(AssigneePairs(tasks))
  {
    grouped := [];
    for i := 0 to |tasks|
      invariant grouped == GroupPairs(AssigneePairs(tasks[..i]))
    {
      assert tasks[..i + 1][..i] == tasks[..i];
      grouped := AddAssignees(grouped, tasks[i], AssigneePairs(tasks[..i]));
    }
    assert tasks[..|tasks|] == tasks;
  }

  /** The inner `task.assignees.forEach`: one visit per assignee of `task`, in order. */
  method AddAssignees(g: Groups, task: Task, ghost before: seq<(string, Task)>) returns (grouped: Groups)
    requires g == GroupPairs(before)
    ensures grouped == GroupPairs(before + PairsOf(task))
  {
    grouped := g;
    assert before + PairsOf(task)[..0] == before;
    for j := 0 to |task.assignees|
      invariant grouped == GroupPairs(before + PairsOf(task)[..j])
    {
      VisitStep(before, task, j);
      grouped := Visit(grouped, task.assignees[j], task);
    }
    assert PairsOf(task)[..|task.assignees|] == PairsOf(task);
  }

  /** The loop body: `if (!grouped.has(a)) grouped.set(a, []); grouped.get(a).push(t)`. */
  method Visit(g: Groups, a: string, t: Task) returns (grouped: Groups)
    ensures grouped == AddToGroup(g, a, t)
  {
    grouped := g;
    if !JsMap.Has(grouped, a) {
      grouped := JsMap.Set(grouped, a, []);
    }
    var list := JsMap.Get(grouped, a).value;
    grouped := JsMap.Set(grouped, a, list + [t]);
  }

  /** The tasks visited with assignee `a`, in visiting order. */
  function TasksFor(ps: seq<(string, Task)>, a: string): seq<Task> {
    if ps == [] then []
    else TasksFor(ps[..|ps| - 1], a) + (if ps[|ps| - 1].0 == a then [ps[|ps| - 1].1] else [])
  }

  /** The first half of a visit: a new assignee gets an empty group, appended last. */
  lemma EnsureGroupSpec(g: Groups, a: string)
    requires JsMap.DistinctKeys(g)
    ensures var g' := if JsMap.Has(g, a) then g else JsMap.Set(g, a, []);
      && JsMap.DistinctKeys(g')
      && JsMap.Keys(g') == (if a in JsMap.Keys(g) then JsMap.Keys(g) else JsMap.Keys(g) + [a])
      && JsMap.Get(g', a) == Some(JsMap.Get(g, a).GetOr([]))
      && (forall b :: b != a ==> JsMap.Get(g', b) == JsMap.Get(g, b))
      && SumSizes(g') == SumSizes(g)
  {
    if !JsMap.Has(g, a) {
      var g' := JsMap.Set(g, a, []);
      assert g' == g + [(a, [])];
      assert JsMap.Keys(g') == JsMap.Keys(g) + [a];
      SumSizesAppend(g, (a, []));
      forall b | b != a ensures JsMap.Get(g', b) == JsMap.Get(g, b) {
        JsMap.GetSetOther(g, a, [], b);
      }
    }
  }

  /** The second half of a visit: the task is pushed onto the assignee's group, in place. */
  lemma PushSpec(g: Groups, a: string, v: seq<Task>)
    requires JsMap.DistinctKeys(g) && a in JsMap.Keys(g)
    ensures var r := JsMap.Set(g, a, v);
      && JsMap.Keys(r) == JsMap.Keys(g)
      && (forall b :: b != a ==> JsMap.Get(r, b) == JsMap.Get(g, b))
      && SumSizes(r) == SumSizes(g) - |JsMap.Get(g, a).value| + |v|
  {
    var r := JsMap.Set(g, a, v);
    forall b | b != a ensures JsMap.Get(r, b) == JsMap.Get(g, b) {
      JsMap.GetSetOther(g, a, v, b);
    }
    JsMap.SetInPlace(g, a, v);
    var i :| 0 <= i < |g| && g[i].0 == a && r == g[i := (a, v)];
    JsMap.GetEntry(g, i);
    SumSizesUpdate(g, i, (a, v));
  }

  /** One visit adds the assignee as a new last key, or appends the task to its existing group. */
  lemma AddToGroupSpec(g: Groups, a: string, t: Task)
    requires JsMap.DistinctKeys(g)
    ensures var r := AddToGroup(g, a, t);
      && JsMap.DistinctKeys(r)
      && JsMap.Keys(r) == (if a in JsMap.Keys(g) then JsMap.Keys(g) else JsMap.Keys(g) + [a])
      && JsMap.Get(r, a) == Some(JsMap.Get(g, a).GetOr([]) + [t])
      && (forall b :: b != a ==> JsMap.Get(r, b) == JsMap.Get(g, b))
      && SumSizes(r) == SumSizes(g) + 1
  {
    EnsureGroupSpec(g, a);
    var g' := if JsMap.Has(g, a) then g else JsMap.Set(g, a, []);
    PushSpec(g', a, JsMap.Get(g', a).value + [t]);
  }

  /** The total number of tasks over all groups. */
  function SumSizes(g: Groups): nat {
    if g == [] then 0 else SumSizes(g[..|g| - 1]) + |g[|g| - 1].1|
  }

  lemma SumSizesAppend(g: Groups, e: (string, seq<Task>))
    ensures SumSizes(g + [e]) == SumSizes(g) + |e.1|
  {
    assert (g + [e])[..|g|] == g;
  }

  lemma {:induction false} SumSizesUpdate(g: Groups, i: nat, e: (string, seq<Task>))
    requires i < |g|
    ensures SumSizes(g[i := e]) == SumSizes(g) - |g[i].1| + |e.1|
  {
    var n := |g| - 1;
    if i < n {
      SumSizesUpdate(g[..n], i, e);
      assert g[i := e][..n] == g[..n][i := e];
    } else {
      assert g[i := e][..n] == g[..n];
    }
  }

  lemma DedupSnoc(xs: seq<string>, x: string)
    ensures Dedup(xs + [x]) == if x in Dedup(xs) then Dedup(xs) else Dedup(xs) + [x]
  {
    assert (xs + [x])[..|xs|] == xs;
  }

  lemma KeysSnoc(ps: seq<(string, Task)>, a: string, t: Task)
    ensures JsMap.Keys(ps + [(a, t)]) == JsMap.Keys(ps) + [a]
  {
  }

  lemma TasksForSnoc(ps: seq<(string, Task)>, a: string, t: Task, b: string)
    ensures TasksFor(ps + [(a, t)], b) == TasksFor(ps, b) + (if a == b then [t] else [])
  {
    assert (ps + [(a, t)])[..|ps|] == ps;
  }

  lemma {:induction false} TasksForAbsent(ps: seq<(string, Task)>, a: string)
    requires a !in JsMap.Keys(ps)
    ensures TasksFor(ps, a) == []
  {
    if ps != [] {
      assert JsMap.Keys(ps[..|ps| - 1]) == JsMap.Keys(ps)[..|ps| - 1];
      TasksForAbsent(ps[..|ps| - 1], a);
      assert JsMap.Keys(ps)[|ps| - 1] == ps[|ps| - 1].0;
    }
  }

  /** One visit keeps the keys the deduplicated visited assignees. */
  lemma KeysStep(g: Groups, ks: seq<string>, a: string, t: Task)
    requires JsMap.DistinctKeys(g) && JsMap.Keys(g) == Dedup(ks)
    ensures JsMap.DistinctKeys(AddToGroup(g, a, t))
    ensures JsMap.Keys(AddToGroup(g, a, t)) == Dedup(ks + [a])
  {
    AddToGroupSpec(g, a, t);
    DedupSnoc(ks, a);
  }

  /** One visit keeps each group the tasks visited with its assignee. */
  lemma ContentsStep(g: Groups, ps: seq<(string, Task)>, a: string, t: Task, b: string)
    requires JsMap.DistinctKeys(g)
    requires JsMap.Get(g, a) == (if a in JsMap.Keys(ps) then Some(TasksFor(ps, a)) else None)
    requires JsMap.Get(g, b) == (if b in JsMap.Keys(ps) then Some(TasksFor(ps, b)) else None)
    ensures JsMap.Get(AddToGroup(g, a, t), b) == (if b in JsMap.Keys(ps + [(a, t)]) then Some(TasksFor(ps + [(a, t)], b)) else None)
  {
    AddToGroupSpec(g, a, t);
    KeysSnoc(ps, a, t);
    TasksForSnoc(ps, a, t, b);
    var r := AddToGroup(g, a, t);
    var ps' := ps + [(a, t)];
    if b == a {
      if a !in JsMap.Keys(ps) {
        TasksForAbsent(ps, a);
      }
      assert JsMap.Get(g, a).GetOr([]) == TasksFor(ps, a);
      assert JsMap.Get(r, a) == Some(TasksFor(ps', a));
      assert a in JsMap.Keys(ps');
    } else {
      assert JsMap.Get(r, b) == JsMap.Get(g, b);
      assert TasksFor(ps', b) == TasksFor(ps, b);
      assert b in JsMap.Keys(ps') <==> b in JsMap.Keys(ps);
    }
  }

  /** Grouping keeps one key per visited assignee, in order of first appearance. */
  lemma {:induction false} GroupKeysSpec(ps: seq<(string, Task)>)
    ensures JsMap.DistinctKeys(GroupPairs(ps))
    ensures JsMap.Keys(GroupPairs(ps)) == Dedup(JsMap.Keys(ps))
  {
    if ps != [] {
      var init := ps[..|ps| - 1];
      var last := ps[|ps| - 1];
      assert ps == init + [(last.0, last.1)];
      GroupKeysSpec(init);
      GroupPairsSnoc(init, last.0, last.1);
      KeysStep(GroupPairs(init), JsMap.Keys(init), last.0, last.1);
      KeysSnoc(init, last.0, last.1);
    }
  }

  /** Each visited assignee's group holds the tasks visited with it, in order. */
  lemma {:induction false} GroupContentsSpec(ps: seq<(string, Task)>)
    ensures forall b :: JsMap.Get(GroupPairs(ps), b) == (if b in JsMap.Keys(ps) then Some(TasksFor(ps, b)) else None)
  {
    if ps != [] {
      var init := ps[..|ps| - 1];
      var last := ps[|ps| - 1];
      assert ps == init + [(last.0, last.1)];
      GroupContentsSpec(init);
      GroupKeysSpec(init);
      GroupPairsSnoc(init, last.0, last.1);
      forall b ensures JsMap.Get(GroupPairs(ps), b) == (if b in JsMap.Keys(ps) then Some(TasksFor(ps, b)) else None) {
        ContentsStep(GroupPairs(init), init, last.0, last.1, b);
      }
    }
  }

  lemma GroupContentsAt(ps: seq<(string, Task)>, b: string)
    requires b in JsMap.Keys(ps)
    ensures JsMap.Get(GroupPairs(ps), b) == Some(TasksFor(ps, b))
  {
    GroupContentsSpec(ps);
  }

  /** The groups hold one task per visit. */
  lemma {:induction false} GroupSizesSpec(ps: seq<(string, Task)>)
    ensures SumSizes(GroupPairs(ps)) == |ps|
  {
    if ps != [] {
      var init := ps[..|ps| - 1];
      var (a, t) := ps[|ps| - 1];
      assert ps == init + [(a, t)];
      GroupSizesSpec(init);
      GroupKeysSpec(init);
      GroupPairsSnoc(init, a, t);
      AddToGroupSpec(GroupPairs(init), a, t);
    }
  }

  /** The visits of a task sequence list exactly its assignees, task by task. */
  lemma {:induction false} AssigneePairsSpec(ts: seq<Task>)
    ensures JsMap.Keys(AssigneePairs(ts)) == AllAssignees(ts)
    ensures forall p :: p in AssigneePairs(ts) <==> p.1 in ts && p.0 in p.1.assignees
  {
    if ts != [] {
      var init := ts[..|ts| - 1];
      var last := ts[|ts| - 1];
      AssigneePairsSpec(init);
      var ps := AssigneePairs(init);
      assert JsMap.Keys(ps + PairsOf(last)) == JsMap.Keys(ps) + last.assignees;
      assert ts == init + [last];
      forall p ensures p in PairsOf(last) <==> p.1 == last && p.0 in last.assignees {
        if p.1 == last && p.0 in last.assignees {
          var i :| 0 <= i < |last.assignees| && last.assignees[i] == p.0;
          assert PairsOf(last)[i] == p;
        }
      }
    }
  }

  /** A task is in assignee `a`'s group exactly when it has `a` among its assignees. */
  lemma {:induction false} TasksForMembers(ps: seq<(string, Task)>, a: string)
    ensures forall t :: t in TasksFor(ps, a) <==> (a, t) in ps
  {
    if ps != [] {
      TasksForMembers(ps[..|ps| - 1], a);
      assert ps == ps[..|ps| - 1] + [ps[|ps| - 1]];
    }
  }

  /**
   * `tasksByAssignee`: keys are exactly the assignees occurring in any task, in
   * order of first appearance; a group holds the tasks naming that assignee, in
   * canonical order and once per mention; the
   * groups' sizes add up to the total length of the assignee lists, so a task
   * with no assignees is in no group.
   */
  lemma TasksByAssigneeSpec(ts: seq<Task>)
    ensures var g := GroupPairs(AssigneePairs(ts));
      && JsMap.Keys(g) == Dedup(AllAssignees(ts))
      && (forall a, t :: JsMap.Get(g, a).Some? && t in JsMap.Get(g, a).value <==> t in ts && a in t.assignees)
      && (forall a :: a in AllAssignees(ts) ==> JsMap.Get(g, a) == Some(Mentions(ts, a)))
      && SumSizes(g) == |AllAssignees(ts)|
  {
    var ps := AssigneePairs(ts);
    AssigneePairsSpec(ts);
    GroupKeysSpec(ps);
    GroupSizesSpec(ps);
    forall a, t ensures JsMap.Get(GroupPairs(ps), a).Some? && t in JsMap.Get(GroupPairs(ps), a).value <==> t in ts && a in t.assignees {
      GroupMember(ts, a, t);
    }
    forall a | a in AllAssignees(ts) ensures JsMap.Get(GroupPairs(ps), a) == Some(Mentions(ts, a)) {
      GroupOrder(ts, a);
    }
  }

  /** A task is in assignee `a`'s group exactly when it names `a`. */
  lemma GroupMember(ts: seq<Task>, a: string, t: Task)
    ensures var g := GroupPairs(AssigneePairs(ts));
      JsMap.Get(g, a).Some? && t in JsMap.Get(g, a).value <==> t in ts && a in t.assignees
  {
    var ps := AssigneePairs(ts);
    AssigneePairsSpec(ts);
    TasksForMembers(ps, a);
    KeyOfPair(ps, a, t);
    if a in JsMap.Keys(ps) {
      GroupContentsAt(ps, a);
    } else {
      GroupContentsSpec(ps);
      assert JsMap.Get(GroupPairs(ps), a) == None;
    }
  }

  lemma KeyOfPair(ps: seq<(string, Task)>, a: string, t: Task)
    ensures (a, t) in ps ==> a in JsMap.Keys(ps)
  {
    if (a, t) in ps {
      var i :| 0 <= i < |ps| && ps[i] == (a, t);
      assert JsMap.Keys(ps)[i] == a;
    }
  }

  /** An occurring assignee's group lists its tasks in canonical order, once per mention. */
  lemma GroupOrder(ts: seq<Task>, a: string)
    requires a in AllAssignees(ts)
    ensures JsMap.Get(GroupPairs(AssigneePairs(ts)), a) == Some(Mentions(ts, a))
  {
    AssigneePairsSpec(ts);
    GroupContentsAt(AssigneePairs(ts), a);
    TasksForIsMentions(ts, a);
  }

  /** `n` copies of task `t`. */
  function Copies(n: nat, t: Task): (r: seq<Task>)
    ensures |r| == n && forall i :: 0 <= i < n ==> r[i] == t
  {
    if n == 0 then [] else Copies(n - 1, t) + [t]
  }

  /** Reference order: tasks in canonical order, each repeated once per occurrence of `a` in its assignees. */
  function Mentions(ts: seq<Task>, a: string): seq<Task> {
    if ts == [] then []
    else
      var last := ts[|ts| - 1];
      Mentions(ts[..|ts| - 1], a) + Copies(multiset(last.assignees)[a], last)
  }

  lemma {:induction false} TasksForAppend(p: seq<(string, Task)>, q: seq<(string, Task)>, a: string)
    ensures TasksFor(p + q, a) == TasksFor(p, a) + TasksFor(q, a)
  {
    if q != [] {
      var q' := q[..|q| - 1];
      assert (p + q)[..|p + q| - 1] == p + q';
      TasksForAppend(p, q', a);
    } else {
      assert p + q == p;
    }
  }

  lemma {:induction false} TasksForOneTask(t: Task, a: string, j: nat)
    requires j <= |t.assignees|
    ensures TasksFor(PairsOf(t)[..j], a) == Copies(multiset(t.assignees[..j])[a], t)
  {
    if j > 0 {
      TasksForOneTask(t, a, j - 1);
      var ps := PairsOf(t)[..j];
      assert ps[..j - 1] == PairsOf(t)[..j - 1];
      assert ps[j - 1] == (t.assignees[j - 1], t);
      var n := multiset(t.assignees[..j - 1])[a];
      assert t.assignees[..j] == t.assignees[..j - 1] + [t.assignees[j - 1]];
      assert multiset(t.assignees[..j]) == multiset(t.assignees[..j - 1]) + multiset{t.assignees[j - 1]};
      if t.assignees[j - 1] == a {
        assert multiset(t.assignees[..j])[a] == n + 1;
      } else {
        assert multiset(t.assignees[..j])[a] == n;
      }
    }
  }

  /** Each group lists its assignee's tasks in canonical order, once per mention. */
  lemma {:induction false} TasksForIsMentions(ts: seq<Task>, a: string)
    ensures TasksFor(AssigneePairs(ts), a) == Mentions(ts, a)
  {
    if ts != [] {
      var last := ts[|ts| - 1];
      TasksForIsMentions(ts[..|ts| - 1], a);
      TasksForAppend(AssigneePairs(ts[..|ts| - 1]), PairsOf(last), a);
      TasksForOneTask(last, a, |last.assignees|);
      assert PairsOf(last)[..|last.assignees|] == PairsOf(last);
      assert last.assignees[..|last.assignees|] == last.assignees;
    }
  }

  // -------------------------------------------------------------------- zoom

  /** Zoom in half-units: `MIN_ZOOM = 1` and `MAX_ZOOM = 4` are 2 and 8; a step of 0.5 is 1. */
  const MIN_ZOOM: int := 2
  const MAX_ZOOM: int := 8
  const INITIAL_ZOOM: int := 2

  /** `handleZoom`: `Math.max(MIN_ZOOM, Math.min(MAX_ZOOM, current ± 0.5))`. */
  function HandleZoom(current: int, zoomIn: bool): (z: int)
    ensures MIN_ZOOM <= z <= MAX_ZOOM
  {
    var newZoom := if zoomIn then current + 1 else current - 1;
    var capped := if newZoom < MAX_ZOOM then newZoom else MAX_ZOOM;
    if MIN_ZOOM > capped then MIN_ZOOM else capped
  }

  /** From a zoom in range, a step moves it by exactly half a unit, unless it is already at the bound it heads for. */
  lemma ZoomSteps(current: int, zoomIn: bool)
    requires MIN_ZOOM <= current <= MAX_ZOOM
    ensures zoomIn && current < MAX_ZOOM ==> HandleZoom(current, zoomIn) == current + 1
    ensures !zoomIn && current > MIN_ZOOM ==> HandleZoom(current, zoomIn) == current - 1
    ensures zoomIn && current == MAX_ZOOM ==> HandleZoom(current, zoomIn) == MAX_ZOOM
    ensures !zoomIn && current == MIN_ZOOM ==> HandleZoom(current, zoomIn) == MIN_ZOOM
  {
  }

  /** The zoom after a sequence of button presses, starting from the initial zoom. */
  function ZoomAfter(presses: seq<bool>): (z: int)
    ensures MIN_ZOOM <= z <= MAX_ZOOM
  {
    if presses == [] then INITIAL_ZOOM else HandleZoom(ZoomAfter(presses[..|presses| - 1]), presses[|presses| - 1])
  }

  /** Each press changes the zoom by at most half a unit. */
  lemma ZoomAfterChangesByAtMostOne(presses: seq<bool>, zoomIn: bool)
    ensures -1 <= ZoomAfter(presses + [zoomIn]) - ZoomAfter(presses) <= 1
  {
    assert (presses + [zoomIn])[..|presses|] == presses;
    ZoomSteps(ZoomAfter(presses), zoomIn);
  }

  // ------------------------------------------------------------------ colour

  /** The keys of `TASK_COLORS`, in declaration order; `default` is one of them. */
  const COLOR_KEYS: seq<string> := [
    "Review",
    "Main page",
    "Notifications",
    "Profile",
    "Analytics",
    "Specs",
    "Optimization",
    "Refactoring",
    "Images",
    "Blog post",
    "Workspaces",
    "QA",
    "Main page update",
    "New feature",
    "default"
  ]

  /** The class string of each key of `TASK_COLORS`, at the key's position. */
  const COLOR_CLASSES: seq<string> := [
    "bg-rose-100 text-rose-800 border-l-4 border-rose-400",
    "bg-sky-100 text-sky-800 border-l-4 border-sky-400",
    "bg-violet-100 text-violet-800 border-l-4 border-violet-400",
    "bg-indigo-100 text-indigo-800 border-l-4 border-indigo-400",
    "bg-emerald-100 text-emerald-800 border-l-4 border-emerald-400",
    "bg-amber-100 text-amber-800 border-l-4 border-amber-400",
    "bg-cyan-100 text-cyan-800 border-l-4 border-cyan-400",
    "bg-fuchsia-100 text-fuchsia-800 border-l-4 border-fuchsia-400",
    "bg-lime-100 text-lime-800 border-l-4 border-lime-400",
    "bg-orange-100 text-orange-800 border-l-4 border-orange-400",
    "bg-teal-100 text-teal-800 border-l-4 border-teal-400",
    "bg-pink-100 text-pink-800 border-l-4 border-pink-400",
    "bg-purple-100 text-purple-800 border-l-4 border-purple-400",
    "bg-green-100 text-green-800 border-l-4 border-green-400",
    "bg-gray-200 text-gray-800 border-l-4 border-gray-900"
  ]

  const DEFAULT_INDEX: nat := 14

  lemma ColorTableShape()
    ensures |COLOR_KEYS| == |COLOR_CLASSES| == 15 && COLOR_KEYS[DEFAULT_INDEX] == "default"
  {
  }

  /** Key `k` is a case-insensitive substring of the title. */
  predicate KeyMatches(title: string, k: string) {
    Contains(Lower(title), Lower(k))
  }

  /** `Object.keys(TASK_COLORS).find(...)` from position `i` on, as an index. */
  function FindKey(title: string, i: nat): (r: Option<nat>)
    requires i <= |COLOR_KEYS|
    decreases |COLOR_KEYS| - i
    ensures r.Some? ==> i <= r.value < |COLOR_KEYS| && KeyMatches(title, COLOR_KEYS[r.value])
    ensures r.Some? ==> forall j :: i <= j < r.value ==> !KeyMatches(title, COLOR_KEYS[j])
    ensures r.None? ==> forall j :: i <= j < |COLOR_KEYS| ==> !KeyMatches(title, COLOR_KEYS[j])
  {
    if i == |COLOR_KEYS| then None
    else if KeyMatches(title, COLOR_KEYS[i]) then Some(i)
    else FindKey(title, i + 1)
  }

  /**
   * `getTaskColor`: the class string of the first key, in declaration order,
   * found in the title ignoring case; the `default` entry when none is.
   */
  function TaskColor(title: string): (c: string)
    ensures (exists i :: 0 <= i < |COLOR_KEYS| && KeyMatches(title, COLOR_KEYS[i])
               && (forall j :: 0 <= j < i ==> !KeyMatches(title, COLOR_KEYS[j]))
               && c == COLOR_CLASSES[i])
         || ((forall j :: 0 <= j < |COLOR_KEYS| ==> !KeyMatches(title, COLOR_KEYS[j]))
               && c == COLOR_CLASSES[DEFAULT_INDEX])
  {
    ColorTableShape();
    var key := FindKey(title, 0);
    COLOR_CLASSES[if key.Some? then key.value else DEFAULT_INDEX]
  }

  /** The lower-cased 'Review' and 'Main page' keys, and "main page update" begins with the latter. */
  lemma MainPageKey()
    ensures Lower(COLOR_KEYS[0]) == "review"
    ensures Lower(COLOR_KEYS[1]) == "main page"
    ensures "main page update"[..9] == "main page"
  {
  }

  /** A title holding "main page update" matches the 'Main page' key. */
  lemma MainPageUpdateMatchesMainPage(title: string)
    requires Contains(Lower(title), "main page update")
    ensures KeyMatches(title, COLOR_KEYS[1])
  {
    ContainsPrefix(Lower(title), "main page update", 9);
    MainPageKey();
  }

  /** Whenever the 'Main page' key matches, the first match is 'Review' or 'Main page'. */
  lemma FirstMatchAtMostMainPage(title: string)
    requires KeyMatches(title, COLOR_KEYS[1])
    ensures FindKey(title, 0).Some? && FindKey(title, 0).value <= 1
    ensures !KeyMatches(title, COLOR_KEYS[0]) ==> FindKey(title, 0) == Some(1)
  {
  }

  /** The 'Main page update' class differs from the 'Review' and 'Main page' ones. */
  lemma MainPageUpdateClassDistinct()
    ensures COLOR_CLASSES[12] != COLOR_CLASSES[0] && COLOR_CLASSES[12] != COLOR_CLASSES[1]
  {
    assert |COLOR_CLASSES[12]| == 58 && |COLOR_CLASSES[0]| == 52 && |COLOR_CLASSES[1]| == 49;
  }

  /**
   * 'Main page' is declared before 'Main page update', and every title holding
   * the longer key holds the shorter one: such a title never gets the
   * 'Main page update' colour, and gets the 'Main page' colour unless it also
   * says "review".
   */
  lemma MainPageShadowsMainPageUpdate(title: string)
    requires Contains(Lower(title), "main page update")
    ensures TaskColor(title) == COLOR_CLASSES[0] || TaskColor(title) == COLOR_CLASSES[1]
    ensures TaskColor(title) != COLOR_CLASSES[12]
    ensures !Contains(Lower(title), "review") ==> TaskColor(title) == COLOR_CLASSES[1]
  {
    MainPageUpdateMatchesMainPage(title);
    FirstMatchAtMostMainPage(title);
    MainPageKey();
    MainPageUpdateClassDistinct();
  }

  // ---------------------------------------------------------------- initials

  /** `assignee.split(' ').map(n => n[0]).join('')`: an empty part's `n[0]` is undefined, which joins as ''. */
  function Initials(assignee: string): string {
    FirstChars(Split(assignee, ' '))
  }

  function FirstChars(parts: seq<string>): (r: string)
    ensures |r| <= |parts|
  {
    if parts == [] then ""
    else (if parts[0] == [] then "" else [parts[0][0]]) + FirstChars(parts[1..])
  }

  /** A name made of space-free, non-empty words gets the first letter of each word. */
  lemma InitialsOfWords(words: seq<string>)
    requires |words| >= 1
    requires forall k :: 0 <= k < |words| ==> words[k] != [] && ' ' !in words[k]
    ensures Initials(Join(words, ' ')) == seq(|words|, k requires 0 <= k < |words| => words[k][0])
  {
    JoinSplit(words, ' ');
    FirstCharsOfNonEmpty(words);
  }

  lemma {:induction false} FirstCharsOfNonEmpty(parts: seq<string>)
    requires forall k :: 0 <= k < |parts| ==> parts[k] != []
    ensures FirstChars(parts) == seq(|parts|, k requires 0 <= k < |parts| => parts[k][0])
  {
    if parts != [] {
      FirstCharsOfNonEmpty(parts[1..]);
    }
  }
}
