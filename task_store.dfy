/**
 * The task store (src/store/useTaskStore.ts). The state is one JavaScript
 * `Map` from id to task object, kept here as its entries in insertion order
 * (see JsMap). Its values are references to mutable task objects: `moveTask`
 * and `updateProgress` assign fields of the object in place, so the Map held
 * by the previous state shows the change too.
 *
 * The uuid generator and the clock are parameters: each operation is given
 * the id it would draw and the time it would read.
 */
module Store {
  import opened Wrappers
  import opened TaskTypes
  import JsMap
  import Sortable

  /** A task object as the Map holds it: shared by every Map copied from the one it was put in. */
  class TaskRecord {
    var id: string
    var title: string
    var description: Option<string>
    var status: Status
    var assignees: seq<string>
    var startDate: Option<string>
    var endDate: Option<string>
    var progress: int
    var createdAt: int
    var updatedAt: int

    constructor (t: Task)
      ensures Value() == t
    {
      id, title, description, status := t.id, t.title, t.description, t.status;
      assignees, startDate, endDate := t.assignees, t.startDate, t.endDate;
      progress, createdAt, updatedAt := t.progress, t.createdAt, t.updatedAt;
    }

    /** The object's current field values. */
    function Value(): Task
      reads this
    {
      Task(id, title, description, status, assignees, startDate, endDate, progress, createdAt, updatedAt)
    }
  }

  function RecordsOf(es: seq<(string, TaskRecord)>): set<TaskRecord> {
    set i | 0 <= i < |es| :: es[i].1
  }

  /** `Array.from(map.values())`, read in the current heap. */
  function Snapshot(es: seq<(string, TaskRecord)>): (vs: seq<Task>)
    reads RecordsOf(es)
    ensures |vs| == |es|
    ensures forall i :: 0 <= i < |es| ==> vs[i] == es[i].1.Value()
  {
    seq(|es|, i reads RecordsOf(es) requires 0 <= i < |es| => es[i].1.Value())
  }

  /** The objects of entries whose object has status `s`, in entry order: the store's `filter` by status. */
  function RecordsWithStatus(es: seq<(string, TaskRecord)>, s: Status): (r: seq<TaskRecord>)
    reads RecordsOf(es)
    ensures |r| == |OfStatus(Snapshot(es), s)|
    ensures forall x :: x in r ==> x in RecordsOf(es)
    ensures forall k :: 0 <= k < |r| ==> r[k].Value() == OfStatus(Snapshot(es), s)[k]
  {
    if es == [] then []
    else
      var init := es[..|es| - 1];
      assert Snapshot(es)[..|es| - 1] == Snapshot(init);
      assert RecordsOf(init) <= RecordsOf(es);
      RecordsWithStatus(init, s) + (if es[|es| - 1].1.status == s then [es[|es| - 1].1] else [])
  }

  /** The snapshot of one entry more is the snapshot with that entry's value appended. */
  lemma SnapshotSnoc(es: seq<(string, TaskRecord)>, e: (string, TaskRecord))
    ensures Snapshot(es + [e]) == Snapshot(es) + [e.1.Value()]
  {
  }

  /**
   * The entries of the corrected `reorderTasks`: in entry order, each slot of
   * status group `s` is overwritten by the next object of `group`, under that
   * object's id; the other entries stay.
   */
  function RefillRecords(es: seq<(string, TaskRecord)>, s: Status, group: seq<TaskRecord>): (r: seq<(string, TaskRecord)>)
    reads RecordsOf(es), set k | 0 <= k < |group| :: group[k]
    ensures |r| == |es|
  {
    if es == [] then []
    else
      var init, last := es[..|es| - 1], es[|es| - 1];
      assert RecordsOf(init) <= RecordsOf(es);
      if last.1.status == s && group != [] then
        var x := group[|group| - 1];
        RefillRecords(init, s, group[..|group| - 1]) + [(x.id, x)]
      else RefillRecords(init, s, group) + [last]
  }

  /** Every entry is held under its object's id. */
  predicate KeyedByOwnId(es: seq<(string, TaskRecord)>)
    reads RecordsOf(es)
  {
    forall i :: 0 <= i < |es| ==> es[i].0 == es[i].1.id
  }

  /** The corrected write-back keeps every entry under its object's id. */
  lemma {:induction false} RefillRecordsKeyed(es: seq<(string, TaskRecord)>, s: Status, group: seq<TaskRecord>)
    requires KeyedByOwnId(es)
    ensures KeyedByOwnId(RefillRecords(es, s, group))
  {
    if es != [] {
      var init, last := es[..|es| - 1], es[|es| - 1];
      var r := RefillRecords(es, s, group);
      var r0: seq<(string, TaskRecord)>;
      if last.1.status == s && group != [] {
        var x := group[|group| - 1];
        RefillRecordsKeyed(init, s, group[..|group| - 1]);
        r0 := RefillRecords(init, s, group[..|group| - 1]);
        assert r == r0 + [(x.id, x)];
      } else {
        RefillRecordsKeyed(init, s, group);
        r0 := RefillRecords(init, s, group);
        assert r == r0 + [last];
      }
      forall i | 0 <= i < |r| ensures r[i].0 == r[i].1.id {
        if i < |r0| {
          assert r[i] == r0[i];
        }
      }
    }
  }

  /** After the corrected write-back the Map reads the refill of its values. */
  lemma {:induction false} RefillRecordsValues(es: seq<(string, TaskRecord)>, s: Status, group: seq<TaskRecord>, values: seq<Task>)
    requires |group| == |values|
    requires forall k :: 0 <= k < |group| ==> group[k].Value() == values[k]
    ensures Snapshot(RefillRecords(es, s, group)) == Refill(Snapshot(es), s, values)
  {
    if es != [] {
      var init, last := es[..|es| - 1], es[|es| - 1];
      var vs := Snapshot(es);
      assert Snapshot(init) == vs[..|es| - 1];
      if last.1.status == s && group != [] {
        var g, x := group[..|group| - 1], group[|group| - 1];
        var v := values[..|values| - 1];
        RefillRecordsValues(init, s, g, v);
        var r0 := RefillRecords(init, s, g);
        assert RefillRecords(es, s, group) == r0 + [(x.id, x)];
        SnapshotSnoc(r0, (x.id, x));
        assert Refill(vs, s, values) == Refill(vs[..|es| - 1], s, v) + [values[|values| - 1]];
      } else {
        RefillRecordsValues(init, s, group, values);
        var r0 := RefillRecords(init, s, group);
        assert RefillRecords(es, s, group) == r0 + [last];
        SnapshotSnoc(r0, last);
        assert Refill(vs, s, values) == Refill(vs[..|es| - 1], s, values) + [vs[|es| - 1]];
      }
    }
  }

  /** A snapshot only depends on its objects' fields. */
  twostate lemma SnapshotUnchanged(es: seq<(string, TaskRecord)>)
    requires forall i :: 0 <= i < |es| ==> old(allocated(es[i].1)) && unchanged(es[i].1)
    ensures Snapshot(es) == old(Snapshot(es))
  {
    assert forall i :: 0 <= i < |es| ==> es[i].1.Value() == old(es[i].1.Value());
  }

  /** For entries keyed by their objects' ids, distinct keys and distinct task ids are the same thing. */
  lemma KeyedDistinct(es: seq<(string, TaskRecord)>)
    requires forall i :: 0 <= i < |es| ==> es[i].0 == es[i].1.id
    ensures JsMap.DistinctKeys(es) <==> DistinctIds(Snapshot(es))
  {
    var vs := Snapshot(es);
    assert forall i :: 0 <= i < |es| ==> vs[i].id == es[i].0;
  }

  /** Moving objects with `arrayMove` moves their values alike. */
  lemma ArrayMoveValues(rs: seq<TaskRecord>, vs: seq<Task>, from: int, to: int)
    requires |rs| == |vs| && 0 <= from < |rs| && 0 <= to < |rs|
    requires forall k :: 0 <= k < |rs| ==> rs[k].Value() == vs[k]
    ensures forall k :: 0 <= k < |rs| ==> Sortable.ArrayMove(rs, from, to)[k].Value() == Sortable.ArrayMove(vs, from, to)[k]
  {
    forall k | 0 <= k < |rs| ensures Sortable.ArrayMove(rs, from, to)[k].Value() == Sortable.ArrayMove(vs, from, to)[k] {
      Sortable.ArrayMoveAt(rs, from, to, k);
      Sortable.ArrayMoveAt(vs, from, to, k);
    }
  }

  // ---------------------------------------------------------------------
  // The operations as functions of the sequence of task values.

  /** The task `addTask` builds: the input's fields, progress 0, and store-assigned id and timestamps. */
  function NewTask(data: TaskInput, id: string, now: int): Task {
    Task(id, data.title, data.description, data.status, data.assignees, data.startDate, data.endDate, 0, now, now)
  }

  /** `addTask` ignores any progress in its input; id and both timestamps are the store's, every other field the input's. */
  lemma NewTaskFields(data: TaskInput, id: string, now: int, p: Option<int>)
    ensures NewTask(data.(progress := p), id, now) == NewTask(data, id, now)
    ensures var t := NewTask(data, id, now);
      && t.progress == 0 && t.id == id && t.createdAt == now && t.updatedAt == now
      && t.title == data.title && t.description == data.description && t.status == data.status
      && t.assignees == data.assignees && t.startDate == data.startDate && t.endDate == data.endDate
  {
  }

  /** The two in-place field updates: `moveTask` sets the status, `updateProgress` the progress. */
  datatype Change = StatusChange(status: Status) | ProgressChange(progress: int)

  function Apply(t: Task, c: Change, now: int): Task {
    match c
    case StatusChange(s) => t.(status := s, updatedAt := now)
    case ProgressChange(p) => t.(progress := p, updatedAt := now)
  }

  /** Every task whose id is `id` gets the change; all others stay as they are. */
  function Changed(ts: seq<Task>, id: string, c: Change, now: int): (r: seq<Task>)
    ensures |r| == |ts|
  {
    if ts == [] then []
    else
      var t := ts[|ts| - 1];
      Changed(ts[..|ts| - 1], id, c, now) + [if t.id == id then Apply(t, c, now) else t]
  }

  lemma {:induction false} ChangedAt(ts: seq<Task>, id: string, c: Change, now: int, i: nat)
    requires i < |ts|
    ensures Changed(ts, id, c, now)[i] == if ts[i].id == id then Apply(ts[i], c, now) else ts[i]
  {
    if i < |ts| - 1 {
      ChangedAt(ts[..|ts| - 1], id, c, now, i);
    }
  }

  lemma {:induction false} ChangedAppend(a: seq<Task>, b: seq<Task>, id: string, c: Change, now: int)
    ensures Changed(a + b, id, c, now) == Changed(a, id, c, now) + Changed(b, id, c, now)
  {
    if b == [] {
      assert a + b == a;
    } else {
      assert (a + b)[..|a + b| - 1] == a + b[..|b| - 1];
      ChangedAppend(a, b[..|b| - 1], id, c, now);
    }
  }

  /**
   * A change touches only the task with that id, and only the field it names
   * plus `updatedAt`: ids, `createdAt` and every other task stay as they were.
   */
  lemma ChangeTouchesOnlyTarget(ts: seq<Task>, id: string, c: Change, now: int)
    ensures Ids(Changed(ts, id, c, now)) == Ids(ts)
    ensures forall i :: 0 <= i < |ts| ==> Changed(ts, id, c, now)[i].createdAt == ts[i].createdAt
    ensures forall i :: 0 <= i < |ts| && ts[i].id != id ==> Changed(ts, id, c, now)[i] == ts[i]
    ensures forall i :: 0 <= i < |ts| && ts[i].id == id && c.StatusChange? ==>
      Changed(ts, id, c, now)[i] == ts[i].(status := c.status, updatedAt := now)
    ensures forall i :: 0 <= i < |ts| && ts[i].id == id && c.ProgressChange? ==>
      Changed(ts, id, c, now)[i] == ts[i].(progress := c.progress, updatedAt := now)
  {
    forall i | 0 <= i < |ts| {
      ChangedAt(ts, id, c, now, i);
    }
  }

  /** An unknown id changes nothing. */
  lemma UnknownIdChangesNothing(ts: seq<Task>, id: string, c: Change, now: int)
    requires id !in Ids(ts)
    ensures Changed(ts, id, c, now) == ts
  {
    ChangeTouchesOnlyTarget(ts, id, c, now);
  }

  /** With a clock that does not run backwards, `updatedAt` never decreases and `createdAt` never changes. */
  lemma ChangeTimestamps(ts: seq<Task>, id: string, c: Change, now: int)
    requires forall t :: t in ts ==> t.updatedAt <= now
    ensures forall i :: 0 <= i < |ts| ==>
      Changed(ts, id, c, now)[i].updatedAt >= ts[i].updatedAt && Changed(ts, id, c, now)[i].createdAt == ts[i].createdAt
  {
    ChangeTouchesOnlyTarget(ts, id, c, now);
    forall i | 0 <= i < |ts| ensures Changed(ts, id, c, now)[i].updatedAt >= ts[i].updatedAt {
      assert ts[i] in ts;
    }
  }

  /** The tasks of `ts` other than the one with id `id`, in order. */
  function Without(ts: seq<Task>, id: string): (r: seq<Task>)
    ensures forall t :: t in r <==> t in ts && t.id != id
  {
    if ts == [] then []
    else
      var init := ts[..|ts| - 1];
      assert ts == init + [ts[|ts| - 1]];
      Without(init, id) + (if ts[|ts| - 1].id != id then [ts[|ts| - 1]] else [])
  }

  /**
   * Moving or updating one task leaves the relative order of all other tasks
   * within every status group as it was, in the group it leaves and in the one it enters.
   */
  lemma {:induction false} ChangeKeepsGroupOrder(ts: seq<Task>, id: string, c: Change, now: int, s: Status)
    ensures Without(OfStatus(Changed(ts, id, c, now), s), id) == Without(OfStatus(ts, s), id)
  {
    if ts != [] {
      var init := ts[..|ts| - 1];
      var t := ts[|ts| - 1];
      ChangeKeepsGroupOrder(init, id, c, now, s);
      var t' := if t.id == id then Apply(t, c, now) else t;
      var ch := Changed(ts, id, c, now);
      assert ch[..|ch| - 1] == Changed(init, id, c, now);
      assert ch[|ch| - 1] == t';
      var g := OfStatus(Changed(init, id, c, now), s);
      var tail := if t'.status == s then [t'] else [];
      assert OfStatus(ch, s) == g + tail;
      WithoutAppend(g, tail, id);
      WithoutAppend(OfStatus(init, s), if t.status == s then [t] else [], id);
    }
  }

  lemma {:induction false} WithoutAppend(a: seq<Task>, b: seq<Task>, id: string)
    ensures Without(a + b, id) == Without(a, id) + Without(b, id)
  {
    if b == [] {
      assert a + b == a;
    } else {
      assert (a + b)[..|a + b| - 1] == a + b[..|b| - 1];
      WithoutAppend(a, b[..|b| - 1], id);
    }
  }

  /**
   * A moved task keeps its canonical position: in its new status group it sits
   * between the group's tasks that precede it and those that follow it in the
   * store, not at the end of the group.
   */
  lemma MoveKeepsCanonicalPosition(ts: seq<Task>, k: nat, s: Status, now: int)
    requires DistinctIds(ts) && k < |ts|
    ensures OfStatus(Changed(ts, ts[k].id, StatusChange(s), now), s)
         == OfStatus(ts[..k], s) + [ts[k].(status := s, updatedAt := now)] + OfStatus(ts[k + 1..], s)
  {
    var id := ts[k].id;
    var c := StatusChange(s);
    assert ts == ts[..k] + [ts[k]] + ts[k + 1..];
    ChangedAppend(ts[..k] + [ts[k]], ts[k + 1..], id, c, now);
    ChangedAppend(ts[..k], [ts[k]], id, c, now);
    assert id !in Ids(ts[..k]);
    assert id !in Ids(ts[k + 1..]) by {
      var tail := ts[k + 1..];
      forall j | 0 <= j < |tail| ensures tail[j].id != id {
        assert tail[j] == ts[k + 1 + j];
      }
    }
    UnknownIdChangesNothing(ts[..k], id, c, now);
    UnknownIdChangesNothing(ts[k + 1..], id, c, now);
    assert Changed([ts[k]], id, c, now) == [Apply(ts[k], c, now)] by {
      assert [ts[k]][..0] == [];
    }
    var moved := ts[k].(status := s, updatedAt := now);
    OfStatusAppend(ts[..k] + [moved], ts[k + 1..], s);
    OfStatusAppend(ts[..k], [moved], s);
    assert OfStatus([moved], s) == [moved] by {
      assert [moved][..0] == [];
    }
  }

  /**
   * Two tasks, "a" in backlog and "b" in progress: moving "a" to in-progress
   * puts it before "b", so it is not appended to the end of its new group.
   */
  lemma MoveNotAppendedWitness(a: Task, b: Task, now: int)
    requires a.id == "a" && a.status == Backlog && b.id == "b" && b.status == InProgress
    ensures OfStatus(Changed([a, b], "a", StatusChange(InProgress), now), InProgress)
         == [a.(status := InProgress, updatedAt := now), b]
  {
    MoveKeepsCanonicalPosition([a, b], 0, InProgress, now);
    assert [a, b][..0] == [] && [a, b][1..] == [b];
    assert OfStatus([b], InProgress) == [b] by {
      assert [b][..0] == [];
    }
  }

  // ---------------------------------------------------------------------
  // The reorder the board evidently intends: the group's positions in the
  // store are refilled, in order, with the moved group.

  /** The tasks of `ts`, with the slots of status group `s` filled, in order, from `group`. */
  function Refill(ts: seq<Task>, s: Status, group: seq<Task>): (r: seq<Task>)
    ensures |r| == |ts|
  {
    if ts == [] then []
    else
      var init := ts[..|ts| - 1];
      if ts[|ts| - 1].status == s && group != [] then
        Refill(init, s, group[..|group| - 1]) + [group[|group| - 1]]
      else Refill(init, s, group) + [ts[|ts| - 1]]
  }

  /** Refilling group `s` makes that group read exactly `group`. */
  lemma {:induction false} RefillOwnGroup(ts: seq<Task>, s: Status, group: seq<Task>)
    requires |group| == |OfStatus(ts, s)|
    requires forall t :: t in group ==> t.status == s
    ensures OfStatus(Refill(ts, s, group), s) == group
  {
    if ts != [] {
      var init, last := ts[..|ts| - 1], ts[|ts| - 1];
      if last.status == s {
        var g, x := group[..|group| - 1], group[|group| - 1];
        assert group == g + [x];
        assert x in group;
        assert forall t :: t in g ==> t in group;
        assert OfStatus(ts, s) == OfStatus(init, s) + [last];
        RefillOwnGroup(init, s, g);
        var r := Refill(init, s, g);
        assert Refill(ts, s, group) == r + [x];
        OfStatusSnoc(r, x, s);
      } else {
        assert OfStatus(ts, s) == OfStatus(init, s);
        RefillOwnGroup(init, s, group);
        var r := Refill(init, s, group);
        assert Refill(ts, s, group) == r + [last];
        OfStatusSnoc(r, last, s);
      }
    }
  }

  /** Refilling group `s` leaves every other group as it was. */
  lemma {:induction false} RefillOtherGroup(ts: seq<Task>, s: Status, group: seq<Task>, s': Status)
    requires |group| == |OfStatus(ts, s)|
    requires forall t :: t in group ==> t.status == s
    requires s' != s
    ensures OfStatus(Refill(ts, s, group), s') == OfStatus(ts, s')
  {
    if ts != [] {
      var init := ts[..|ts| - 1];
      var r := Refill(ts, s, group);
      if ts[|ts| - 1].status == s {
        var g := group[..|group| - 1];
        assert forall t :: t in g ==> t in group;
        RefillOtherGroup(init, s, g, s');
        assert r[..|r| - 1] == Refill(init, s, g);
        assert group[|group| - 1] in group;
      } else {
        RefillOtherGroup(init, s, group, s');
        assert r[..|r| - 1] == Refill(init, s, group);
      }
    }
  }

  /**
   * `reorderTasks` as intended: group `s` of the store reads `arrayMove(group, from, to)`
   * afterwards. The board only passes indices within the group; others change nothing here.
   */
  function IntendedReorder(ts: seq<Task>, s: Status, from: int, to: int): (r: seq<Task>)
    ensures |r| == |ts|
  {
    var g := OfStatus(ts, s);
    if 0 <= from < |g| && 0 <= to < |g| then Refill(ts, s, Sortable.ArrayMove(g, from, to)) else ts
  }

  /** The intended reorder moves the element within its group and leaves every other group as it was. */
  lemma IntendedReorderGroups(ts: seq<Task>, s: Status, from: int, to: int)
    requires 0 <= from < |OfStatus(ts, s)| && 0 <= to < |OfStatus(ts, s)|
    ensures OfStatus(IntendedReorder(ts, s, from, to), s) == Sortable.ArrayMove(OfStatus(ts, s), from, to)
    ensures forall s' :: s' != s ==> OfStatus(IntendedReorder(ts, s, from, to), s') == OfStatus(ts, s')
  {
    var g := OfStatus(ts, s);
    var moved := Sortable.ArrayMove(g, from, to);
    Sortable.ArrayMoveMembers(g, from, to);
    OfStatusMembers(ts, s);
    RefillOwnGroup(ts, s, moved);
    forall s' | s' != s ensures OfStatus(IntendedReorder(ts, s, from, to), s') == OfStatus(ts, s') {
      RefillOtherGroup(ts, s, moved, s');
    }
  }

  /** Refilling trades the group's tasks for `group`: as multisets, the old group leaves and `group` enters. */
  lemma {:induction false} RefillMultiset(ts: seq<Task>, s: Status, group: seq<Task>)
    requires |group| == |OfStatus(ts, s)|
    ensures multiset(Refill(ts, s, group)) + multiset(OfStatus(ts, s)) == multiset(ts) + multiset(group)
  {
    if ts != [] {
      var init := ts[..|ts| - 1];
      if ts[|ts| - 1].status == s {
        var g := group[..|group| - 1];
        RefillMultiset(init, s, g);
        TradeBoth(ts, group, Refill(init, s, g), OfStatus(init, s));
      } else {
        RefillMultiset(init, s, group);
        TradeNone(ts, group, Refill(init, s, group), OfStatus(init, s));
      }
    }
  }

  /** The multiset step of a refilled group slot: the group's last task enters, the slot's task leaves. */
  lemma TradeBoth(ts: seq<Task>, group: seq<Task>, r: seq<Task>, o: seq<Task>)
    requires ts != [] && group != []
    requires multiset(r) + multiset(o) == multiset(ts[..|ts| - 1]) + multiset(group[..|group| - 1])
    ensures multiset(r + [group[|group| - 1]]) + multiset(o + [ts[|ts| - 1]]) == multiset(ts) + multiset(group)
  {
    var x, last := group[|group| - 1], ts[|ts| - 1];
    assert ts == ts[..|ts| - 1] + [last];
    assert group == group[..|group| - 1] + [x];
    forall y ensures (multiset(r + [x]) + multiset(o + [last]))[y] == (multiset(ts) + multiset(group))[y] {
      assert (multiset(r) + multiset(o))[y] == (multiset(ts[..|ts| - 1]) + multiset(group[..|group| - 1]))[y];
    }
  }

  /** The multiset step of a slot outside the group: its task stays on both sides. */
  lemma TradeNone(ts: seq<Task>, group: seq<Task>, r: seq<Task>, o: seq<Task>)
    requires ts != []
    requires multiset(r) + multiset(o) == multiset(ts[..|ts| - 1]) + multiset(group)
    ensures multiset(r + [ts[|ts| - 1]]) + multiset(o) == multiset(ts) + multiset(group)
  {
    var last := ts[|ts| - 1];
    assert ts == ts[..|ts| - 1] + [last];
    forall y ensures (multiset(r + [last]) + multiset(o))[y] == (multiset(ts) + multiset(group))[y] {
      assert (multiset(r) + multiset(o))[y] == (multiset(ts[..|ts| - 1]) + multiset(group))[y];
    }
  }

  /** With distinct ids, no task occurs twice. */
  lemma {:induction false} DistinctOnce(ts: seq<Task>, t: Task)
    requires DistinctIds(ts)
    ensures multiset(ts)[t] <= 1
  {
    if ts != [] {
      var init, last := ts[..|ts| - 1], ts[|ts| - 1];
      assert ts == init + [last];
      DistinctOnce(init, t);
      forall i | 0 <= i < |init| ensures init[i] != last {
        assert ts[i] == init[i];
      }
    }
  }

  /** A permutation of tasks with distinct ids has distinct ids. */
  lemma DistinctIdsPermutation(a: seq<Task>, b: seq<Task>)
    requires multiset(a) == multiset(b) && DistinctIds(a)
    ensures DistinctIds(b)
  {
    forall i, j | 0 <= i < j < |b| ensures b[i].id != b[j].id {
      assert b[i] in multiset(a) && b[j] in multiset(a);
      var p :| 0 <= p < |a| && a[p] == b[i];
      var q :| 0 <= q < |a| && a[q] == b[j];
      if b[i] == b[j] {
        var x := b[i];
        assert b == b[..i] + [x] + (b[i + 1..j] + [x] + b[j + 1..]);
        assert multiset(b) == multiset(b[..i]) + multiset{x} + (multiset(b[i + 1..j]) + multiset{x} + multiset(b[j + 1..]));
        assert multiset(b)[x] >= 2;
        DistinctOnce(a, x);
        assert false;
      }
    }
  }

  /** The intended reorder permutes the tasks, so their ids stay distinct. */
  lemma IntendedReorderDistinct(ts: seq<Task>, s: Status, from: int, to: int)
    requires DistinctIds(ts)
    ensures multiset(IntendedReorder(ts, s, from, to)) == multiset(ts)
    ensures DistinctIds(IntendedReorder(ts, s, from, to))
  {
    var g := OfStatus(ts, s);
    var r := IntendedReorder(ts, s, from, to);
    if 0 <= from < |g| && 0 <= to < |g| {
      var moved := Sortable.ArrayMove(g, from, to);
      Sortable.ArrayMovePermutation(g, from, to);
      RefillMultiset(ts, s, moved);
      assert r == Refill(ts, s, moved);
      Cancel(multiset(r), multiset(g), multiset(ts), multiset(moved));
    }
    DistinctIdsPermutation(ts, r);
  }

  /** Multiset cancellation: adding equal multisets to both sides keeps them equal. */
  lemma Cancel(a: multiset<Task>, g: multiset<Task>, t: multiset<Task>, m: multiset<Task>)
    requires a + g == t + m && m == g
    ensures a == t
  {
    forall x ensures a[x] == t[x] {
      assert (a + g)[x] == (t + m)[x];
    }
  }

  /**
   * Two backlog tasks: the intended reorder from 0 to 1 swaps them, whereas
   * the store's reorderTasks (which returns the same values) leaves them as they were.
   */
  lemma ReorderNoOpWitness(a: Task, b: Task)
    requires a.status == Backlog && b.status == Backlog && a != b
    ensures OfStatus(IntendedReorder([a, b], Backlog, 0, 1), Backlog) == [b, a]
    ensures OfStatus([a, b], Backlog) == [a, b] != [b, a]
  {
    assert [a, b][..1] == [a];
    assert [a][..0] == [];
    assert OfStatus([a, b], Backlog) == [a, b];
    IntendedReorderGroups([a, b], Backlog, 0, 1);
    assert Sortable.ArrayMove([a, b], 0, 1) == [b, a];
  }

  // ---------------------------------------------------------------------
  // The seed data and the store itself.

  /**
   * `initialTasks`: six tasks with the given (fresh) ids, timestamps `now`, and
   * dates given as the ISO text of today plus a number of days.
   */
  function InitialTasks(ids: seq<string>, now: int, dayIso: int -> string): (r: seq<Task>)
    requires |ids| == 6
    ensures |r| == 6 && Ids(r) == ids
  {
    [ Task(ids[0], "UI Kit Update", Some("Revise design system components"), Backlog,
           ["John Smith"], Some(dayIso(0)), Some(dayIso(7)), 0, now, now),
      Task(ids[1], "Company Roadmap", Some("Create quarterly strategic plan"), Backlog,
           ["Jane"], Some(dayIso(0)), Some(dayIso(10)), 0, now, now),
      Task(ids[2], "Communication Plan", Some("Develop team communication strategy"), InProgress,
           ["Mike"], Some(dayIso(0)), Some(dayIso(5)), 50, now, now),
      Task(ids[3], "API Documentation", Some("Update technical documentation"), Paused,
           ["Jane", "Mike"], Some(dayIso(0)), Some(dayIso(8)), 30, now, now),
      Task(ids[4], "Main page update", Some("Implement new hero section"), InProgress,
           ["John Smith", "Sarah Chen"], Some(dayIso(-2)), Some(dayIso(5)), 35, now, now),
      Task(ids[5], "Analytics Dashboard", Some("Create new analytics features"), InProgress,
           ["Mike Wilson", "Jane Cooper"], Some(dayIso(-1)), Some(dayIso(6)), 45, now, now) ]
  }

  /** The seed keeps progress within its documented range. */
  lemma InitialTasksInRange(ids: seq<string>, now: int, dayIso: int -> string)
    requires |ids| == 6
    ensures forall t :: t in InitialTasks(ids, now, dayIso) ==> ProgressInRange(t)
  {
  }

  /** The seed's ids are the ones drawn for it, in order. */
  lemma InitialTasksIds(ids: seq<string>, now: int, dayIso: int -> string)
    requires |ids| == 6 && forall i, j :: 0 <= i < j < 6 ==> ids[i] != ids[j]
    ensures Ids(InitialTasks(ids, now, dayIso)) == ids
    ensures DistinctIds(InitialTasks(ids, now, dayIso))
  {
    var seed := InitialTasks(ids, now, dayIso);
    assert forall i :: 0 <= i < 6 ==> seed[i].id == ids[i];
  }

  class TaskStore {
    /** The Map's entries in insertion order: (key, task object). */
    var tasks: seq<(string, TaskRecord)>

    function Records(): set<TaskRecord>
      reads this
    {
      RecordsOf(tasks)
    }

    /** Keys are distinct (they are Map keys) and each is the id of its task. */
    ghost predicate Valid()
      reads this, Records()
    {
      && JsMap.DistinctKeys(tasks)
      && forall i :: 0 <= i < |tasks| ==> tasks[i].0 == tasks[i].1.id
    }

    function Keys(): seq<string>
      reads this
    {
      JsMap.Keys(tasks)
    }

    /** The canonical task sequence, `Array.from(tasks.values())`. */
    function Values(): seq<Task>
      reads this, Records()
    {
      Snapshot(tasks)
    }

    /** The Map with the current field values of its objects. */
    function Entries(): (es: seq<(string, Task)>)
      reads this, Records()
      ensures |es| == |tasks|
      ensures forall i :: 0 <= i < |tasks| ==> es[i] == (tasks[i].0, tasks[i].1.Value())
    {
      seq(|tasks|, i reads this, Records() requires 0 <= i < |tasks| => (tasks[i].0, tasks[i].1.Value()))
    }

    lemma ValidIds()
      requires Valid()
      ensures Ids(Values()) == Keys()
      ensures DistinctIds(Values())
      ensures JsMap.Keys(Entries()) == Keys() && JsMap.DistinctKeys(Entries())
      ensures forall i :: 0 <= i < |tasks| ==> Entries()[i].1 == Values()[i]
    {
    }

    /**
     * `create(...)` with `tasks: new Map(initialTasks.map(task => [task.id, task]))`.
     * The store is created from `InitialTasks`, whose ids are distinct (`InitialTasksIds`).
     */
    constructor (initialTasks: seq<Task>)
      requires DistinctIds(initialTasks)
      ensures Valid() && fresh(Records())
      ensures Keys() == Ids(initialTasks)
      ensures Values() == initialTasks
    {
      var m := Load(initialTasks);
      tasks := m;
    }

    /** `new Map(seed.map(task => [task.id, task]))`: one fresh object per task, keyed by its id, in order. */
    static method Load(seed: seq<Task>) returns (m: seq<(string, TaskRecord)>)
      requires DistinctIds(seed)
      ensures JsMap.Keys(m) == Ids(seed) && JsMap.DistinctKeys(m)
      ensures forall i :: 0 <= i < |m| ==> m[i].0 == m[i].1.id
      ensures fresh(RecordsOf(m))
      ensures Snapshot(m) == seed
    {
      m := [];
      for i := 0 to |seed|
        invariant |m| == i
        invariant forall k :: 0 <= k < i ==> m[k].0 == seed[k].id && m[k].1.Value() == seed[k]
        invariant forall k :: 0 <= k < i ==> fresh(m[k].1)
      {
        var r := new TaskRecord(seed[i]);
        assert seed[i].id !in JsMap.Keys(m);
        m := JsMap.Set(m, seed[i].id, r);
      }
      assert JsMap.Keys(m) == Ids(seed);
    }

    /** `addTask`: one new entry, appended last under a fresh id; earlier entries keep their order and values. */
    method AddTask(data: TaskInput, id: string, now: int)
      requires Valid() && id !in Keys()
      modifies this
      ensures Valid() && fresh(Records() - old(Records()))
      ensures Keys() == old(Keys()) + [id]
      ensures Values() == old(Values()) + [NewTask(data, id, now)]
      // the previous state's Map is a different Map and does not see the new task
      ensures Snapshot(old(tasks)) == old(Values())
    {
      var newTask := new TaskRecord(NewTask(data, id, now));
      assert Snapshot(old(tasks)) == old(Values());
      tasks := JsMap.Set(tasks, id, newTask);
      assert tasks == old(tasks) + [(id, newTask)];
      JsMap.KeysAppend(old(tasks), id, newTask);
    }

    /** The body `moveTask` and `updateProgress` share: look the object up and assign its fields. */
    method ChangeTask(taskId: string, c: Change, now: int)
      requires Valid()
      modifies this, Records()
      ensures Valid() && tasks == old(tasks)
      ensures Values() == Changed(old(Values()), taskId, c, now)
      // the object is shared, so the previous state's Map reads the new values as well
      ensures Snapshot(old(tasks)) == Values()
    {
      // `new Map(state.tasks)` holds the same entries, so storing it back leaves `tasks` as it is
      var task := JsMap.Get(tasks, taskId);
      if task.Some? {
        var r := task.value;
        ghost var k :| 0 <= k < |tasks| && tasks[k] == (taskId, r);
        ChangeEntry(r, k, c, now);
      } else {
        ghost var before := Values();
        assert taskId !in Ids(before);
        UnknownIdChangesNothing(before, taskId, c, now);
      }
    }

    /** Assigning the fields of the object of entry `k` changes exactly that task of the snapshot. */
    method ChangeEntry(r: TaskRecord, ghost k: nat, c: Change, now: int)
      requires Valid() && k < |tasks| && tasks[k].1 == r
      modifies r
      ensures Valid()
      ensures Values() == Changed(old(Values()), tasks[k].0, c, now)
    {
      ghost var before := Values();
      AssignFields(r, c, now);
      forall i | 0 <= i < |tasks|
        ensures Values()[i] == Changed(before, tasks[k].0, c, now)[i]
        ensures tasks[i].0 == tasks[i].1.id
      {
        ChangedAt(before, tasks[k].0, c, now, i);
        if i != k {
          assert tasks[i].0 != tasks[k].0;
        }
      }
      assert Values() == Changed(before, tasks[k].0, c, now);
    }

    /** `task.status = …` or `task.progress = …`, then `task.updatedAt = …`. */
    static method AssignFields(r: TaskRecord, c: Change, now: int)
      modifies r
      ensures r.Value() == Apply(old(r.Value()), c, now)
      ensures r.id == old(r.id)
    {
      match c {
        case StatusChange(s) => r.status := s;
        case ProgressChange(p) => r.progress := p;
      }
      r.updatedAt := now;
    }

    /** `moveTask`: only that task's status and `updatedAt` change; the key order, hence its position, stays. */
    method MoveTask(taskId: string, newStatus: Status, now: int)
      requires Valid()
      modifies this, Records()
      ensures Valid() && tasks == old(tasks)
      ensures Values() == Changed(old(Values()), taskId, StatusChange(newStatus), now)
      ensures Snapshot(old(tasks)) == Values()
    {
      ChangeTask(taskId, StatusChange(newStatus), now);
    }

    /** `updateProgress`: stores the value as given, with no clamping, and refreshes `updatedAt`. */
    method UpdateProgress(taskId: string, progress: int, now: int)
      requires Valid()
      modifies this, Records()
      ensures Valid() && tasks == old(tasks)
      ensures Values() == Changed(old(Values()), taskId, ProgressChange(progress), now)
      ensures Snapshot(old(tasks)) == Values()
    {
      ChangeTask(taskId, ProgressChange(progress), now);
    }

    /**
     * `reordered.forEach(task => updatedTasks.set(task.id, task))` on a copy of
     * `entries`, where every task object is already held under its own id: each
     * `set` overwrites an entry with itself, so the copy ends as it began.
     */
    static method WriteBack(entries: seq<(string, TaskRecord)>, reordered: seq<TaskRecord>)
      returns (updated: seq<(string, TaskRecord)>)
      requires JsMap.DistinctKeys(entries)
      requires forall i :: 0 <= i < |entries| ==> entries[i].0 == entries[i].1.id
      requires forall x :: x in reordered ==> x in RecordsOf(entries)
      ensures updated == entries
    {
      updated := entries;
      for i := 0 to |reordered|
        invariant updated == entries
      {
        var task := reordered[i];
        assert task in RecordsOf(entries);
        var k :| 0 <= k < |entries| && entries[k].1 == task;
        JsMap.SetSameValue(entries, k);
        updated := JsMap.Set(updated, task.id, task);
      }
    }

    /**
     * The Map `reorderTasks` stores: a copy of `entries` after the moved group is
     * written back under its own keys, which is `entries` again.
     */
    static method Reordered(entries: seq<(string, TaskRecord)>, status: Status, oldIndex: int, newIndex: int)
      returns (updated: seq<(string, TaskRecord)>)
      requires JsMap.DistinctKeys(entries)
      requires forall i :: 0 <= i < |entries| ==> entries[i].0 == entries[i].1.id
      requires 0 <= oldIndex < |OfStatus(Snapshot(entries), status)| && 0 <= newIndex < |OfStatus(Snapshot(entries), status)|
      ensures updated == entries
    {
      var statusTasks := RecordsWithStatus(entries, status);
      var reorderedTasks := Sortable.ArrayMove(statusTasks, oldIndex, newIndex);
      Sortable.ArrayMoveMembers(statusTasks, oldIndex, newIndex);
      updated := WriteBack(entries, reorderedTasks);
    }

    /**
     * The Map the corrected `reorderTasks` builds: the entries of the group's
     * tasks, in their positions, receive the moved group in order, each under its own id.
     */
    static method Refilled(entries: seq<(string, TaskRecord)>, status: Status, oldIndex: int, newIndex: int)
      returns (updated: seq<(string, TaskRecord)>)
      requires JsMap.DistinctKeys(entries)
      requires forall i :: 0 <= i < |entries| ==> entries[i].0 == entries[i].1.id
      requires 0 <= oldIndex < |OfStatus(Snapshot(entries), status)| && 0 <= newIndex < |OfStatus(Snapshot(entries), status)|
      ensures JsMap.DistinctKeys(updated)
      ensures forall i :: 0 <= i < |updated| ==> updated[i].0 == updated[i].1.id
      ensures Snapshot(updated) == IntendedReorder(Snapshot(entries), status, oldIndex, newIndex)
    {
      ghost var vs := Snapshot(entries);
      ghost var mv := Sortable.ArrayMove(OfStatus(vs, status), oldIndex, newIndex);
      var statusTasks := RecordsWithStatus(entries, status);
      var reorderedTasks := Sortable.ArrayMove(statusTasks, oldIndex, newIndex);
      ArrayMoveValues(statusTasks, OfStatus(vs, status), oldIndex, newIndex);
      updated := RefillRecords(entries, status, reorderedTasks);
      RefillRecordsKeyed(entries, status, reorderedTasks);
      RefillRecordsValues(entries, status, reorderedTasks, mv);
      assert Snapshot(entries) == vs;
      assert Snapshot(updated) == IntendedReorder(vs, status, oldIndex, newIndex);
      KeyedDistinct(entries);
      IntendedReorderDistinct(vs, status, oldIndex, newIndex);
      KeyedDistinct(updated);
    }

    /**
     * `reorderTasks` as its callers evidently intend: the status group reads
     * `arrayMove(group, oldIndex, newIndex)` afterwards, and the other groups
     * keep their tasks and order (`IntendedReorderGroups`).
     */
    method ReorderTasksAsIntended(status: Status, oldIndex: int, newIndex: int)
      requires Valid()
      requires 0 <= oldIndex < |OfStatus(Values(), status)| && 0 <= newIndex < |OfStatus(Values(), status)|
      modifies this
      ensures Valid()
      ensures Values() == IntendedReorder(old(Values()), status, oldIndex, newIndex)
    {
      ghost var before := Values();
      var updatedTasks := Refilled(tasks, status, oldIndex, newIndex);
      assert before == Snapshot(tasks);
      ghost var after := Snapshot(updatedTasks);
      label refilled:
      tasks := updatedTasks;
      SnapshotUnchanged@refilled(updatedTasks);
      assert Values() == after;
    }

    /**
     * `reorderTasks` as written: it moves the element within the filtered
     * group, then writes every task of the group back under its own key. A Map
     * keeps a key's position on `set`, so neither the key order nor any value changes.
     */
    method ReorderTasks(status: Status, oldIndex: int, newIndex: int)
      requires Valid()
      requires 0 <= oldIndex < |OfStatus(Values(), status)| && 0 <= newIndex < |OfStatus(Values(), status)|
      modifies this
      ensures Valid() && tasks == old(tasks)
      ensures Values() == old(Values())
    {
      var updatedTasks := Reordered(tasks, status, oldIndex, newIndex);
      tasks := updatedTasks;
    }
  }
}
