/**
 * The kanban board (src/component/TaskBoard.tsx): the four columns, the
 * grouping of the store's tasks by status, and what a finished drag does to the store.
 */
module TaskBoard {
  import opened Wrappers
  import opened TaskTypes
  import opened Strings
  import TaskColumn
  import JsMap
  import Store

  /** `COLUMNS`, in display order. */
  const COLUMNS: seq<Status> := [Backlog, InProgress, Paused, Completed]

  lemma ColumnsEnumerateStatuses(s: Status)
    ensures s in COLUMNS
    ensures forall i, j :: 0 <= i < j < |COLUMNS| ==> COLUMNS[i] != COLUMNS[j]
  {
    assert COLUMNS[StatusIndex(s)] == s;
  }

  function StatusIndex(s: Status): (i: nat)
    ensures i < |COLUMNS| && COLUMNS[i] == s
  {
    match s
    case Backlog => 0
    case InProgress => 1
    case Paused => 2
    case Completed => 3
  }

  /**
   * `tasksByStatus`: every column starts empty, then each task of the Map, in
   * iteration order, is pushed onto its status's list.
   */
  method GroupByStatus(tasks: seq<Task>) returns (grouped: map<Status, seq<Task>>)
    ensures forall s :: s in grouped && grouped[s] == OfStatus(tasks, s)
  {
    grouped := map[];
    for c := 0 to |COLUMNS|
      invariant forall k :: 0 <= k < c ==> COLUMNS[k] in grouped && grouped[COLUMNS[k]] == []
    {
      grouped := grouped[COLUMNS[c] := []];
    }
    forall s ensures s in grouped && grouped[s] == OfStatus(tasks[..0], s) {
      assert COLUMNS[StatusIndex(s)] == s;
    }
    for i := 0 to |tasks|
      invariant forall s :: s in grouped && grouped[s] == OfStatus(tasks[..i], s)
    {
      var task := tasks[i];
      var statusTasks := if task.status in grouped then grouped[task.status] else [];
      statusTasks := statusTasks + [task];
      grouped := grouped[task.status := statusTasks];
      assert tasks[..i + 1][..i] == tasks[..i];
    }
    assert tasks[..|tasks|] == tasks;
  }

  /** `Array.prototype.findIndex` on task ids, with -1 when no task has the id. */
  function FindIndex(ts: seq<Task>, id: string): (r: int)
    ensures -1 <= r < |ts|
    ensures r >= 0 ==> ts[r].id == id && forall j :: 0 <= j < r ==> ts[j].id != id
    ensures r == -1 ==> forall j :: 0 <= j < |ts| ==> ts[j].id != id
  {
    if ts == [] then -1
    else if ts[0].id == id then 0
    else
      var r := FindIndex(ts[1..], id);
      if r < 0 then -1 else r + 1
  }

  /** What `handleDragEnd` asks of the store. */
  datatype DragOutcome =
    | NoMutation
    | Move(taskId: string, newStatus: string)
    | Reorder(status: Status, oldIndex: int, newIndex: int)

  /**
   * The decision in `handleDragEnd`, on the Map's entries as the board last
   * rendered them: a drop on a column moves the task to the status named by the
   * column's id; a drop on another card of the same column reorders that column;
   * anything else changes nothing.
   */
  function DragEndOutcome(entries: seq<(string, Task)>, active: string, over: Option<string>): DragOutcome {
    if over.None? || active == over.value then NoMutation
    else
      var overId := over.value;
      match JsMap.Get(entries, active)
      case None => NoMutation
      case Some(activeTask) =>
        if Contains(overId, "column") then
          Move(activeTask.id, ReplaceFirst(overId, "-column", ""))
        else
          match JsMap.Get(entries, overId)
          case Some(overTask) =>
            if activeTask.status == overTask.status then
              var statusTasks := OfStatus(JsMap.Values(entries), activeTask.status);
              Reorder(activeTask.status, FindIndex(statusTasks, active), FindIndex(statusTasks, overId))
            else NoMutation
          case None => NoMutation
  }

  /** Entries of a Map keyed by task id. */
  ghost predicate KeyedById(entries: seq<(string, Task)>) {
    forall i :: 0 <= i < |entries| ==> entries[i].0 == entries[i].1.id
  }

  /** A key of a Map keyed by id names a task of its status group. */
  lemma GroupHoldsKey(entries: seq<(string, Task)>, k: string, t: Task)
    requires KeyedById(entries) && JsMap.Get(entries, k) == Some(t)
    ensures FindIndex(OfStatus(JsMap.Values(entries), t.status), k) >= 0
  {
    var i :| 0 <= i < |entries| && entries[i] == (k, t);
    assert JsMap.Values(entries)[i] == t;
    OfStatusMembers(JsMap.Values(entries), t.status);
    var g := OfStatus(JsMap.Values(entries), t.status);
    assert t in g;
    var j :| 0 <= j < |g| && g[j] == t;
    assert g[j].id == k;
  }

  /**
   * A reorder is only ever requested with two indices of the column: the dragged
   * card's and the card it was dropped on, which differ.
   */
  lemma ReorderIndicesInRange(entries: seq<(string, Task)>, active: string, over: Option<string>)
    requires KeyedById(entries)
    requires DragEndOutcome(entries, active, over).Reorder?
    ensures var out := DragEndOutcome(entries, active, over);
      var g := OfStatus(JsMap.Values(entries), out.status);
      && 0 <= out.oldIndex < |g| && 0 <= out.newIndex < |g|
      && g[out.oldIndex].id == active && g[out.newIndex].id == over.value
      && out.oldIndex != out.newIndex
  {
    var activeTask := JsMap.Get(entries, active).value;
    var overTask := JsMap.Get(entries, over.value).value;
    GroupHoldsKey(entries, active, activeTask);
    GroupHoldsKey(entries, over.value, overTask);
  }

  /** `over.id` of a column: the status whose droppable id it is, if any. */
  function ColumnOf(id: string): (r: Option<Status>)
    ensures r.Some? ==> TaskColumn.DroppableId(r.value) == id
    ensures r.None? ==> forall s :: TaskColumn.DroppableId(s) != id
  {
    if id == TaskColumn.DroppableId(Backlog) then Some(Backlog)
    else if id == TaskColumn.DroppableId(InProgress) then Some(InProgress)
    else if id == TaskColumn.DroppableId(Paused) then Some(Paused)
    else if id == TaskColumn.DroppableId(Completed) then Some(Completed)
    else None
  }

  /**
   * What the drag framework may report as `over`: a column's droppable id or a
   * card's sortable id, i.e. a key of the Map. Keys are uuids, which never
   * contain "column".
   */
  ghost predicate DropTargets(entries: seq<(string, Task)>, over: Option<string>) {
    && (forall i :: 0 <= i < |entries| ==> !Contains(entries[i].0, "column"))
    && (over.Some? ==> ColumnOf(over.value).Some? || over.value in JsMap.Keys(entries))
  }

  /** Dropping a task on a column asks to move it to exactly that column's status. */
  lemma DropOnColumnMoves(entries: seq<(string, Task)>, active: string, over: Option<string>)
    requires KeyedById(entries) && DropTargets(entries, over)
    requires active in JsMap.Keys(entries) && over.Some? && ColumnOf(over.value).Some?
    ensures DragEndOutcome(entries, active, over) == Move(active, StatusText(ColumnOf(over.value).value))
    ensures ParseStatus(DragEndOutcome(entries, active, over).newStatus) == ColumnOf(over.value)
  {
    var s := ColumnOf(over.value).value;
    TaskColumn.DroppableIdDecodes(s);
  }

  /** On valid targets, a move is requested exactly when a known task is dropped on a column. */
  lemma MoveIffColumnDrop(entries: seq<(string, Task)>, active: string, over: Option<string>)
    requires DropTargets(entries, over)
    ensures DragEndOutcome(entries, active, over).Move? <==>
      over.Some? && ColumnOf(over.value).Some? && active in JsMap.Keys(entries)
  {
    if over.Some? && active != over.value && JsMap.Get(entries, active).Some? && Contains(over.value, "column") {
      if ColumnOf(over.value).None? {
        assert false;
      }
    }
    if over.Some? && ColumnOf(over.value).Some? && active in JsMap.Keys(entries) {
      TaskColumn.DroppableIdDecodes(ColumnOf(over.value).value);
      if active == over.value {
        assert false;
      }
    }
  }

  /**
   * The task values after the store update `handleDragEnd` makes, as written: a
   * move stamps the task with the parsed status; a reorder calls `reorderTasks`,
   * which leaves every value as it was (`Store.TaskStore.ReorderTasks`), so it
   * ends like any other drop.
   */
  function DropResult(entries: seq<(string, Task)>, active: string, over: Option<string>, now: int): seq<Task> {
    var values := JsMap.Values(entries);
    match DragEndOutcome(entries, active, over)
    case Move(taskId, text) =>
      (match ParseStatus(text)
       case Some(status) => Store.Changed(values, taskId, Store.StatusChange(status), now)
       case None => values)
    case _ => values
  }

  /** `DropResult` with the corrected `reorderTasks` behind a reorder. */
  function DropResultAsIntended(entries: seq<(string, Task)>, active: string, over: Option<string>, now: int): seq<Task> {
    match DragEndOutcome(entries, active, over)
    case Reorder(status, oldIndex, newIndex) => Store.IntendedReorder(JsMap.Values(entries), status, oldIndex, newIndex)
    case _ => DropResult(entries, active, over, now)
  }

  /**
   * As written, on valid targets: a drop on a column moves a known task to
   * exactly that column's status, and every other drop, a reorder included,
   * leaves the values as they were.
   */
  lemma DropResultCases(entries: seq<(string, Task)>, active: string, over: Option<string>, now: int)
    requires KeyedById(entries) && DropTargets(entries, over)
    ensures var target := if over.Some? then ColumnOf(over.value) else None;
      var values := JsMap.Values(entries);
      if target.Some? && active in JsMap.Keys(entries) then
        DropResult(entries, active, over, now) == Store.Changed(values, active, Store.StatusChange(target.value), now)
      else
        DropResult(entries, active, over, now) == values
  {
    MoveIffColumnDrop(entries, active, over);
    if over.Some? && ColumnOf(over.value).Some? && active in JsMap.Keys(entries) {
      DropOnColumnMoves(entries, active, over);
    }
  }

  /**
   * With the corrected `reorderTasks`, on valid targets: a drop on a column
   * moves a known task to exactly that column's status; a drop on a same-status
   * card reorders that group; every other drop leaves the values as they were.
   */
  lemma DropResultAsIntendedCases(entries: seq<(string, Task)>, active: string, over: Option<string>, now: int)
    requires KeyedById(entries) && DropTargets(entries, over)
    ensures var target := if over.Some? then ColumnOf(over.value) else None;
      var outcome := DragEndOutcome(entries, active, over);
      var values := JsMap.Values(entries);
      if target.Some? && active in JsMap.Keys(entries) then
        DropResultAsIntended(entries, active, over, now) == Store.Changed(values, active, Store.StatusChange(target.value), now)
      else if outcome.Reorder? then
        DropResultAsIntended(entries, active, over, now) == Store.IntendedReorder(values, outcome.status, outcome.oldIndex, outcome.newIndex)
      else
        DropResultAsIntended(entries, active, over, now) == values
  {
    DropResultCases(entries, active, over, now);
    MoveIffColumnDrop(entries, active, over);
  }

  /**
   * A drag end asks nothing of the store when nothing is under the card, when it
   * is dropped on itself, when the dragged id is not in the Map, or when it is
   * dropped on a non-column id that is not a task of the same status.
   */
  lemma DragEndIgnored(entries: seq<(string, Task)>, active: string, over: Option<string>)
    ensures over.None? || over == Some(active) || active !in JsMap.Keys(entries) ==>
      DragEndOutcome(entries, active, over) == NoMutation
    ensures (&& over.Some? && active in JsMap.Keys(entries) && !Contains(over.value, "column")
             && (over.value !in JsMap.Keys(entries)
                 || JsMap.Get(entries, over.value).value.status != JsMap.Get(entries, active).value.status))
      ==> DragEndOutcome(entries, active, over) == NoMutation
  {
  }

  /** The board's own state: the id of the card being dragged, shown in the drag overlay. */
  class Board {
    var activeId: Option<string>
    const store: Store.TaskStore

    constructor (store: Store.TaskStore)
      ensures activeId == None && this.store == store
    {
      activeId := None;
      this.store := store;
    }

    /** `handleDragStart`. */
    method DragStart(id: string)
      modifies this
      ensures activeId == Some(id)
    {
      activeId := Some(id);
    }

    /** `activeTask`: the overlay shows the dragged task while it is in the Map. */
    function OverlayTask(): (t: Option<Task>)
      reads this, store, store.Records()
      requires store.Valid()
      ensures t.Some? <==> activeId.Some? && activeId.value in store.Keys()
      ensures t.Some? ==> t.value in store.Values() && t.value.id == activeId.value
    {
      store.ValidIds();
      match activeId
      case None => None
      case Some(id) =>
        match JsMap.Get(store.Entries(), id)
        case None => None
        case Some(t) =>
          var i :| 0 <= i < |store.tasks| && store.Entries()[i] == (id, t);
          assert store.Values()[i] == t;
          Some(t)
    }

    /**
     * `handleDragEnd`: a drop on another column's droppable moves the dragged
     * task there (stamping `updatedAt`); a drop on another task of its own
     * column calls `reorderTasks`, which as written changes nothing; every
     * other drop leaves the tasks as they were. The drag ends either way.
     */
    method DragEnd(active: string, over: Option<string>, now: int)
      requires store.Valid() && DropTargets(store.Entries(), over)
      modifies this, store, store.Records()
      ensures activeId == None
      ensures store.Valid() && store.Values() == DropResult(old(store.Entries()), active, over, now)
    {
      Drop(store, active, over, now);
      ghost var after := store.Values();
      assert store.Valid();
      activeId := None;
      assert store.Valid() && store.Values() == after;
    }

    /** The store update `handleDragEnd` makes for a drop of `active` on `over`. */
    static method Drop(store: Store.TaskStore, active: string, over: Option<string>, now: int)
      requires store.Valid() && DropTargets(store.Entries(), over)
      modifies store, store.Records()
      ensures store.Valid() && store.Values() == DropResult(old(store.Entries()), active, over, now)
    {
      store.ValidIds();
      var entries := store.Entries();
      ghost var before := store.Values();
      assert KeyedById(entries);
      assert JsMap.Values(entries) == before;
      var outcome := DragEndOutcome(entries, active, over);
      match outcome {
        case Move(_, _) =>
          DropOnColumn(store, active, over, now);
        case Reorder(status, oldIndex, newIndex) =>
          ReorderIndicesInRange(entries, active, over);
          store.ReorderTasks(status, oldIndex, newIndex);
          assert store.Values() == before == DropResult(entries, active, over, now);
        case NoMutation =>
          assert DropResult(entries, active, over, now) == before;
      }
    }

    /** A known task dropped on a column: `moveTask` to the status the column's id names. */
    static method DropOnColumn(store: Store.TaskStore, active: string, over: Option<string>, now: int)
      requires store.Valid() && DropTargets(store.Entries(), over)
      requires DragEndOutcome(store.Entries(), active, over).Move?
      modifies store, store.Records()
      ensures store.Valid() && store.Values() == DropResult(old(store.Entries()), active, over, now)
    {
      store.ValidIds();
      var entries := store.Entries();
      ghost var before := store.Values();
      assert KeyedById(entries);
      assert JsMap.Values(entries) == before;
      MoveIffColumnDrop(entries, active, over);
      DropOnColumnMoves(entries, active, over);
      var outcome := DragEndOutcome(entries, active, over);
      var newStatus := ParseStatus(outcome.newStatus).value;
      assert outcome.taskId == active && newStatus == ColumnOf(over.value).value;
      store.MoveTask(outcome.taskId, newStatus, now);
      assert store.Values() == Store.Changed(before, active, Store.StatusChange(newStatus), now);
    }

    /** `Drop` with the corrected `reorderTasks`: a same-column drop reorders that group. */
    static method DropAsIntended(store: Store.TaskStore, active: string, over: Option<string>, now: int)
      requires store.Valid() && DropTargets(store.Entries(), over)
      modifies store, store.Records()
      ensures store.Valid() && store.Values() == DropResultAsIntended(old(store.Entries()), active, over, now)
    {
      store.ValidIds();
      var entries := store.Entries();
      ghost var before := store.Values();
      assert KeyedById(entries);
      assert JsMap.Values(entries) == before;
      var outcome := DragEndOutcome(entries, active, over);
      if outcome.Reorder? {
        ReorderIndicesInRange(entries, active, over);
        store.ReorderTasksAsIntended(outcome.status, outcome.oldIndex, outcome.newIndex);
        assert store.Values() == Store.IntendedReorder(before, outcome.status, outcome.oldIndex, outcome.newIndex);
      } else {
        Drop(store, active, over, now);
        assert DropResultAsIntended(entries, active, over, now) == DropResult(entries, active, over, now);
      }
    }
  }
}
