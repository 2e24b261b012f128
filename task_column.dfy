/** One board column (src/component/TaskColumn.tsx): its title, droppable id and sortable items. */
module TaskColumn {
  import opened Wrappers
  import opened TaskTypes
  import opened Strings

  /** `getColumnTitle`. Its `default` branch has no counterpart: the match covers every status. */
  function ColumnTitle(s: Status): string {
    match s
    case Backlog => "Backlog"
    case InProgress => "In Progress"
    case Paused => "Paused"
    case Completed => "Completed"
  }

  /** The four columns have four different titles. */
  lemma ColumnTitlesDistinct(s: Status, s': Status)
    ensures ColumnTitle(s) == ColumnTitle(s') <==> s == s'
  {
  }

  /** The column's droppable id, `${status}-column`; `DroppableIdDecodes` states how the board reads it back. */
  function DroppableId(s: Status): string {
    StatusText(s) + "-column"
  }

  /** No status text holds a `-` followed by `c`, so `-column` first occurs at its end. */
  predicate NoDashC(p: string) {
    forall j :: 0 <= j < |p| && p[j] == '-' ==> j + 1 < |p| && p[j + 1] != 'c'
  }

  lemma NoEarlierSuffix(p: string)
    requires NoDashC(p)
    ensures forall j :: 0 <= j < |p| ==> !OccursAt(p + "-column", "-column", j)
  {
    forall j | 0 <= j < |p| ensures !OccursAt(p + "-column", "-column", j) {
      if OccursAt(p + "-column", "-column", j) {
        OccursHead(p + "-column", "-column", j);
      }
    }
  }

  /** A text free of `-c` followed by `-column` contains "column", and the first `-column` is that suffix. */
  lemma ColumnSuffixDecodes(p: string)
    requires NoDashC(p)
    ensures Contains(p + "-column", "column")
    ensures ReplaceFirst(p + "-column", "-column", "") == p
  {
    SuffixOccurs(p, "-column", 1);
    assert "-column"[1..] == "column";
    ContainsIff(p + "-column", "column");
    NoEarlierSuffix(p);
    ReplaceFirstSuffix(p, "-column");
  }

  /**
   * The board decodes a droppable id back to its column's status: the id contains
   * "column", and `overId.replace('-column', '')` is the status text, which parses
   * back to the same status.
   */
  lemma DroppableIdDecodes(s: Status)
    ensures Contains(DroppableId(s), "column")
    ensures ReplaceFirst(DroppableId(s), "-column", "") == StatusText(s)
    ensures ParseStatus(ReplaceFirst(DroppableId(s), "-column", "")) == Some(s)
  {
    assert NoDashC(StatusText(s));
    ColumnSuffixDecodes(StatusText(s));
    ParseStatusText(s);
  }

  /** The ids handed to `SortableContext`, one per rendered card, in the same order. */
  function SortableItems(tasks: seq<Task>): (items: seq<string>)
    ensures |items| == |tasks|
    ensures forall i :: 0 <= i < |tasks| ==> items[i] == tasks[i].id
  {
    Ids(tasks)
  }

  /** A column's sortable ids are distinct whenever the store's ids are. */
  lemma SortableItemsDistinct(ts: seq<Task>, s: Status)
    requires DistinctIds(ts)
    ensures forall i, j :: 0 <= i < j < |OfStatus(ts, s)| ==> SortableItems(OfStatus(ts, s))[i] != SortableItems(OfStatus(ts, s))[j]
  {
    OfStatusDistinct(ts, s);
  }

  lemma {:induction false} OfStatusDistinct(ts: seq<Task>, s: Status)
    requires DistinctIds(ts)
    ensures DistinctIds(OfStatus(ts, s))
  {
    if ts != [] {
      var init := ts[..|ts| - 1];
      OfStatusDistinct(init, s);
      OfStatusMembers(init, s);
      var g := OfStatus(init, s);
      if ts[|ts| - 1].status == s {
        forall i | 0 <= i < |g| ensures g[i].id != ts[|ts| - 1].id {
          assert g[i] in init;
          var j :| 0 <= j < |init| && init[j] == g[i];
        }
      }
    }
  }
}
