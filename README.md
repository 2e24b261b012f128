# Taskmanager core in Dafny

A model of the logic of Taskmanager, a React kanban board, with proofs.
It covers five parts:

- **The task store** (`src/store/useTaskStore.ts`). A zustand store holds one JavaScript `Map` from task id to task object. Four operations act on it: `addTask`, `moveTask`, `reorderTasks` and `updateProgress`.
- **The board** (`TaskBoard.tsx`, `TaskColumn.tsx`). This covers:
  - the four columns and the grouping of tasks by status;
  - the column droppable ids;
  - the decision `handleDragEnd` takes when a drag finishes;
  - the `activeId` drag state.
- **The dashboard** (`Dashboard.tsx`): the status counts, the rounded mean progress and the five nearest upcoming deadlines.
- **The members timeline** (`TimeLine.tsx`): tasks grouped by assignee, the zoom clamp, the first-match colour lookup and assignee initials.
- **The new-task form and the task card** (`TaskModal.tsx`, `TaskCard.tsx`):
  - the assignee toggle and the team-member search;
  - how the form is filled and what is submitted;
  - what a card shows.

Modules, one per file:

| module | file | models |
|---|---|---|
| `Wrappers` | `wrappers.dfy` | `Option`, for `undefined` |
| `Strings` | `strings.dfy` | `toLowerCase`, `toUpperCase`, `includes`, `replace`, `split` and `join`, over ASCII |
| `JsMap` | `js_map.dfy` | a `Map` as its entries in insertion order (section 24.1.3.9 of ECMA-262, 2023 edition, `Map.prototype.set`) |
| `TaskTypes` | `task_types.dfy` | `TaskStatus`, `Task`, the `addTask` input, status groups |
| `Sortable` | `sortable.dfy` | `arrayMove` of @dnd-kit/sortable |
| `Store` | `task_store.dfy` | the store as a class over shared, mutable task objects |
| `TaskBoard`, `TaskColumn` | `task_board.dfy`, `task_column.dfy` | the board and its columns |
| `Dashboard` | `dashboard.dfy` | the dashboard's `stats` |
| `Timeline` | `timeline.dfy` | the members timeline |
| `TaskModal`, `TaskCard` | `task_modal.dfy`, `task_card.dfy` | the form and the card |

## Main results

- **`reorderTasks` is an observable no-op.** It filters a status group, moves one element with `arrayMove`, and writes every task of the group back under its own id. `Map.set` on a present key keeps the key's position. So neither the key order nor any value changes (`Store.TaskStore.ReorderTasks`). Dragging a card onto another card of its column therefore leaves the board as it was: the board model calls `reorderTasks` as written (`TaskBoard.Board.Drop`), and such a drop leaves every value unchanged (`TaskBoard.DropResultCases`). See "## Findings". The corrected operation is `Store.TaskStore.ReorderTasksAsIntended`, and `TaskBoard.Board.DropAsIntended` is the drop that uses it. It writes the moved group back into the slots the group occupies, in order. The store's tasks are then a permutation of the old ones with distinct ids, and its groups read as the board intends (`Store.IntendedReorderGroups`, `Store.IntendedReorderDistinct`).
- **`moveTask` keeps the task at its canonical position.** The task is assigned its new status in place, and its Map entry does not move. So it lands in its new column between the tasks that precede and follow it in the Map, not at the end (`Store.MoveKeepsCanonicalPosition`, `Store.MoveNotAppendedWitness`).
- **The old state sees the change.** `moveTask` and `updateProgress` assign fields of the task object, and the Map of the previous state shares that object. The class model makes this explicit: tasks are `TaskRecord` objects, and `Snapshot(old(tasks))` reads the new values.
- **Column ids decode.** The board decodes a column's droppable id `${status}-column` with `includes('column')` and `replace('-column', '')`. This recovers the status (`TaskColumn.DroppableIdDecodes`).

## Model

| member | source | states |
|---|---|---|
| `TaskTypes.ParseStatus` | src/types/task.ts:1 | a string is read as a status exactly when it is one of the four status strings |
| `TaskTypes.ParseStatusText` | src/types/task.ts:1 | every status's string reads back as that status |
| `TaskTypes.OfStatusMembers` | src/component/TaskBoard.tsx:47-51 | a task is in a status group exactly when it is in the sequence and has that status |
| `TaskTypes.OfStatusAppend` | src/component/TaskBoard.tsx:47-51 | grouping by status distributes over concatenation, so each group keeps the canonical relative order |
| `TaskTypes.StatusGroupsPartition` | src/types/task.ts:7 | every task has exactly one status: the four group sizes add up to the number of tasks |
| `JsMap.Get` | src/store/useTaskStore.ts:106 | `get` finds a value exactly for a present key, and it is that key's entry |
| `JsMap.Set` | src/store/useTaskStore.ts:100 | `set` on a new key appends the entry; on a present key the key order is unchanged; other entries are untouched; keys stay distinct; the key then maps to the new value |
| `JsMap.SetInPlace` | src/store/useTaskStore.ts:124 | `set` on a present key overwrites that entry where it stands |
| `JsMap.SetSameValue` | src/store/useTaskStore.ts:124 | setting a key to the value it already holds leaves the Map as it was |
| `JsMap.GetSetOther` | src/store/useTaskStore.ts:100 | `set` on one key does not change the lookup of any other key |
| `Sortable.ArrayMove` | src/store/useTaskStore.ts:120 | same length, and the element at `to` is the one that was at `from` |
| `Sortable.ArrayMovePermutation` | src/store/useTaskStore.ts:120 | the result is a permutation of the input |
| `Sortable.ArrayMoveAt` | src/store/useTaskStore.ts:120 | outside the span between `from` and `to` nothing moves; inside it, elements shift by one towards the gap |
| `Sortable.ArrayMoveSame` | src/store/useTaskStore.ts:120 | a move from `i` to `i` gives the input back |
| `Sortable.ArrayMoveMembers` | src/store/useTaskStore.ts:120 | the result holds exactly the input's elements |
| `Store.TaskStore.constructor` | src/store/useTaskStore.ts:89 | the store starts as a Map of fresh task objects, keyed by id, in seed order, with the seed's values |
| `Store.TaskStore.Load` | src/store/useTaskStore.ts:89 | `new Map(seed.map(task => [task.id, task]))`: keys are the seed's ids in order and distinct, each key is its object's id, the objects are new and read as the seed |
| `Store.InitialTasksIds` | src/store/useTaskStore.ts:13-86 | the seed carries the six drawn ids, in order, so its ids are distinct |
| `Store.InitialTasksInRange` | src/store/useTaskStore.ts:13-86 | every seeded task has progress in 0..100 |
| `Store.NewTask` | src/store/useTaskStore.ts:92-98 | the task `addTask` builds; no contract of its own, it is characterised by `NewTaskFields` |
| `Store.NewTaskFields` | src/store/useTaskStore.ts:92-98 | the new task has progress 0 whatever the input says; its id and both timestamps are the store's; every other field is copied from the input |
| `Store.TaskStore.AddTask` | src/store/useTaskStore.ts:91-102 | one entry more, under the fresh id, appended last; earlier entries keep their order and values; the previous state's Map does not see the new task |
| `Store.TaskStore.ChangeTask` | src/store/useTaskStore.ts:104-114 | the shared body of `moveTask` and `updateProgress`: entries and key order are unchanged, the tasks read as `Changed` of the old ones, and the old state's Map reads the same new values |
| `Store.TaskStore.ChangeEntry` | src/store/useTaskStore.ts:108-111 | assigning the fields of one entry's object changes exactly that task of the snapshot |
| `Store.TaskStore.AssignFields` | src/store/useTaskStore.ts:109-110 | the object gets the new status or progress and the new `updatedAt`; its id is unchanged |
| `Store.TaskStore.MoveTask` | src/store/useTaskStore.ts:104-114 | the key order is unchanged; only the task with that id gets the new status and `updatedAt`; the old state's Map sees the change |
| `Store.TaskStore.UpdateProgress` | src/store/useTaskStore.ts:130-140 | the key order is unchanged; only the task with that id gets the given progress, unclamped, and the new `updatedAt`; the old state's Map sees the change |
| `Store.Changed` | src/store/useTaskStore.ts:104-114 | the values after an in-place change of the task with that id: as many tasks as before |
| `Store.ChangedAt` | src/store/useTaskStore.ts:106-111 | at each position, the task with that id gets the change and every other task stays as it was |
| `Store.ChangeTouchesOnlyTarget` | src/store/useTaskStore.ts:104-114 | a move or progress update keeps every id and `createdAt`; other tasks are unchanged; the target changes only in the named field and `updatedAt` |
| `Store.UnknownIdChangesNothing` | src/store/useTaskStore.ts:106-108 | with an id not in the Map, every task stays as it was |
| `Store.ChangeTimestamps` | src/store/useTaskStore.ts:136 | with a clock that does not run backwards, `updatedAt` never decreases and `createdAt` never changes |
| `Store.ChangeKeepsGroupOrder` | src/store/useTaskStore.ts:104-114 | apart from the moved task, every status group keeps its tasks in the same order |
| `Store.MoveKeepsCanonicalPosition` | src/store/useTaskStore.ts:104-114 | in its new group a moved task sits between the group's tasks that precede it and those that follow it in the Map |
| `Store.MoveNotAppendedWitness` | src/store/useTaskStore.ts:104-114 | with "a" in backlog and "b" in progress, moving "a" to in-progress puts it before "b" |
| `Store.RecordsWithStatus` | src/store/useTaskStore.ts:117-118 | the filtered group is the Map's objects of that status, in Map order: each is an object of the Map, and they read the status group of the values |
| `Store.KeyedDistinct` | src/store/useTaskStore.ts:89 | for a Map keyed by task id, distinct keys and distinct task ids are the same thing |
| `Store.TaskStore.WriteBack` | src/store/useTaskStore.ts:121-125 | writing objects of the Map back under their own ids leaves the copied Map equal to the original |
| `Store.TaskStore.Reordered` | src/store/useTaskStore.ts:116-127 | the Map `reorderTasks` builds has the same entries as the one it started from |
| `Store.TaskStore.ReorderTasks` | src/store/useTaskStore.ts:116-128 | as written: the entries, the key order and every value stay as they were |
| `Store.ReorderNoOpWitness` | src/store/useTaskStore.ts:116-128 | for two backlog tasks, the intended reorder from 0 to 1 swaps them while the store's column stays [a, b] |
| `Store.Refill` | src/store/useTaskStore.ts:120-125 | a group's slots, in Map order, filled with a given sequence: as many tasks as before; `RefillOwnGroup`, `RefillOtherGroup` and `RefillMultiset` say what it holds |
| `Store.RefillOwnGroup` | src/store/useTaskStore.ts:120-125 | refilling a group's slots with a sequence of that status makes the group read exactly that sequence |
| `Store.RefillOtherGroup` | src/store/useTaskStore.ts:120-125 | refilling one group's slots leaves every other group unchanged |
| `Store.IntendedReorder` | src/store/useTaskStore.ts:116-128 | the values the corrected reorder gives: as many tasks as before; `IntendedReorderGroups` and `IntendedReorderDistinct` say what it holds |
| `Store.IntendedReorderGroups` | src/store/useTaskStore.ts:116-128 | the corrected reorder gives that group `arrayMove(group, from, to)` and leaves every other group as it was |
| `Store.RefillMultiset` | src/store/useTaskStore.ts:120-125 | refilling a group's slots trades the group's tasks for the new sequence's, as multisets |
| `Store.DistinctIdsPermutation` | src/store/useTaskStore.ts:89 | a permutation of tasks with distinct ids has distinct ids |
| `Store.IntendedReorderDistinct` | src/store/useTaskStore.ts:116-128 | the corrected reorder permutes the tasks, so their ids stay distinct |
| `Store.RefillRecordsKeyed` | src/store/useTaskStore.ts:123-125 | writing the moved objects back under their own ids keeps every entry under its object's id |
| `Store.RefillRecordsValues` | src/store/useTaskStore.ts:123-125 | after the corrected write-back the Map reads the refill of its old values with the moved group's values |
| `Store.TaskStore.Refilled` | src/store/useTaskStore.ts:116-127 | the Map the corrected reorder builds has distinct keys, each entry under its object's id, and reads the intended reorder of the old values |
| `Store.TaskStore.ReorderTasksAsIntended` | src/store/useTaskStore.ts:116-128 | corrected: the store stays valid and its values become the intended reorder of the old ones |
| `TaskBoard.ColumnsEnumerateStatuses` | src/component/TaskBoard.tsx:25 | the columns list every status exactly once |
| `TaskBoard.StatusIndex` | src/component/TaskBoard.tsx:25 | each status has its position among the columns |
| `TaskBoard.GroupByStatus` | src/component/TaskBoard.tsx:43-54 | the loop builds an entry for every status, empty columns included, and each entry is the tasks of that status in canonical order |
| `TaskBoard.FindIndex` | src/component/TaskBoard.tsx:77-78 | `findIndex`: the first position with that id, or -1 when there is none |
| `TaskBoard.ReorderIndicesInRange` | src/component/TaskBoard.tsx:74-79 | a reorder is requested only with two distinct in-range indices, those of the dragged card and of the card under it |
| `TaskBoard.ColumnOf` | src/component/TaskColumn.tsx:33-35 | an id names a column exactly when it is that column's droppable id |
| `TaskBoard.DropOnColumnMoves` | src/component/TaskBoard.tsx:70-72 | a drop on a column asks to move the task to that column's status, whatever its current status |
| `TaskBoard.MoveIffColumnDrop` | src/component/TaskBoard.tsx:65-72 | on real drop targets, a move is requested exactly when a known task is dropped on a column |
| `TaskBoard.DragEndIgnored` | src/component/TaskBoard.tsx:65-75 | no store call when nothing is under the card, it is dropped on itself, its id is unknown, or it is dropped on a non-column id that is not a task of the same status |
| `TaskBoard.Board.constructor` | src/component/TaskBoard.tsx:28 | the board starts idle, with no active id |
| `TaskBoard.Board.DragStart` | src/component/TaskBoard.tsx:56-59 | drag start records the dragged id |
| `TaskBoard.Board.OverlayTask` | src/component/TaskBoard.tsx:88 | the overlay shows a task exactly while a drag is active and its id is in the Map, and it is that task |
| `TaskBoard.DragEndOutcome` | src/component/TaskBoard.tsx:65-80 | the store call `handleDragEnd` picks (none, `moveTask` or `reorderTasks`, with its arguments); no contract of its own, it is characterised by `MoveIffColumnDrop`, `DropOnColumnMoves`, `ReorderIndicesInRange` and `DragEndIgnored` |
| `TaskBoard.DropResult` | src/component/TaskBoard.tsx:65-83 | the values after that store call, with `reorderTasks` as written; no contract of its own, it is characterised by `DropResultCases` |
| `TaskBoard.DropResultCases` | src/component/TaskBoard.tsx:65-83 | as written: a drop on a column moves a known task to exactly that column's status; every other drop, a same-column reorder included, leaves the values as they were |
| `TaskBoard.DropResultAsIntended` | src/component/TaskBoard.tsx:65-83 | the same values with the corrected `reorderTasks` behind a reorder; no contract of its own, it is characterised by `DropResultAsIntendedCases` |
| `TaskBoard.DropResultAsIntendedCases` | src/component/TaskBoard.tsx:65-83 | corrected: a drop on a column moves a known task to exactly that column's status; a drop on a same-status card applies the corrected reorder with the two cards' indices; any other drop leaves the values as they were |
| `TaskBoard.Board.Drop` | src/component/TaskBoard.tsx:65-83 | as written: the store stays valid and its values become `DropResult` of the old entries |
| `TaskBoard.Board.DropOnColumn` | src/component/TaskBoard.tsx:70-72 | for a drop that asks for a move: the store stays valid and its values become `DropResult` of the old entries |
| `TaskBoard.Board.DropAsIntended` | src/component/TaskBoard.tsx:65-83 | corrected: the store stays valid and its values become `DropResultAsIntended` of the old entries |
| `TaskBoard.Board.DragEnd` | src/component/TaskBoard.tsx:61-86 | as `Drop`, and the board is idle again on every branch |
| `TaskColumn.ColumnTitle` | src/component/TaskColumn.tsx:17-30 | `getColumnTitle`, one title per status; no contract of its own, its property is `ColumnTitlesDistinct` |
| `TaskColumn.DroppableId` | src/component/TaskColumn.tsx:34 | the droppable id `${status}-column`; no contract of its own, its property is `DroppableIdDecodes` |
| `TaskColumn.ColumnTitlesDistinct` | src/component/TaskColumn.tsx:17-30 | two statuses get the same title exactly when they are equal |
| `TaskColumn.ColumnSuffixDecodes` | src/component/TaskColumn.tsx:34 | a status text with `-column` appended contains "column", and replacing the first `-column` gives the text back |
| `TaskColumn.DroppableIdDecodes` | src/component/TaskBoard.tsx:70-71 | decoding a column's droppable id as the board does yields its status text, which parses back to the same status |
| `TaskColumn.SortableItems` | src/component/TaskColumn.tsx:54-60 | the sortable ids are the column's task ids, one per rendered card, in the same order |
| `TaskColumn.SortableItemsDistinct` | src/component/TaskColumn.tsx:54 | a column's sortable ids are distinct when the store's ids are |
| `Dashboard.CountStatus` | src/component/Dashboard.tsx:11-18 | the size of a status group; no contract of its own, its property is `CountsAddUp` |
| `Dashboard.CountsAddUp` | src/component/Dashboard.tsx:11-18 | completed + inProgress + paused + backlog == total |
| `Dashboard.RoundedMean` | src/component/Dashboard.tsx:19-21 | 0 for an empty collection; otherwise the integer nearest to sum/total, halves rounded up |
| `Dashboard.AverageInRange` | src/component/Dashboard.tsx:19-21 | with every progress in 0..100 the average is in 0..100 |
| `Dashboard.AverageOfEqual` | src/component/Dashboard.tsx:19-21 | when every task has the same progress, the average is that progress |
| `Dashboard.SumProgress` | src/component/Dashboard.tsx:20 | the `reduce` sum of progress; no contract of its own, its property is `SumProgressBounds` |
| `Dashboard.SumProgressBounds` | src/component/Dashboard.tsx:20 | with every progress in 0..100, the sum is in 0..100·n |
| `Dashboard.Upcoming` | src/component/Dashboard.tsx:23 | the filter's test: a non-empty end date that parses to a time strictly after now; a predicate, used by the contracts of `FilterUpcoming` and `NoEndDateNeverListed` |
| `Dashboard.FilterUpcoming` | src/component/Dashboard.tsx:23 | keeps exactly the tasks whose end date is non-empty and strictly after now |
| `Dashboard.FilterUpcomingAppend` | src/component/Dashboard.tsx:23 | the filter distributes over concatenation, so the kept tasks stay in their order |
| `Dashboard.SortByDeadline` | src/component/Dashboard.tsx:24 | the sort returns a permutation of its input |
| `Dashboard.SortByDeadlineSorted` | src/component/Dashboard.tsx:24 | the sort returns its input in ascending deadline order |
| `Dashboard.UpcomingDeadlines` | src/component/Dashboard.tsx:25 | at most five tasks |
| `Dashboard.UpcomingDeadlinesSpec` | src/component/Dashboard.tsx:22-25 | min(k, 5) of the k upcoming tasks, each upcoming, in ascending deadline order; no upcoming task left out is due earlier than one shown |
| `Dashboard.NoEndDateNeverListed` | src/component/Dashboard.tsx:23 | a task with an absent or empty end date is never listed |
| `Dashboard.ComputeStats` | src/component/Dashboard.tsx:9-27 | the counts add up to the total; an empty collection gives average 0 and no deadlines; valid progress gives an average in 0..100; at most five deadlines |
| `Timeline.GroupPairs` | src/component/TimeLine.tsx:43-52 | the grouping of a list of (assignee, task) visits, built one visit at a time; no contract of its own, it is characterised by `GroupKeysSpec`, `GroupContentsSpec` and `GroupSizesSpec` |
| `Timeline.GroupByAssignee` | src/component/TimeLine.tsx:43-52 | the nested loops build the grouping `GroupPairs` of every (assignee, task) visit in order |
| `Timeline.AddAssignees` | src/component/TimeLine.tsx:46-49 | the inner loop adds one visit per assignee of the task, in order |
| `Timeline.Visit` | src/component/TimeLine.tsx:47-48 | one visit: create an empty group if the assignee has none, then push the task |
| `Timeline.AssigneePairsSpec` | src/component/TimeLine.tsx:45-46 | the visits list every assignee of every task in order, and a pair is visited exactly when its task names its assignee |
| `Timeline.GroupKeysSpec` | src/component/TimeLine.tsx:47 | the grouping's keys are distinct and are the visited assignees in order of first appearance |
| `Timeline.GroupContentsSpec` | src/component/TimeLine.tsx:47-48 | each visited assignee's group holds the tasks visited with it, in order; other names have no group |
| `Timeline.GroupSizesSpec` | src/component/TimeLine.tsx:48 | the groups hold one task per visit |
| `Timeline.GroupMember` | src/component/TimeLine.tsx:43-52 | a task is in an assignee's group exactly when it names that assignee |
| `Timeline.GroupOrder` | src/component/TimeLine.tsx:43-52 | an occurring assignee's group is its tasks in canonical order, each once per mention |
| `Timeline.TasksForIsMentions` | src/component/TimeLine.tsx:45-49 | the tasks visited with an assignee are the tasks in canonical order, each repeated as often as the assignee occurs in it |
| `Timeline.TasksByAssigneeSpec` | src/component/TimeLine.tsx:43-52 | keys are exactly the occurring assignees, in order of first appearance; membership, order and multiplicity of each group; sizes add up to the total length of the assignee lists, so an unassigned task is in no group |
| `Timeline.HandleZoom` | src/component/TimeLine.tsx:58-63 | the zoom is always within [MIN_ZOOM, MAX_ZOOM] |
| `Timeline.ZoomSteps` | src/component/TimeLine.tsx:58-63 | from an in-range zoom a press moves it by exactly 0.5, unless it is at the bound it heads for, where it stays |
| `Timeline.ZoomAfter` | src/component/TimeLine.tsx:30 | from the initial zoom, any sequence of presses stays within the bounds |
| `Timeline.ZoomAfterChangesByAtMostOne` | src/component/TimeLine.tsx:60-61 | each press changes the zoom by at most 0.5 |
| `Timeline.FindKey` | src/component/TimeLine.tsx:110 | `find`: the first key, in declaration order, found in the title ignoring case, or none |
| `Timeline.TaskColor` | src/component/TimeLine.tsx:109-112 | the colour of the first key found in the title ignoring case, otherwise the `default` colour |
| `Timeline.MainPageUpdateMatchesMainPage` | src/component/TimeLine.tsx:9 | a title holding "main page update" matches the 'Main page' key |
| `Timeline.MainPageShadowsMainPageUpdate` | src/component/TimeLine.tsx:20 | a title holding "main page update" never gets the 'Main page update' colour; it gets the 'Main page' colour unless it also says "review" |
| `Timeline.Initials` | src/component/TimeLine.tsx:174 | `assignee.split(' ').map(n => n[0]).join('')`; no contract of its own, its property is `InitialsOfWords` |
| `Timeline.InitialsOfWords` | src/component/TimeLine.tsx:174 | a name of non-empty, space-free words gets the first character of each word |
| `Strings.Split` | src/component/TimeLine.tsx:174 | `split` on one character: at least one part; `SplitJoin`, `JoinSplit` and `SplitPartsFree` say what the parts are |
| `Strings.Join` | src/component/TimeLine.tsx:174 | `join` with one character; no contract of its own, it is characterised by `SplitJoin` and `JoinSplit` |
| `Strings.SplitJoin` | src/component/TimeLine.tsx:174 | joining the parts of a split on the same separator gives the string back |
| `Strings.JoinSplit` | src/component/TimeLine.tsx:174 | splitting a join of separator-free parts gives the parts back |
| `Strings.SplitPartsFree` | src/component/TimeLine.tsx:174 | no part of a split holds the separator |
| `Strings.IndexOf` | src/component/TaskBoard.tsx:70 | `indexOf`: the first occurrence, or none |
| `Strings.ReplaceFirst` | src/component/TaskBoard.tsx:71 | `replace` with a string pattern: only the first occurrence; no contract of its own, its property is `ReplaceFirstSuffix` |
| `Strings.ReplaceFirstSuffix` | src/component/TaskBoard.tsx:71 | `replace` with a pattern whose first occurrence ends the string removes exactly that suffix |
| `Strings.Lower` | src/component/TimeLine.tsx:110 | `toLowerCase`: the same length, each character lower-cased on its own |
| `Strings.ContainsPrefix` | src/component/TimeLine.tsx:110 | a string holding a pattern holds each of the pattern's prefixes |
| `TaskModal.FormFor` | src/component/TaskModal.tsx:34-54 | the form filled for a task or for a new one; no contract of its own, it is characterised by `FormForFields` and `AbsentAsEmpty` |
| `TaskModal.FormForFields` | src/component/TaskModal.tsx:34-54 | with a task the form copies its fields, an absent optional one as ''; without one it is the empty form with status backlog and no assignees |
| `TaskModal.Submit` | src/component/TaskModal.tsx:56-59 | what `handleSubmit` passes to `onSubmit`; no contract of its own, it is characterised by `SubmitReopen` and `ReopenSubmit` |
| `TaskModal.SubmitReopen` | src/component/TaskModal.tsx:56-59 | a submitted form, added as a task and reopened, gives the same form back |
| `TaskModal.ReopenSubmit` | src/component/TaskModal.tsx:35-43 | reopening a task and submitting it unchanged keeps its fields, with absent optional fields as '', a fresh id, progress 0 and new timestamps |
| `TaskModal.AbsentAsEmpty` | src/component/TaskModal.tsx:38-42 | an absent and an empty optional field fill the form alike |
| `TaskModal.RemoveAll` | src/component/TaskModal.tsx:77 | `filter(a => a !== email)` keeps exactly the other entries |
| `TaskModal.RemoveAllAppend` | src/component/TaskModal.tsx:77 | the filter distributes over concatenation, so every list keeps its other entries in order |
| `TaskModal.RemoveKeepsOrder` | src/component/TaskModal.tsx:77 | removal keeps the other entries in their order |
| `TaskModal.ToggleAssignee` | src/component/TaskModal.tsx:73-80 | `toggleAssignee`; no contract of its own, it is characterised by `ToggleFlips` and `ToggleTwice` |
| `TaskModal.ToggleFlips` | src/component/TaskModal.tsx:73-80 | a toggle flips its email's membership, keeps every other email's, and appends an unlisted email last |
| `TaskModal.ToggleTwice` | src/component/TaskModal.tsx:73-80 | toggling an unlisted email twice restores the list |
| `TaskModal.FilterMembers` | src/component/TaskModal.tsx:68-71 | keeps exactly the members whose name or email, lower-cased, contains the lower-cased query |
| `TaskModal.FilterMembersAppend` | src/component/TaskModal.tsx:68-71 | the filter preserves list order |
| `TaskModal.EmptyQueryKeepsAll` | src/component/TaskModal.tsx:68-71 | an empty query keeps every member, in order |
| `TaskCard.ProgressColor` | src/component/TaskCard.tsx:28-32 | green exactly for progress ≥ 100, yellow exactly for 50 ≤ progress < 100, blue exactly for progress < 50 |
| `TaskCard.ProgressColorMonotone` | src/component/TaskCard.tsx:28-32 | more progress never gets a lower band |
| `TaskCard.Badge` | src/component/TaskCard.tsx:81 | the upper-cased first character, or '' for an empty assignee |
| `TaskCard.View` | src/component/TaskCard.tsx:42-96 | the date block iff the start date is non-empty, with that date; the end date only inside it and iff non-empty, with that date; the description iff non-empty, with that text; badges iff there is an assignee, one per assignee; the progress bar iff progress > 0, with its colour |

## Left out

- React rendering: JSX, Tailwind classes and layout; `App.tsx`, `Layout.tsx` and `tailwind.config.js`.
- The zustand `create`/`set` machinery. Each operation is a method of `Store.TaskStore` that replaces or keeps `tasks`.
- uuid generation. `AddTask` takes the id as a parameter and requires it to be absent from the Map.
- The clock. Each operation takes `now`, and timestamps are integers, not ISO-8601 text.
- Date parsing by the dashboard. It goes through a `timeOf` parameter that stands for `new Date(s).getTime()`, with `None` for NaN.
- `date-fns` formatting on the card and the dashboard.
- The timeline's `dates` axis, `navigateWeek` and `getTaskPosition`: date arithmetic and floating-point percentages.
- dnd-kit sensors, collision detection, `DragOverlay` rendering and the cursor style. Only the decision logic of the handlers is modelled.
- The timeline's mouse panning and document listeners, and the modal's Escape and outside-click handlers: DOM event plumbing.
- Floating point. Progress is an integer, and zoom is counted in half-units, 2..8 for 1..4.
- Unicode case folding. `toLowerCase` and `toUpperCase` are modelled on ASCII letters only.
- `updateTask` and `deleteTask`. The `TaskStore` type in `src/types/task.ts` declares them, but the store does not implement them.
- The avatar URLs of the team members, and a card's fixed comment and attachment counts ("2" and "3").
- The `arrayMove` import. `useTaskStore.ts` calls `arrayMove` without importing it. The model uses the @dnd-kit/sortable function the board imports.
- Store.TaskStore.constructor: takes the seed as a parameter. `Store.InitialTasksIds` shows that `InitialTasks` meets its requirement of distinct ids.
- Store.TaskStore.ReorderTasks: requires both indices within the status group. `arrayMove` is a pair of `splice` calls, so outside that range a `from` between minus the group's length and -1 counts from the end, and any `to` is clamped into the array; with such indices the write-back is the same no-op. Only a `from` outside those bounds makes `arrayMove` insert `undefined`, and reading its `id` then throws (src/store/useTaskStore.ts:124). `TaskBoard.ReorderIndicesInRange` shows the board only passes in-range indices. `Store.TaskStore.ReorderTasksAsIntended` has the same requirement.
- TaskBoard.Board.DragEnd: requires that `over` is a column's droppable id or a key of the Map, and that no key contains "column". This is what dnd-kit reports, and uuids never contain "column".
- TaskModal.FilterMembers: matches on ASCII lower-casing only, as for every string here.
- The modal's `STATUSES` list and the select built from it: rendering only.

## Findings

| source | as written | input that shows it | evidently intended | confidence | as-written member | corrected member |
|---|---|---|---|---|---|---|
| src/store/useTaskStore.ts:116-128 | the moved group is written back with `updatedTasks.set(task.id, task)`, and `set` on a present key keeps the key's position, so the Map ends with the same key order and values | two backlog tasks a, b; `reorderTasks('backlog', 0, 1)` leaves the backlog column [a, b] | the column reads `arrayMove(column, oldIndex, newIndex)`, [b, a], and other columns are unchanged | not executed | `Store.TaskStore.ReorderTasks`, `Store.ReorderNoOpWitness` | `Store.TaskStore.ReorderTasksAsIntended`, `Store.IntendedReorderGroups`, `TaskBoard.Board.DropAsIntended` |

