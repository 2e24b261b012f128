/**
 * One card on the board (src/component/TaskCard.tsx): which parts of it are
 * shown for a task, and the colour of its progress bar.
 */
module TaskCard {
  import opened Wrappers
  import opened TaskTypes
  import opened Strings

  /** `getProgressColor`: three bands, from the top. */
  function ProgressColor(progress: int): (c: string)
    ensures c == "bg-green-500" <==> progress >= 100
    ensures c == "bg-yellow-500" <==> 50 <= progress < 100
    ensures c == "bg-blue-500" <==> progress < 50
  {
    if progress >= 100 then "bg-green-500"
    else if progress >= 50 then "bg-yellow-500"
    else "bg-blue-500"
  }

  /** Higher progress never gets a lower band. */
  lemma ProgressColorMonotone(p: int, q: int)
    requires p <= q
    ensures ProgressColor(p) == "bg-green-500" ==> ProgressColor(q) == "bg-green-500"
    ensures ProgressColor(q) == "bg-blue-500" ==> ProgressColor(p) == "bg-blue-500"
  {
  }

  /** JavaScript truthiness of an optional text field: present and non-empty. */
  predicate Truthy(x: Option<string>) {
    x.Some? && x.value != ""
  }

  /** `assignee.charAt(0).toUpperCase()`; `charAt(0)` of '' is ''. */
  function Badge(assignee: string): (b: string)
    ensures |b| <= 1
    ensures assignee != [] ==> b == [UpperChar(assignee[0])]
  {
    Upper(assignee[..if assignee == [] then 0 else 1])
  }

  /** The date line: the start date, then the end date only when there is one. */
  datatype DateLine = DateLine(start: string, end: Option<string>)

  /** What a card shows; `None` for a part that is not rendered. */
  datatype CardView = CardView(
    dates: Option<DateLine>,
    title: string,
    description: Option<string>,
    badges: Option<seq<string>>,
    progressBar: Option<string>)

  /** The card's conditional rendering, with the progress bar's colour class. */
  function View(t: Task): (v: CardView)
    ensures v.dates.Some? <==> Truthy(t.startDate)
    ensures v.dates.Some? ==> v.dates.value.start == t.startDate.value
    ensures v.dates.Some? ==> (v.dates.value.end.Some? <==> Truthy(t.endDate))
    ensures v.dates.Some? && v.dates.value.end.Some? ==> v.dates.value.end.value == t.endDate.value
    ensures v.title == t.title
    ensures v.description.Some? <==> Truthy(t.description)
    ensures v.description.Some? ==> v.description.value == t.description.value
    ensures v.badges.Some? <==> |t.assignees| > 0
    ensures v.badges.Some? ==> |v.badges.value| == |t.assignees|
    ensures v.badges.Some? ==> forall i :: 0 <= i < |t.assignees| ==> v.badges.value[i] == Badge(t.assignees[i])
    ensures v.progressBar.Some? <==> t.progress > 0
    ensures v.progressBar.Some? ==> v.progressBar.value == ProgressColor(t.progress)
  {
    CardView(
      if Truthy(t.startDate) then
        Some(DateLine(t.startDate.value, if Truthy(t.endDate) then Some(t.endDate.value) else None))
      else None,
      t.title,
      if Truthy(t.description) then Some(t.description.value) else None,
      if |t.assignees| > 0 then Some(seq(|t.assignees|, i requires 0 <= i < |t.assignees| => Badge(t.assignees[i]))) else None,
      if t.progress > 0 then Some(ProgressColor(t.progress)) else None)
  }
}
