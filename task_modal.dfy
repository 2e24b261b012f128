/**
 * The new-task form (src/component/TaskModal.tsx): the form state and how it is
 * filled, the assignee toggle, the team-member search and the submitted payload.
 */
module TaskModal {
  import opened Wrappers
  import opened TaskTypes
  import opened Strings
  import Store

  // --------------------------------------------------------------- the form

  /** `formData`: every text field is a plain string, '' when empty. */
  datatype FormData = FormData(
    title: string,
    description: string,
    status: Status,
    assignees: seq<string>,
    startDate: string,
    endDate: string)

  /** The initial state, and the reset state when no task is given. */
  const EMPTY_FORM: FormData := FormData("", "", Backlog, [], "", "")

  /** `x || ''` on an optional text field. */
  function OrEmpty(x: Option<string>): (s: string)
    ensures x.Some? ==> s == x.value
    ensures x.None? ==> s == ""
  {
    if x.Some? then x.value else ""
  }

  /** The opening effect: copy an existing task's fields, or reset to the empty form. */
  function FormFor(task: Option<Task>): FormData {
    match task
    case Some(t) => FormData(t.title, OrEmpty(t.description), t.status, t.assignees, OrEmpty(t.startDate), OrEmpty(t.endDate))
    case None => EMPTY_FORM
  }

  /**
   * Opening with a task copies its fields, an absent optional one as ''; opening
   * without one resets to an empty title, the backlog status and no assignees.
   */
  lemma FormForFields(task: Option<Task>)
    ensures task.None? ==> FormFor(task) == FormData("", "", Backlog, [], "", "")
    ensures task.Some? ==>
      var f, t := FormFor(task), task.value;
      && f.title == t.title && f.status == t.status && f.assignees == t.assignees
      && f.description == t.description.GetOr("")
      && f.startDate == t.startDate.GetOr("") && f.endDate == t.endDate.GetOr("")
  {
  }

  /** `handleSubmit`:`onSave(formData)`; the payload carries no progress. */
  function Submit(f: FormData): TaskInput {
    TaskInput(f.title, Some(f.description), f.status, f.assignees, Some(f.startDate), Some(f.endDate), None)
  }

  /** Submitting a form, as the board does with `addTask`, and reopening the new task gives the same form back. */
  lemma SubmitReopen(f: FormData, id: string, now: int)
    ensures FormFor(Some(Store.NewTask(Submit(f), id, now))) == f
  {
  }

  /**
   * Reopening an existing task and submitting it unchanged yields a task with
   * the same fields, except that an absent description or date comes back as '',
   * and the store assigns id, progress and timestamps afresh.
   */
  lemma ReopenSubmit(t: Task, id: string, now: int)
    ensures var n := Store.NewTask(Submit(FormFor(Some(t))), id, now);
      && n.title == t.title && n.status == t.status && n.assignees == t.assignees
      && n.description == Some(OrEmpty(t.description))
      && n.startDate == Some(OrEmpty(t.startDate))
      && n.endDate == Some(OrEmpty(t.endDate))
      && n.id == id && n.progress == 0 && n.createdAt == now && n.updatedAt == now
    ensures t.description.Some? && t.startDate.Some? && t.endDate.Some? ==>
      Store.NewTask(Submit(FormFor(Some(t))), t.id, now) == t.(progress := 0, createdAt := now, updatedAt := now)
  {
  }

  /** An absent field and an empty one fill the form alike. */
  lemma AbsentAsEmpty(t: Task)
    ensures FormFor(Some(t.(description := None, startDate := None, endDate := None)))
         == FormFor(Some(t.(description := Some(""), startDate := Some(""), endDate := Some(""))))
  {
  }

  // ------------------------------------------------------------ the toggle

  /** `assignees.filter(a => a !== email)`. */
  function RemoveAll(xs: seq<string>, e: string): (r: seq<string>)
    ensures |r| <= |xs|
    ensures forall x :: x in r <==> x in xs && x != e
  {
    if xs == [] then []
    else
      var init := RemoveAll(xs[..|xs| - 1], e);
      assert xs == xs[..|xs| - 1] + [xs[|xs| - 1]];
      if xs[|xs| - 1] != e then init + [xs[|xs| - 1]] else init
  }

  /** Removing an element that is not there changes nothing. */
  lemma {:induction false} RemoveAbsent(xs: seq<string>, e: string)
    requires e !in xs
    ensures RemoveAll(xs, e) == xs
  {
    if xs != [] {
      assert xs[..|xs| - 1] + [xs[|xs| - 1]] == xs;
      RemoveAbsent(xs[..|xs| - 1], e);
    }
  }

  /**
   * The filter distributes over concatenation; with `RemoveAbsent` and a
   * one-element list, it keeps every other entry of any list in its order.
   */
  lemma {:induction false} RemoveAllAppend(xs: seq<string>, ys: seq<string>, e: string)
    ensures RemoveAll(xs + ys, e) == RemoveAll(xs, e) + RemoveAll(ys, e)
  {
    if ys == [] {
      assert xs + ys == xs;
    } else {
      var init := ys[..|ys| - 1];
      RemoveAllAppend(xs, init, e);
      assert (xs + ys)[..|xs + ys| - 1] == xs + init;
      assert (xs + ys)[|xs + ys| - 1] == ys[|ys| - 1];
    }
  }

  /** `toggleAssignee`: remove every occurrence of a listed email, or append an unlisted one. */
  function ToggleAssignee(assignees: seq<string>, email: string): seq<string> {
    if email in assignees then RemoveAll(assignees, email) else assignees + [email]
  }

  /**
   * A toggle flips the membership of its email and keeps every other email's:
   * an unlisted email goes last, a listed one disappears with all its copies.
   */
  lemma ToggleFlips(assignees: seq<string>, email: string)
    ensures email in ToggleAssignee(assignees, email) <==> email !in assignees
    ensures forall o :: o != email ==> (o in ToggleAssignee(assignees, email) <==> o in assignees)
    ensures email !in assignees ==> ToggleAssignee(assignees, email) == assignees + [email]
  {
  }

  /** Removal keeps the other entries in their order: it maps an interleaving back to its other part. */
  lemma {:induction false} RemoveKeepsOrder(xs: seq<string>, ys: seq<string>, e: string)
    requires e !in xs && e !in ys
    ensures RemoveAll(xs + [e] + ys, e) == xs + ys
    ensures RemoveAll(xs + [e, e] + ys, e) == xs + ys
  {
    if ys == [] {
      assert (xs + [e])[..|xs|] == xs;
      assert (xs + [e, e])[..|xs| + 1] == xs + [e];
      RemoveAbsent(xs, e);
      assert xs + [e] + ys == xs + [e];
      assert xs + [e, e] + ys == xs + [e, e];
    } else {
      var ys' := ys[..|ys| - 1];
      var last := ys[|ys| - 1];
      RemoveKeepsOrder(xs, ys', e);
      assert (xs + [e] + ys)[..|xs + [e] + ys| - 1] == xs + [e] + ys';
      assert (xs + [e, e] + ys)[..|xs + [e, e] + ys| - 1] == xs + [e, e] + ys';
      assert xs + ys == (xs + ys') + [last];
    }
  }

  /** Toggling an unlisted email twice gives the original list back. */
  lemma ToggleTwice(assignees: seq<string>, email: string)
    requires email !in assignees
    ensures ToggleAssignee(ToggleAssignee(assignees, email), email) == assignees
  {
    RemoveKeepsOrder(assignees, [], email);
    assert assignees + [email] + [] == assignees + [email];
    assert assignees + [] == assignees;
  }

  // ------------------------------------------------------------ the search

  /** A member of the team, without the avatar URL. */
  datatype Member = Member(id: string, name: string, email: string)

  /** `TEAM_MEMBERS`, a fixed list. */
  const TEAM_MEMBERS: seq<Member> := [
    Member("1", "John Doe", "john@example.com"),
    Member("2", "Jane Smith", "jane@example.com"),
    Member("3", "Mike Johnson", "mike@example.com")
  ]

  /** The name or the email, lower-cased, contains the lower-cased query. */
  predicate MemberMatches(m: Member, query: string) {
    Contains(Lower(m.name), Lower(query)) || Contains(Lower(m.email), Lower(query))
  }

  /** `filteredTeamMembers`: the matching members, in list order. */
  function FilterMembers(members: seq<Member>, query: string): (r: seq<Member>)
    ensures |r| <= |members|
    ensures forall m :: m in r <==> m in members && MemberMatches(m, query)
  {
    if members == [] then []
    else
      var init := FilterMembers(members[..|members| - 1], query);
      var last := members[|members| - 1];
      assert members == members[..|members| - 1] + [last];
      if MemberMatches(last, query) then init + [last] else init
  }

  /** An empty search keeps every member, in order. */
  lemma {:induction false} EmptyQueryKeepsAll(members: seq<Member>)
    ensures FilterMembers(members, "") == members
  {
    if members != [] {
      EmptyQueryKeepsAll(members[..|members| - 1]);
      ContainsEmpty(Lower(members[|members| - 1].name));
      assert Lower("") == "";
      assert members[..|members| - 1] + [members[|members| - 1]] == members;
    }
  }

  /** Filtering keeps the list order: the result is the members that match, with the others dropped. */
  lemma {:induction false} FilterMembersAppend(a: seq<Member>, b: seq<Member>, query: string)
    ensures FilterMembers(a + b, query) == FilterMembers(a, query) + FilterMembers(b, query)
  {
    if b != [] {
      var b' := b[..|b| - 1];
      assert (a + b)[..|a + b| - 1] == a + b';
      FilterMembersAppend(a, b', query);
    } else {
      assert a + b == a;
    }
  }
}
