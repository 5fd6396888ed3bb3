/** The task creation form: its state, the submit handler's validation, the normalised
    arguments it sends to `createTask`, and the reset afterwards (components/create-task-form.tsx). */
module CreateTaskForm {
  import opened Schema
  import opened Text
  import opened Tasks

  /** How a submit ends: refused for a blank title, a new task, or a rejected mutation. */
  datatype SubmitOutcome = TitleRequired | Created(id: RowId) | CreateFailed

  /** The title is required: blank means nothing left after trimming. */
  predicate Blank(s: string)
    ensures Blank(s) <==> forall k :: 0 <= k < |s| ==> IsTrimmable(s[k])
  {
    Trim(s) == []
  }

  /** `description.trim() || undefined`: the trimmed text, or absent when nothing is left. */
  function OptionalText(s: string): (r: Option<string>)
    ensures r.None? <==> forall k :: 0 <= k < |s| ==> IsTrimmable(s[k])
    ensures r.Some? ==> r.value != [] && !IsTrimmable(r.value[0]) && !IsTrimmable(r.value[|r.value| - 1])
    ensures r.Some? ==> Leading(s) + |r.value| <= |s| && r.value == s[Leading(s)..Leading(s) + |r.value|]
    ensures r.Some? ==> forall k :: Leading(s) + |r.value| <= k < |s| ==> IsTrimmable(s[k])
    ensures r.Some? ==> r.value == Trim(s)
  {
    var t := Trim(s);
    if t == [] then None else Some(t)
  }

  /** The arguments the form sends: the trimmed title, the optional trimmed description, the
      chosen priority, the due date as selected, and the form's owner. */
  function SubmitArgs(title: string, description: string, priority: Priority, dueDate: Option<Millis>,
                      userId: string): (a: CreateArgs)
    requires !Blank(title)
    ensures a.title == Trim(title)
    ensures a.title != [] && !IsTrimmable(a.title[0]) && !IsTrimmable(a.title[|a.title| - 1])
    ensures a.description == OptionalText(description)
    ensures a.priority == priority && a.dueDate == dueDate && a.userId == userId
  {
    CreateArgs(Trim(title), OptionalText(description), priority, dueDate, userId)
  }

  /** The text a field holds once an optional argument is written back into it. */
  function FieldText(s: Option<string>): string
  {
    if s.Some? then s.value else ""
  }

  /** Normalising is idempotent: submitting the arguments of a submit again sends the same arguments. */
  lemma SubmitArgsIdempotent(title: string, description: string, priority: Priority,
                             dueDate: Option<Millis>, userId: string)
    requires !Blank(title)
    ensures var a := SubmitArgs(title, description, priority, dueDate, userId);
      !Blank(a.title) && SubmitArgs(a.title, FieldText(a.description), priority, dueDate, userId) == a
  {
    TrimIdempotent(title);
    TrimIdempotent(description);
  }

  /** The form's state: the five `useState` fields, with the owner fixed by the dashboard. */
  class Form {
    const userId: string
    var title: string
    var description: string
    var priority: Priority
    var dueDate: Option<Millis>
    var isLoading: bool

    /** The initial state: empty title and description, medium priority, no due date, not loading. */
    constructor (userId: string)
      ensures this.userId == userId
      ensures title == "" && description == "" && priority == Medium && dueDate == None && !isLoading
    {
      this.userId := userId;
      title, description, priority, dueDate, isLoading := "", "", Medium, None, false;
    }

    /** `handleSubmit`. A blank title stops it before anything changes. Otherwise it sets the
        loading flag, sends the normalised arguments, resets the fields when the mutation
        succeeds and keeps them when it is rejected (`storeFails`), and clears the flag either way. */
    method HandleSubmit(table: TaskTable, now: Millis, storeFails: bool) returns (outcome: SubmitOutcome)
      requires table.Valid()
      modifies this, table
      ensures table.Valid()
      ensures Blank(old(title)) ==> outcome == TitleRequired && unchanged(this) && unchanged(table)
      ensures !Blank(old(title)) && storeFails ==>
                outcome == CreateFailed && unchanged(table) && !isLoading
                && title == old(title) && description == old(description)
                && priority == old(priority) && dueDate == old(dueDate)
      ensures !Blank(old(title)) && !storeFails ==>
                var a := SubmitArgs(old(title), old(description), old(priority), old(dueDate), userId);
                && outcome == Created(old(table.nextId)) && table.nextId == old(table.nextId) + 1
                && table.rows == old(table.rows) + [Task(old(table.nextId), a.title, a.description, false,
                                                         a.priority, a.dueDate, userId, now, now)]
                && title == "" && description == "" && priority == Medium && dueDate == None && !isLoading
    {
      if Blank(title) {
        return TitleRequired;
      }
      isLoading := true;
      if storeFails {
        outcome := CreateFailed;
      } else {
        var args := SubmitArgs(title, description, priority, dueDate, userId);
        var id := table.CreateTask(args, now);
        title, description, priority, dueDate := "", "", Medium, None;
        outcome := Created(id);
      }
      isLoading := false;
    }
  }

  /** A task created through the form has a title that is not blank and is already trimmed,
      though `createTask` itself accepts any title. */
  lemma FormTitlesAreTrimmed(title: string, description: string, priority: Priority,
                             dueDate: Option<Millis>, userId: string)
    requires !Blank(title)
    ensures var a := SubmitArgs(title, description, priority, dueDate, userId);
      a.title != [] && Trim(a.title) == a.title
  {
    TrimIdempotent(title);
  }
}
