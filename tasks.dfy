/** The task repository: the `tasks` table with the queries and mutations of convex/tasks.ts. */
module Tasks {
  import opened Schema
  import opened Sequences
  import opened TaskFilter

  /** The arguments of `createTask`; the owner is a plain string the caller supplies. */
  datatype CreateArgs = CreateArgs(
    title: string,
    description: Option<string>,
    priority: Priority,
    dueDate: Option<Millis>,
    userId: string)

  /** The optional arguments of `updateTask`. An absent field is left as it is, never cleared. */
  datatype TaskPatch = TaskPatch(
    title: Option<string>,
    description: Option<string>,
    completed: Option<bool>,
    priority: Option<Priority>,
    dueDate: Option<Millis>)

  /** The error `toggleTaskCompletion` throws ("Task not found"). */
  datatype TaskError = TaskNotFound

  datatype Outcome = Ok | Err(error: TaskError)

  const NoChanges := TaskPatch(None, None, None, None, None)

  function Override<T>(supplied: Option<T>, current: T): T
  {
    if supplied.Some? then supplied.value else current
  }

  /** The document `db.patch` leaves behind: the supplied fields, `updatedAt := now`, the rest as it was. */
  function Patch(t: Task, p: TaskPatch, now: Millis): (r: Task)
    ensures r.id == t.id && r.userId == t.userId && r.createdAt == t.createdAt
    ensures r.updatedAt == now
    ensures p.title.None? ==> r.title == t.title
    ensures p.title.Some? ==> r.title == p.title.value
    ensures p.description.None? ==> r.description == t.description
    ensures p.description.Some? ==> r.description == p.description
    ensures p.completed.None? ==> r.completed == t.completed
    ensures p.completed.Some? ==> r.completed == p.completed.value
    ensures p.priority.None? ==> r.priority == t.priority
    ensures p.priority.Some? ==> r.priority == p.priority.value
    ensures p.dueDate.None? ==> r.dueDate == t.dueDate
    ensures p.dueDate.Some? ==> r.dueDate == p.dueDate
  {
    t.(title := Override(p.title, t.title),
       description := if p.description.Some? then p.description else t.description,
       completed := Override(p.completed, t.completed),
       priority := Override(p.priority, t.priority),
       dueDate := if p.dueDate.Some? then p.dueDate else t.dueDate,
       updatedAt := now)
  }

  /** Patching with nothing supplied only refreshes `updatedAt`. */
  lemma EmptyPatchTouchesOnlyUpdatedAt(t: Task, now: Millis)
    ensures Patch(t, NoChanges, now) == t.(updatedAt := now)
  {
  }

  /** Applying the same patch again changes nothing but `updatedAt`. */
  lemma PatchIdempotent(t: Task, p: TaskPatch, first: Millis, second: Millis)
    ensures Patch(Patch(t, p, first), p, second) == Patch(t, p, second)
  {
  }

  /** The patch `toggleTaskCompletion` writes for the task it has read. */
  function TogglePatch(t: Task): TaskPatch
  {
    TaskPatch(None, None, Some(!t.completed), None, None)
  }

  /** The document after a toggle: only `completed` (negated) and `updatedAt` differ. */
  function Toggled(t: Task, now: Millis): (r: Task)
    ensures r == t.(completed := !t.completed, updatedAt := now)
  {
    Patch(t, TogglePatch(t), now)
  }

  /** Two toggles in a row restore `completed`; only `updatedAt` keeps the second time stamp. */
  lemma ToggleTwiceRestores(t: Task, first: Millis, second: Millis)
    ensures Toggled(Toggled(t, first), second) == t.(updatedAt := second)
    ensures Toggled(Toggled(t, first), second).completed == t.completed
  {
  }

  /** The position of the row with id `id`, if there is one. */
  function IndexOf(rows: seq<Task>, id: RowId): (r: Option<nat>)
    ensures r.Some? ==> r.value < |rows| && rows[r.value].id == id
    ensures r.None? <==> forall k :: 0 <= k < |rows| ==> rows[k].id != id
  {
    if rows == [] then None
    else if rows[0].id == id then Some(0)
    else match IndexOf(rows[1..], id)
      case Some(k) => Some(k + 1)
      case None => None
  }

  /** With distinct ids, no row before or after position `k` has the id of the row at `k`. */
  lemma {:induction false} OthersKept(rows: seq<Task>, k: nat)
    requires IdsAscending(rows)
    requires k < |rows|
    ensures Filter(rows[..k], Not(HasId(rows[k].id))) == rows[..k]
    ensures Filter(rows[k + 1..], Not(HasId(rows[k].id))) == rows[k + 1..]
  {
    var c := Not(HasId(rows[k].id));
    var before, after := rows[..k], rows[k + 1..];
    assert forall i :: 0 <= i < |before| ==> before[i] == rows[i];
    FilterAll(before, c);
    assert forall i :: 0 <= i < |after| ==> after[i] == rows[k + 1 + i];
    FilterAll(after, c);
  }

  lemma FilterDropsOne(t: Task, c: Criterion)
    requires !Matches(c, t)
    ensures Filter([t], c) == []
  {
    assert [t][1..] == [];
  }

  /** With distinct ids, cutting out the row at `k` is the selection of every other id. */
  lemma {:induction false} RemoveAtIsFilter(rows: seq<Task>, k: nat)
    requires IdsAscending(rows)
    requires k < |rows|
    ensures Filter(rows, Not(HasId(rows[k].id))) == rows[..k] + rows[k + 1..]
  {
    var c := Not(HasId(rows[k].id));
    SplitAt(rows, k);
    OthersKept(rows, k);
    FilterDropsOne(rows[k], c);
    FilterAppend(rows[..k], [rows[k]] + rows[k + 1..], c);
    FilterAppend([rows[k]], rows[k + 1..], c);
    assert Filter([rows[k]] + rows[k + 1..], c) == rows[k + 1..];
  }

  /** Inserting `t` at the end puts it at the head of its owner's newest-first listing and
      leaves every other owner's listing as it was. */
  lemma {:induction false} ListingAfterInsert(rows: seq<Task>, t: Task, u: string)
    ensures Reverse(Filter(rows + [t], OwnedBy(u)))
         == (if t.userId == u then [t] else []) + Reverse(Filter(rows, OwnedBy(u)))
  {
    var owned := Filter(rows, OwnedBy(u));
    FilterAppend(rows, [t], OwnedBy(u));
    if t.userId == u {
      assert Filter([t], OwnedBy(u)) == [t] by { assert [t][1..] == []; }
      ReverseAppend(owned, [t]);
      assert Reverse([t]) == [t];
    } else {
      FilterDropsOne(t, OwnedBy(u));
      assert owned + [] == owned;
    }
  }

  /** The `tasks` table. Rows are kept in creation order; the counter stands for `_creationTime`. */
  class TaskTable {
    var rows: seq<Task>
    var nextId: RowId

    /** Ids are distinct, increase with creation, and are all below the counter. */
    predicate Valid()
      reads this
    {
      IdsAscending(rows) && forall k :: 0 <= k < |rows| ==> rows[k].id < nextId
    }

    constructor ()
      ensures Valid() && rows == [] && nextId == 0
    {
      rows, nextId := [], 0;
    }

    /** `ctx.db.get(id)`: the row with that id, or nothing. */
    function Get(id: RowId): (r: Option<Task>)
      reads this
      ensures r.None? <==> forall k :: 0 <= k < |rows| ==> rows[k].id != id
      ensures r.Some? ==> r.value in rows && r.value.id == id
    {
      match IndexOf(rows, id)
      case Some(k) => Some(rows[k])
      case None => None
    }

    /** `getUserTasks`: exactly the tasks owned by `userId`, newest first; empty when there are none. */
    function GetUserTasks(userId: string): (r: seq<Task>)
      reads this
      requires Valid()
      ensures forall t :: t in r <==> t in rows && t.userId == userId
      ensures IdsDescending(r)
      ensures multiset(r) == multiset(Filter(rows, OwnedBy(userId)))
    {
      var owned := Filter(rows, OwnedBy(userId));
      ReverseMultiset(owned);
      FilterAscending(rows, OwnedBy(userId));
      ReverseAscending(owned);
      ReverseMembership(owned);
      Reverse(owned)
    }

    /** `getTasksByCompletion`: the index scan, the `completed` filter, then the descending order. */
    function GetTasksByCompletion(userId: string, completed: bool): (r: seq<Task>)
      reads this
      requires Valid()
      ensures r == Filter(GetUserTasks(userId), CompletedIs(completed))
    {
      var owned := Filter(rows, OwnedBy(userId));
      FilterReverse(owned, CompletedIs(completed));
      Reverse(Filter(owned, CompletedIs(completed)))
    }

    /** `getTasksByPriority`: the index scan, the `priority` filter, then the descending order. */
    function GetTasksByPriority(userId: string, priority: Priority): (r: seq<Task>)
      reads this
      requires Valid()
      ensures r == Filter(GetUserTasks(userId), PriorityIs(priority))
    {
      var owned := Filter(rows, OwnedBy(userId));
      FilterReverse(owned, PriorityIs(priority));
      Reverse(Filter(owned, PriorityIs(priority)))
    }

    /** `createTask`: one new row with the arguments as given (the title is not checked),
        `completed = false` and both time stamps `now`; nothing else changes. */
    method CreateTask(args: CreateArgs, now: Millis) returns (id: RowId)
      requires Valid()
      modifies this
      ensures Valid()
      ensures id == old(nextId) && nextId == old(nextId) + 1
      ensures rows == old(rows) + [Task(id, args.title, args.description, false, args.priority,
                                        args.dueDate, args.userId, now, now)]
      ensures GetUserTasks(args.userId) == [rows[|rows| - 1]] + old(GetUserTasks(args.userId))
      ensures forall u :: u != args.userId ==> GetUserTasks(u) == old(GetUserTasks(u))
    {
      id := nextId;
      var t := Task(id, args.title, args.description, false, args.priority,
                    args.dueDate, args.userId, now, now);
      forall u ensures Reverse(Filter(rows + [t], OwnedBy(u)))
                    == (if t.userId == u then [t] else []) + Reverse(Filter(rows, OwnedBy(u))) {
        ListingAfterInsert(rows, t, u);
      }
      rows := rows + [t];
      nextId := nextId + 1;
    }

    /** `updateTask`: the row with id `id` gets the supplied fields and `updatedAt = now`;
        every other row, and the row's id, owner and `createdAt`, stay as they were. */
    method UpdateTask(id: RowId, patch: TaskPatch, now: Millis)
      requires Valid()
      requires Get(id).Some?
      modifies this
      ensures Valid() && nextId == old(nextId)
      ensures |rows| == |old(rows)|
      ensures forall k :: 0 <= k < |rows| ==>
                rows[k] == if old(rows)[k].id == id then Patch(old(rows)[k], patch, now) else old(rows)[k]
      ensures Get(id) == Some(Patch(old(Get(id)).value, patch, now))
    {
      var k := IndexOf(rows, id).value;
      rows := rows[k := Patch(rows[k], patch, now)];
    }

    /** `deleteTask`: exactly the row with id `id` is gone; the others keep their order. */
    method DeleteTask(id: RowId)
      requires Valid()
      requires Get(id).Some?
      modifies this
      ensures Valid() && nextId == old(nextId)
      ensures rows == Filter(old(rows), Not(HasId(id)))
      ensures |rows| == |old(rows)| - 1
      ensures forall t :: t in rows <==> t in old(rows) && t.id != id
      ensures Get(id).None?
    {
      var k := IndexOf(rows, id).value;
      RemoveAtIsFilter(rows, k);
      FilterAscending(rows, Not(HasId(id)));
      rows := rows[..k] + rows[k + 1..];
    }

    /** `toggleTaskCompletion`: read the row, fail with "Task not found" if it is missing,
        otherwise write back the negated `completed` and `updatedAt = now`. */
    method ToggleTaskCompletion(id: RowId, now: Millis) returns (outcome: Outcome)
      requires Valid()
      modifies this
      ensures Valid() && nextId == old(nextId)
      ensures old(Get(id)).None? ==> outcome == Err(TaskNotFound) && rows == old(rows)
      ensures old(Get(id)).Some? ==> outcome == Ok && |rows| == |old(rows)|
      ensures old(Get(id)).Some? ==> forall k :: 0 <= k < |rows| ==>
                rows[k] == if old(rows)[k].id == id then Toggled(old(rows)[k], now) else old(rows)[k]
    {
      var found := Get(id);
      if found.None? {
        return Err(TaskNotFound);
      }
      var task := found.value;
      assert forall k :: 0 <= k < |rows| && rows[k].id == id ==> rows[k] == task;
      UpdateTask(id, TogglePatch(task), now);
      outcome := Ok;
    }
  }

  /** Two sequential toggles of one task: `completed` and everything but `updatedAt` come back. */
  method ToggleTwice(table: TaskTable, id: RowId, first: Millis, second: Millis)
    requires table.Valid() && table.Get(id).Some?
    modifies table
    ensures table.Valid() && |table.rows| == |old(table.rows)| && table.nextId == old(table.nextId)
    ensures forall k :: 0 <= k < |table.rows| ==>
              table.rows[k] == if old(table.rows)[k].id == id
                               then old(table.rows)[k].(updatedAt := second)
                               else old(table.rows)[k]
  {
    var o1 := table.ToggleTaskCompletion(id, first);
    var o2 := table.ToggleTaskCompletion(id, second);
  }
}
