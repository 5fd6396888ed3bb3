/** The dashboard's four tabs, derived from the owner listing (components/dashboard.tsx). */
module Dashboard {
  import opened Schema
  import opened TaskFilter
  import opened TaskStats
  import opened Tasks

  /** The key the listing is subscribed with: the signed-in user's id, or the empty string. */
  function QueryUserId(user: Option<string>): (u: string)
    ensures user.Some? ==> u == user.value
    ensures user.None? ==> u == ""
  {
    if user.Some? then user.value else ""
  }

  /** `tasks || []`: a result that has not arrived yet reads as the empty list. */
  function OrEmpty(result: Option<seq<Task>>): (ts: seq<Task>)
    ensures result.None? ==> ts == []
    ensures result.Some? ==> ts == result.value
  {
    if result.Some? then result.value else []
  }

  const Pending: Criterion := Not(CompletedIs(true))
  const Done: Criterion := CompletedIs(true)
  const HighPriority: Criterion := PriorityIs(High)

  /** What the dashboard shows: the skeleton while nobody is signed in, else the cards and the tabs. */
  datatype View =
    | Skeleton
    | Board(stats: seq<StatCard>, all: seq<Task>, pending: seq<Task>, completed: seq<Task>, high: seq<Task>)

  function Render(user: Option<string>, result: Option<seq<Task>>): (v: View)
    ensures user.None? <==> v.Skeleton?
    ensures v.Board? ==> v.all == OrEmpty(result) && v.stats == StatCards(OrEmpty(result))
    ensures v.Board? ==> forall t :: t in v.pending <==> t in v.all && !t.completed
    ensures v.Board? ==> forall t :: t in v.completed <==> t in v.all && t.completed
    ensures v.Board? ==> forall t :: t in v.high <==> t in v.all && t.priority == High
  {
    if user.None? then Skeleton
    else
      var ts := OrEmpty(result);
      Board(StatCards(ts), ts, Filter(ts, Pending), Filter(ts, Done), Filter(ts, HighPriority))
  }

  /** Before the listing arrives every tab is empty and every counter is zero. */
  lemma UnloadedIsEmpty(u: string)
    ensures var v := Render(Some(u), None);
      && v.all == [] && v.pending == [] && v.completed == [] && v.high == []
      && forall k :: 0 <= k < |v.stats| ==> v.stats[k].value == 0
  {
    var v := Render(Some(u), None);
    assert v.stats[1].value == 0 && v.stats[3].value <= v.stats[2].value;
  }

  /** The pending and completed tabs split the full list: they add up to it, as a multiset
      and in length, and share no task. */
  lemma PendingCompletedPartition(user: Option<string>, result: Option<seq<Task>>)
    requires user.Some?
    ensures var v := Render(user, result);
      && |v.pending| + |v.completed| == |v.all|
      && multiset(v.pending) + multiset(v.completed) == multiset(v.all)
      && forall t :: !(t in v.pending && t in v.completed)
  {
    var ts := OrEmpty(result);
    FilterPartition(ts, Done);
  }

  /** Each tab keeps the listing's newest-first order. */
  lemma TabsKeepOrder(user: Option<string>, result: Option<seq<Task>>)
    requires user.Some?
    requires IdsDescending(OrEmpty(result))
    ensures var v := Render(user, result);
      && IdsDescending(v.pending) && IdsDescending(v.completed) && IdsDescending(v.high)
  {
    var ts := OrEmpty(result);
    FilterDescending(ts, Pending);
    FilterDescending(ts, Done);
    FilterDescending(ts, HighPriority);
  }

  /** Once the listing keyed by `QueryUserId(user)` has arrived for a signed-in user, each tab is
      what the matching server query for that user returns: the pending tab is
      `getTasksByCompletion(u, false)`, the completed tab `getTasksByCompletion(u, true)` and the
      high tab `getTasksByPriority(u, high)`, where `u` is the user's own id. */
  lemma TabsMatchServerQueries(table: TaskTable, user: Option<string>)
    requires table.Valid()
    requires user.Some?
    ensures var v := Render(user, Some(table.GetUserTasks(QueryUserId(user))));
      && v.Board?
      && v.all == table.GetUserTasks(user.value)
      && v.pending == table.GetTasksByCompletion(user.value, false)
      && v.completed == table.GetTasksByCompletion(user.value, true)
      && v.high == table.GetTasksByPriority(user.value, High)
  {
    FilterCongruent(table.GetUserTasks(user.value), Pending, CompletedIs(false));
  }

  /** Without a signed-in user the listing is keyed by "", so it holds exactly the tasks whose
      owner is the empty string, though the dashboard shows only the skeleton. */
  lemma SignedOutKey(table: TaskTable)
    requires table.Valid()
    ensures forall t :: t in table.GetUserTasks(QueryUserId(None)) <==> t in table.rows && t.userId == ""
    ensures Render(None, Some(table.GetUserTasks(QueryUserId(None)))) == Skeleton
  {
  }
}
