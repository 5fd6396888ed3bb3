/** The dashboard's four counters and the completion rate (components/task-stats.tsx). */
module TaskStats {
  import opened Schema
  import opened TaskFilter

  /** The tasks marked done. */
  function CompletedTasks(ts: seq<Task>): (n: nat)
    ensures n <= |ts|
    ensures n == |ts| <==> forall i :: 0 <= i < |ts| ==> ts[i].completed
    ensures n == 0 <==> forall i :: 0 <= i < |ts| ==> !ts[i].completed
  {
    FilterKeepsAllIff(ts, CompletedIs(true));
    FilterEmptyIff(ts, CompletedIs(true));
    |Filter(ts, CompletedIs(true))|
  }

  /** The total less the completed ones: exactly the tasks not marked done. */
  function PendingTasks(ts: seq<Task>): (n: int)
    ensures n >= 0 && n == |Filter(ts, Not(CompletedIs(true)))|
  {
    FilterPartition(ts, CompletedIs(true));
    |ts| - CompletedTasks(ts)
  }

  /** The open tasks of high priority. */
  function HighPriorityTasks(ts: seq<Task>): (n: nat)
    ensures n <= |ts|
    ensures n == 0 <==> forall i :: 0 <= i < |ts| ==> !(ts[i].priority == High && !ts[i].completed)
  {
    var urgent := And(PriorityIs(High), Not(CompletedIs(true)));
    FilterEmptyIff(ts, urgent);
    forall i | 0 <= i < |ts|
      ensures Matches(urgent, ts[i]) <==> ts[i].priority == High && !ts[i].completed
    {
      assert Matches(Not(CompletedIs(true)), ts[i]) <==> !ts[i].completed;
    }
    |Filter(ts, And(PriorityIs(High), Not(CompletedIs(true))))|
  }

  /** Every open high-priority task is an open task: the fourth counter never exceeds the third. */
  lemma HighPriorityArePending(ts: seq<Task>)
    ensures HighPriorityTasks(ts) <= PendingTasks(ts)
    ensures HighPriorityTasks(ts) == |Filter(Filter(ts, Not(CompletedIs(true))), PriorityIs(High))|
  {
    var open := Not(CompletedIs(true));
    FilterCongruent(ts, And(PriorityIs(High), open), And(open, PriorityIs(High)));
    FilterAnd(ts, open, PriorityIs(High));
  }

  /** `Math.round(c / t * 100)` on exact rationals: round half up, which for a non-negative
      value is the floor of the value plus one half. */
  function Percent(c: nat, t: nat): (r: nat)
    requires 0 < t
    ensures 2 * t * r <= 200 * c + t < 2 * t * (r + 1)
  {
    DivBounds(200 * c + t, 2 * t);
    (200 * c + t) / (2 * t)
  }

  lemma DivBounds(a: nat, b: nat)
    requires 0 < b
    ensures b * (a / b) <= a < b * (a / b + 1)
  {
  }

  /** A rounded value is unique: the bounds of `Percent` admit one whole number only. */
  lemma PercentUnique(c: nat, t: nat, r: nat)
    requires 0 < t
    requires 2 * t * r <= 200 * c + t < 2 * t * (r + 1)
    ensures r == Percent(c, t)
  {
    var p := Percent(c, t);
    if r < p {
      MulMonotone(2 * t, r + 1, p);
    } else if p < r {
      MulMonotone(2 * t, p + 1, r);
    }
  }

  lemma MulMonotone(k: nat, a: nat, b: nat)
    requires a <= b
    ensures k * a <= k * b
  {
  }

  /** The rate is 100 exactly when at least 199 of every 200 tasks are done, and 0 exactly when
      fewer than 1 in 200 are. */
  lemma PercentExtremes(c: nat, t: nat)
    requires 0 < t && c <= t
    ensures Percent(c, t) <= 100
    ensures Percent(c, t) == 100 <==> 200 * c >= 199 * t
    ensures Percent(c, t) == 0 <==> 200 * c < t
  {
    var p := Percent(c, t);
    if p > 100 {
      MulMonotone(2 * t, 101, p);
    }
    if p == 100 {
      assert 200 * t <= 200 * c + t;
    } else {
      MulMonotone(2 * t, p + 1, 100);
    }
    if p == 0 {
      assert 200 * c + t < 2 * t;
    } else {
      MulMonotone(2 * t, 1, p);
    }
  }

  /** The share of completed tasks in whole percent, 0 for an empty list. */
  function CompletionRate(ts: seq<Task>): (r: nat)
    ensures |ts| == 0 ==> r == 0
    ensures |ts| > 0 ==> 2 * |ts| * r <= 200 * CompletedTasks(ts) + |ts| < 2 * |ts| * (r + 1)
  {
    if |ts| > 0 then Percent(CompletedTasks(ts), |ts|) else 0
  }

  /** All done reads 100%, none done reads 0%, and the rate never exceeds 100. */
  lemma CompletionRateBounds(ts: seq<Task>)
    ensures CompletionRate(ts) <= 100
    ensures (forall i :: 0 <= i < |ts| ==> ts[i].completed) ==> CompletionRate(ts) == (if |ts| > 0 then 100 else 0)
    ensures (forall i :: 0 <= i < |ts| ==> !ts[i].completed) ==> CompletionRate(ts) == 0
  {
    if |ts| > 0 {
      PercentExtremes(CompletedTasks(ts), |ts|);
    }
  }

  /** A list with one open task reads 100% as soon as it holds 200 tasks or more: the rounding
      hides the open task. */
  lemma OneOpenTaskCanRead100(t: nat)
    requires 0 < t
    ensures Percent(t - 1, t) == 100 <==> t >= 200
  {
    PercentExtremes(t - 1, t);
  }

  /** The concrete instances: 199 of 200 reads 100%, 1 of 201 reads 0%. */
  lemma RoundingExamples()
    ensures Percent(199, 200) == 100
    ensures Percent(1, 201) == 0
  {
    PercentExtremes(199, 200);
    PercentExtremes(1, 201);
  }

  /** One card of the grid: a title, a value and, on the "Completed" card only, the rate. */
  datatype StatCard = StatCard(title: string, value: int, rate: Option<nat>)

  /** The four cards in display order; the rate line shows only when there is at least one task. */
  function StatCards(ts: seq<Task>): (cards: seq<StatCard>)
    ensures |cards| == 4
    ensures cards[0].title == "Total Tasks" && cards[1].title == "Completed"
    ensures cards[2].title == "Pending" && cards[3].title == "High Priority"
    ensures cards[0].value == |ts| && cards[1].value == CompletedTasks(ts)
    ensures cards[2].value == PendingTasks(ts) && cards[3].value == HighPriorityTasks(ts)
    ensures cards[1].rate == (if |ts| > 0 then Some(CompletionRate(ts)) else None)
    ensures cards[0].value == cards[1].value + cards[2].value == |ts|
    ensures 0 <= cards[3].value <= cards[2].value
    ensures forall k :: 0 <= k < 4 ==> (cards[k].rate.Some? <==> cards[k].title == "Completed" && |ts| > 0)
    ensures cards[1].rate.Some? ==> cards[1].rate.value <= 100
  {
    HighPriorityArePending(ts);
    CompletionRateBounds(ts);
    var note := if |ts| > 0 then Some(CompletionRate(ts)) else None;
    [ StatCard("Total Tasks", |ts|, None),
      StatCard("Completed", CompletedTasks(ts), note),
      StatCard("Pending", PendingTasks(ts), None),
      StatCard("High Priority", HighPriorityTasks(ts), None) ]
  }
}
