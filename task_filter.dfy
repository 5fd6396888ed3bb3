/** Order-preserving selection of tasks by a criterion: the `.filter(...)` of the store's
    query builder (convex/tasks.ts) and of the client's arrays (components/). */
module TaskFilter {
  import opened Schema
  import opened Sequences

  /** The conditions the queries and the components select tasks by. */
  datatype Criterion =
    | OwnedBy(userId: string)
    | CompletedIs(completed: bool)
    | PriorityIs(priority: Priority)
    | HasId(id: RowId)
    | Not(inner: Criterion)
    | And(left: Criterion, right: Criterion)

  predicate Matches(c: Criterion, t: Task)
  {
    match c
    case OwnedBy(u) => t.userId == u
    case CompletedIs(b) => t.completed == b
    case PriorityIs(p) => t.priority == p
    case HasId(id) => t.id == id
    case Not(inner) => !Matches(inner, t)
    case And(l, r) => Matches(l, t) && Matches(r, t)
  }

  /** The tasks of `s` that satisfy `c`, in the order of `s`. */
  function Filter(s: seq<Task>, c: Criterion): (r: seq<Task>)
    ensures |r| <= |s|
    ensures forall t :: t in r <==> t in s && Matches(c, t)
  {
    if s == [] then [] else (if Matches(c, s[0]) then [s[0]] else []) + Filter(s[1..], c)
  }

  /** Row ids strictly increase along `s`: the table's own order, oldest first. */
  predicate IdsAscending(s: seq<Task>)
  {
    forall i, j :: 0 <= i < j < |s| ==> s[i].id < s[j].id
  }

  /** Row ids strictly decrease along `s`: newest first. */
  predicate IdsDescending(s: seq<Task>)
  {
    forall i, j :: 0 <= i < j < |s| ==> s[i].id > s[j].id
  }

  lemma {:induction false} FilterAppend(a: seq<Task>, b: seq<Task>, c: Criterion)
    ensures Filter(a + b, c) == Filter(a, c) + Filter(b, c)
  {
    if a == [] {
      assert a + b == b;
    } else {
      assert (a + b)[1..] == a[1..] + b;
      FilterAppend(a[1..], b, c);
    }
  }

  /** Selecting from a newest-first listing is the same as selecting first and then reversing. */
  lemma {:induction false} FilterReverse(s: seq<Task>, c: Criterion)
    ensures Filter(Reverse(s), c) == Reverse(Filter(s, c))
  {
    if s != [] {
      var head := if Matches(c, s[0]) then [s[0]] else [];
      calc {
        Filter(Reverse(s), c);
        Filter(Reverse(s[1..]) + [s[0]], c);
        { FilterAppend(Reverse(s[1..]), [s[0]], c); }
        Filter(Reverse(s[1..]), c) + Filter([s[0]], c);
        { FilterReverse(s[1..], c); assert Filter([s[0]], c) == head + Filter([], c); }
        Reverse(Filter(s[1..], c)) + head;
        { assert Reverse(head) == head; }
        Reverse(Filter(s[1..], c)) + Reverse(head);
        { ReverseAppend(head, Filter(s[1..], c)); }
        Reverse(head + Filter(s[1..], c));
      }
    }
  }

  /** Two successive selections are one selection by the conjunction. */
  lemma {:induction false} FilterAnd(s: seq<Task>, a: Criterion, b: Criterion)
    ensures Filter(s, And(a, b)) == Filter(Filter(s, a), b)
  {
    if s != [] {
      FilterAnd(s[1..], a, b);
      if Matches(a, s[0]) {
        assert Filter(s, a) == [s[0]] + Filter(s[1..], a);
        assert Filter(s, a)[1..] == Filter(s[1..], a);
      } else {
        assert Filter(s, a) == Filter(s[1..], a);
      }
    }
  }

  /** Criteria that agree on every element of `s` select the same tasks from it. */
  lemma {:induction false} FilterCongruent(s: seq<Task>, a: Criterion, b: Criterion)
    requires forall t :: t in s ==> (Matches(a, t) <==> Matches(b, t))
    ensures Filter(s, a) == Filter(s, b)
  {
    if s != [] {
      assert forall t :: t in s[1..] ==> t in s;
      FilterCongruent(s[1..], a, b);
    }
  }

  /** A criterion that every element satisfies selects the whole sequence. */
  lemma {:induction false} FilterAll(s: seq<Task>, c: Criterion)
    requires forall i :: 0 <= i < |s| ==> Matches(c, s[i])
    ensures Filter(s, c) == s
  {
    if s != [] {
      FilterAll(s[1..], c);
      assert s == [s[0]] + s[1..];
    }
  }

  /** A criterion selects all of `s` exactly when every element satisfies it. */
  lemma {:induction false} FilterKeepsAllIff(s: seq<Task>, c: Criterion)
    ensures |Filter(s, c)| == |s| <==> forall i :: 0 <= i < |s| ==> Matches(c, s[i])
  {
    if s != [] {
      FilterKeepsAllIff(s[1..], c);
      assert forall i :: 1 <= i < |s| ==> s[i] == s[1..][i - 1];
      if !Matches(c, s[0]) {
        assert |Filter(s, c)| == |Filter(s[1..], c)| <= |s| - 1;
      }
    }
  }

  /** A criterion selects nothing from `s` exactly when no element satisfies it. */
  lemma FilterEmptyIff(s: seq<Task>, c: Criterion)
    ensures Filter(s, c) == [] <==> forall i :: 0 <= i < |s| ==> !Matches(c, s[i])
  {
    if Filter(s, c) == [] {
      forall i | 0 <= i < |s| ensures !Matches(c, s[i]) {
        assert s[i] in s;
      }
    } else {
      var t := Filter(s, c)[0];
      assert t in Filter(s, c);
      var i :| 0 <= i < |s| && s[i] == t;
    }
  }

  /** A criterion and its negation split `s`: the two selections add up to `s`, as a multiset and in length. */
  lemma {:induction false} FilterPartition(s: seq<Task>, c: Criterion)
    ensures multiset(Filter(s, c)) + multiset(Filter(s, Not(c))) == multiset(s)
    ensures |Filter(s, c)| + |Filter(s, Not(c))| == |s|
  {
    if s != [] {
      FilterPartition(s[1..], c);
      assert s == [s[0]] + s[1..];
    }
  }

  /** Selection keeps the relative order of what it keeps. */
  lemma {:induction false} FilterAscending(s: seq<Task>, c: Criterion)
    requires IdsAscending(s)
    ensures IdsAscending(Filter(s, c))
  {
    if s != [] {
      var tail := s[1..];
      assert IdsAscending(tail) by {
        forall i, j | 0 <= i < j < |tail| ensures tail[i].id < tail[j].id {
          assert tail[i] == s[i + 1] && tail[j] == s[j + 1];
        }
      }
      FilterAscending(tail, c);
      forall t | t in Filter(tail, c) ensures s[0].id < t.id {
        var k :| 0 <= k < |tail| && tail[k] == t;
        assert t == s[k + 1];
      }
    }
  }

  lemma ReverseAscending(s: seq<Task>)
    requires IdsAscending(s)
    ensures IdsDescending(Reverse(s))
  {
  }

  /** A selection from a newest-first listing is itself newest first. */
  lemma FilterDescending(s: seq<Task>, c: Criterion)
    requires IdsDescending(s)
    ensures IdsDescending(Filter(s, c))
  {
    var r := Reverse(s);
    assert s == Reverse(r);
    assert IdsAscending(r);
    FilterAscending(r, c);
    FilterReverse(r, c);
    ReverseAscending(Filter(r, c));
  }

  /** A newest-first listing is fixed by what it contains: the order adds no freedom. */
  lemma {:induction false} DescendingListingUnique(a: seq<Task>, b: seq<Task>)
    requires IdsDescending(a) && IdsDescending(b)
    requires forall t :: t in a <==> t in b
    ensures a == b
  {
    assert a != [] ==> a[0] in b;
    assert b != [] ==> b[0] in a;
    if a != [] && b != [] {
      assert a[0] in b && b[0] in a;
      var i :| 0 <= i < |a| && a[i] == b[0];
      var j :| 0 <= j < |b| && b[j] == a[0];
      assert i == 0 && j == 0;
      forall t ensures t in a[1..] <==> t in b[1..] {
        if t in a[1..] {
          var k :| 1 <= k < |a| && a[k] == t;
          assert t in b && t != b[0];
        }
        if t in b[1..] {
          var k :| 1 <= k < |b| && b[k] == t;
          assert t in a && t != a[0];
        }
      }
      DescendingListingUnique(a[1..], b[1..]);
      assert a == [a[0]] + a[1..] && b == [b[0]] + b[1..];
    }
  }
}
