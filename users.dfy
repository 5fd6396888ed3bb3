/** The user directory: the `users` table with the lookup and mutations of convex/users.ts. */
module Users {
  import opened Schema

  /** The arguments of `upsertUser`. */
  datatype Profile = Profile(userId: string, email: string, name: Option<string>, avatar: Option<string>)

  /** The first row, in index order, whose `userId` is `u`: what `.withIndex("by_user_id", ...).first()`
      finds. Among equal keys the index orders rows by creation, which is the order of `rows`. */
  function FirstIndex(rows: seq<User>, u: string): (r: Option<nat>)
    ensures r.Some? ==> r.value < |rows| && rows[r.value].userId == u
    ensures r.Some? ==> forall k :: 0 <= k < r.value ==> rows[k].userId != u
    ensures r.None? <==> forall k :: 0 <= k < |rows| ==> rows[k].userId != u
  {
    if rows == [] then None
    else if rows[0].userId == u then Some(0)
    else match FirstIndex(rows[1..], u)
      case Some(k) => Some(k + 1)
      case None => None
  }

  /** Row ids strictly increase along the table: it is kept in creation order. */
  predicate RowIdsAscending(rows: seq<User>)
  {
    forall i, j :: 0 <= i < j < |rows| ==> rows[i].id < rows[j].id
  }

  /** At most one row per `userId`. The index does not enforce this; `upsertUser` keeps it. */
  predicate UserIdsUnique(rows: seq<User>)
  {
    forall i, j :: 0 <= i < j < |rows| ==> rows[i].userId != rows[j].userId
  }

  /** The row after the patch `upsertUser` writes on an existing user: `email`, the supplied
      `name` and `avatar`, and `lastSeen := now`. The spread also writes `userId`, which is the
      value the row was found by, so it stays as it was. */
  function Refreshed(row: User, p: Profile, now: Millis): (r: User)
    ensures r.id == row.id && r.userId == row.userId && r.createdAt == row.createdAt
    ensures r.email == p.email && r.lastSeen == now
    ensures p.name.None? ==> r.name == row.name
    ensures p.name.Some? ==> r.name == p.name
    ensures p.avatar.None? ==> r.avatar == row.avatar
    ensures p.avatar.Some? ==> r.avatar == p.avatar
  {
    row.(email := p.email,
         name := if p.name.Some? then p.name else row.name,
         avatar := if p.avatar.Some? then p.avatar else row.avatar,
         lastSeen := now)
  }

  /** The table after a sequential `upsertUser`: patch the first matching row, or insert a new one. */
  function Upserted(rows: seq<User>, nextId: RowId, p: Profile, now: Millis): (r: seq<User>)
    ensures |r| == |rows| + (if FirstIndex(rows, p.userId).None? then 1 else 0)
    ensures forall k :: 0 <= k < |rows| ==> r[k].userId == rows[k].userId && r[k].id == rows[k].id
    ensures forall k :: 0 <= k < |rows| && rows[k].userId != p.userId ==> r[k] == rows[k]
    ensures FirstIndex(rows, p.userId).Some? ==>
              var i := FirstIndex(rows, p.userId).value;
              r[i] == Refreshed(rows[i], p, now) && forall k :: 0 <= k < |rows| && k != i ==> r[k] == rows[k]
    ensures FirstIndex(rows, p.userId).None? ==>
              r[|rows|] == User(nextId, p.userId, p.email, p.name, p.avatar, now, now)
  {
    match FirstIndex(rows, p.userId)
    case Some(i) => rows[i := Refreshed(rows[i], p, now)]
    case None => rows + [User(nextId, p.userId, p.email, p.name, p.avatar, now, now)]
  }

  /** An upsert adds a row exactly when no row had the `userId`, and otherwise keeps the
      matching row's `createdAt`; afterwards the lookup finds a row carrying the new profile. */
  lemma {:induction false} UpsertThenLookup(rows: seq<User>, nextId: RowId, p: Profile, now: Millis)
    ensures var after := Upserted(rows, nextId, p, now);
      && (FirstIndex(rows, p.userId).Some? ==> |after| == |rows|)
      && (FirstIndex(rows, p.userId).None? ==> |after| == |rows| + 1)
      && FirstIndex(after, p.userId).Some?
      && var row := after[FirstIndex(after, p.userId).value];
         && row.email == p.email && row.lastSeen == now
         && (p.name.Some? ==> row.name == p.name)
         && (p.avatar.Some? ==> row.avatar == p.avatar)
         && (FirstIndex(rows, p.userId).None? ==> row.createdAt == now && row.id == nextId)
         && (FirstIndex(rows, p.userId).Some? ==> row == Refreshed(rows[FirstIndex(rows, p.userId).value], p, now))
  {
    var after := Upserted(rows, nextId, p, now);
    match FirstIndex(rows, p.userId)
    case Some(i) =>
      assert after[i].userId == p.userId;
      forall k | 0 <= k < i ensures after[k].userId != p.userId {
        assert after[k] == rows[k];
      }
      FirstIsUnique(after, p.userId, i);
    case None =>
      var n := |rows|;
      assert after[n].userId == p.userId;
      forall k | 0 <= k < n ensures after[k].userId != p.userId {
        assert after[k] == rows[k];
      }
      FirstIsUnique(after, p.userId, n);
  }

  /** A row with key `u` that no earlier row shares is the one the lookup finds. */
  lemma {:induction false} FirstIsUnique(rows: seq<User>, u: string, i: nat)
    requires i < |rows| && rows[i].userId == u
    requires forall k :: 0 <= k < i ==> rows[k].userId != u
    ensures FirstIndex(rows, u) == Some(i)
  {
    var r := FirstIndex(rows, u);
    assert r.Some?;
  }

  /** Starting from at most one row per `userId`, an upsert keeps at most one row per `userId`. */
  lemma {:induction false} UpsertKeepsUnique(rows: seq<User>, nextId: RowId, p: Profile, now: Millis)
    requires UserIdsUnique(rows)
    ensures UserIdsUnique(Upserted(rows, nextId, p, now))
  {
    var after := Upserted(rows, nextId, p, now);
    match FirstIndex(rows, p.userId)
    case Some(i) =>
      forall a, b | 0 <= a < b < |after| ensures after[a].userId != after[b].userId {
        assert after[a].userId == rows[a].userId && after[b].userId == rows[b].userId;
      }
    case None =>
      forall a, b | 0 <= a < b < |after| ensures after[a].userId != after[b].userId {
        if b == |rows| {
          assert after[a] == rows[a] && after[b].userId == p.userId;
        } else {
          assert after[a] == rows[a] && after[b] == rows[b];
        }
      }
  }

  /** A second upsert of the same `userId` adds no row: it patches the row the first one left. */
  lemma UpsertTwiceAddsOneRowAtMost(rows: seq<User>, nextId: RowId, p: Profile, q: Profile, t1: Millis, t2: Millis)
    requires q.userId == p.userId
    ensures |Upserted(Upserted(rows, nextId, p, t1), nextId + 1, q, t2)| == |Upserted(rows, nextId, p, t1)|
    ensures |Upserted(rows, nextId, p, t1)| <= |rows| + 1
  {
    UpsertThenLookup(rows, nextId, p, t1);
    UpsertThenLookup(Upserted(rows, nextId, p, t1), nextId + 1, q, t2);
  }

  /** An upsert for one `userId` does not change what the lookup finds for any other. */
  lemma {:induction false} UpsertLeavesOthers(rows: seq<User>, nextId: RowId, p: Profile, now: Millis, u: string)
    requires u != p.userId
    ensures var after := Upserted(rows, nextId, p, now);
      && FirstIndex(after, u) == FirstIndex(rows, u)
      && (FirstIndex(rows, u).Some? ==> after[FirstIndex(rows, u).value] == rows[FirstIndex(rows, u).value])
  {
    var after := Upserted(rows, nextId, p, now);
    assert forall k :: 0 <= k < |rows| ==> after[k].userId == rows[k].userId;
    assert forall k :: 0 <= k < |rows| && rows[k].userId != p.userId ==> after[k] == rows[k];
    match FirstIndex(rows, u)
    case Some(i) =>
      FirstIsUnique(after, u, i);
    case None =>
  }

  /** The index on `userId` is not unique: a table holding two rows with one `userId` is a valid
      table, and the lookup then finds the older row. */
  lemma DuplicateUserIdsRepresentable()
    ensures exists rows :: RowIdsAscending(rows) && !UserIdsUnique(rows) && FirstIndex(rows, "u1") == Some(0)
  {
    var rows := [User(0, "u1", "a@x.com", None, None, 0, 0), User(1, "u1", "b@x.com", None, None, 1, 1)];
    assert rows[0].userId == rows[1].userId;
    assert FirstIndex(rows, "u1") == Some(0);
  }

  /** The `users` table, kept in creation order, with a creation counter for new rows. */
  class UserTable {
    var rows: seq<User>
    var nextId: RowId

    predicate Valid()
      reads this
    {
      RowIdsAscending(rows) && forall k :: 0 <= k < |rows| ==> rows[k].id < nextId
    }

    constructor ()
      ensures Valid() && rows == [] && nextId == 0
    {
      rows, nextId := [], 0;
    }

    /** `getUser`: the first row whose `userId` is `u`, or nothing, never an error. */
    function GetUser(u: string): (r: Option<User>)
      reads this
      ensures r.None? <==> forall k :: 0 <= k < |rows| ==> rows[k].userId != u
      ensures r.Some? ==> r.value.userId == u
      ensures r.Some? ==> exists i :: 0 <= i < |rows| && rows[i] == r.value
                                     && forall k :: 0 <= k < i ==> rows[k].userId != u
      ensures Valid() && r.Some? ==> forall k :: 0 <= k < |rows| && rows[k].userId == u ==> r.value.id <= rows[k].id
    {
      match FirstIndex(rows, u)
      case Some(i) => Some(rows[i])
      case None => None
    }

    /** `upsertUser`: look the user up; patch the row found, or insert a new one with
        `createdAt = lastSeen = now`. Returns the new row's id when it inserts, nothing when it patches. */
    method UpsertUser(p: Profile, now: Millis) returns (inserted: Option<RowId>)
      requires Valid()
      modifies this
      ensures Valid()
      ensures rows == Upserted(old(rows), old(nextId), p, now)
      ensures old(GetUser(p.userId)).Some? ==> inserted == None && nextId == old(nextId)
      ensures old(GetUser(p.userId)).None? ==> inserted == Some(old(nextId)) && nextId == old(nextId) + 1
      ensures old(UserIdsUnique(rows)) ==> UserIdsUnique(rows)
      ensures GetUser(p.userId).Some? && GetUser(p.userId).value.email == p.email
      ensures GetUser(p.userId).value.lastSeen == now
    {
      UpsertThenLookup(rows, nextId, p, now);
      if UserIdsUnique(rows) {
        UpsertKeepsUnique(rows, nextId, p, now);
      }
      var existing := FirstIndex(rows, p.userId);
      if existing.Some? {
        var i := existing.value;
        rows := rows[i := Refreshed(rows[i], p, now)];
        inserted := None;
      } else {
        rows := rows + [User(nextId, p.userId, p.email, p.name, p.avatar, now, now)];
        inserted := Some(nextId);
        nextId := nextId + 1;
      }
    }

    /** `updateLastSeen`: touch `lastSeen` on the first matching row; nothing when there is none. */
    method UpdateLastSeen(u: string, now: Millis)
      requires Valid()
      modifies this
      ensures Valid() && nextId == old(nextId)
      ensures FirstIndex(old(rows), u).None? ==> rows == old(rows)
      ensures FirstIndex(old(rows), u).Some? ==>
                var i := FirstIndex(old(rows), u).value;
                rows == old(rows)[i := old(rows)[i].(lastSeen := now)]
    {
      var found := FirstIndex(rows, u);
      if found.Some? {
        var i := found.value;
        rows := rows[i := rows[i].(lastSeen := now)];
      }
    }
  }
}
