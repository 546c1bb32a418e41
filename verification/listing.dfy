/** "My reservations": the records of one user, newest first. Firestore's
    `where('userId', '==', u)` + `orderBy('createdAt', 'desc')` and the SQL
    `WHERE user_id = $1 ORDER BY created_at DESC` are the same query. */
module Listing {
  import opened JsValues
  import opened Reservations

  /** Ordered by creation time, newest first. */
  predicate NewestFirst(s: seq<Reservation>) {
    forall i, j :: 0 <= i < j < |s| ==> s[i].createdAt >= s[j].createdAt
  }

  /** The records of `userId`, each as often as it is stored. */
  function OfUser(store: Store, userId: string): (r: Store)
    ensures forall e :: multiset(r)[e] == if e.userId == Some(userId) then multiset(store)[e] else 0
    decreases |store|
  {
    if |store| == 0 then []
    else
      var rest := OfUser(store[1..], userId);
      assert store == [store[0]] + store[1..];
      if store[0].userId == Some(userId) then [store[0]] + rest else rest
  }

  /** Insert one record into a newest-first list, before the first record
      no newer than it. */
  function InsertNewestFirst(x: Reservation, s: seq<Reservation>): (r: seq<Reservation>)
    requires NewestFirst(s)
    ensures multiset(r) == multiset(s) + multiset{x}
    ensures NewestFirst(r)
    decreases |s|
  {
    if |s| == 0 || x.createdAt >= s[0].createdAt then [x] + s
    else
      TailStaysNewestFirst(s);
      var rest := InsertNewestFirst(x, s[1..]);
      assert s == [s[0]] + s[1..];
      HeadNoOlderThanInsert(x, s, rest);
      [s[0]] + rest
  }

  lemma TailStaysNewestFirst(s: seq<Reservation>)
    requires |s| > 0 && NewestFirst(s)
    ensures NewestFirst(s[1..])
  {
    forall i, j | 0 <= i < j < |s[1..]|
      ensures s[1..][i].createdAt >= s[1..][j].createdAt
    {
      assert s[1..][i] == s[i + 1] && s[1..][j] == s[j + 1];
    }
  }

  /** The head of a newest-first list is no older than anything in the
      rest of the list, nor than a record newer than nothing in it. */
  lemma HeadNoOlderThanInsert(x: Reservation, s: seq<Reservation>, rest: seq<Reservation>)
    requires |s| > 0 && NewestFirst(s) && x.createdAt < s[0].createdAt
    requires multiset(rest) == multiset(s[1..]) + multiset{x}
    ensures forall k :: 0 <= k < |rest| ==> s[0].createdAt >= rest[k].createdAt
  {
    forall k | 0 <= k < |rest|
      ensures s[0].createdAt >= rest[k].createdAt
    {
      assert rest[k] in multiset(rest);
      if rest[k] != x {
        assert rest[k] in multiset(s[1..]);
        var m :| 0 <= m < |s[1..]| && s[1..][m] == rest[k];
        assert s[m + 1] == rest[k];
      }
    }
  }

  /** A newest-first rearrangement of `s`. */
  function SortNewestFirst(s: seq<Reservation>): (r: seq<Reservation>)
    ensures multiset(r) == multiset(s)
    ensures NewestFirst(r)
    decreases |s|
  {
    if |s| == 0 then []
    else
      assert s == [s[0]] + s[1..];
      InsertNewestFirst(s[0], SortNewestFirst(s[1..]))
  }

  /** `listReservationsByUser(userId)`: exactly the records of that user
      (each as often as stored), newest first. */
  function ByUser(store: Store, userId: string): (r: Store)
    ensures NewestFirst(r)
    ensures forall e :: multiset(r)[e] == if e.userId == Some(userId) then multiset(store)[e] else 0
    ensures forall e :: e in r <==> e in store && e.userId == Some(userId)
  {
    var r := SortNewestFirst(OfUser(store, userId));
    assert forall e :: e in r <==> multiset(r)[e] > 0;
    assert forall e :: e in store <==> multiset(store)[e] > 0;
    r
  }

  /** Two newest-first arrangements of the same records with distinct
      timestamps start with the same record. */
  lemma SameHead(a: seq<Reservation>, b: seq<Reservation>)
    requires |a| > 0 && |b| > 0
    requires NewestFirst(a) && NewestFirst(b)
    requires multiset(a) == multiset(b)
    requires DistinctTimes(a)
    ensures a[0] == b[0]
  {
    assert a[0] in multiset(b);
    assert b[0] in multiset(a);
    var i :| 0 <= i < |b| && b[i] == a[0];
    var j :| 0 <= j < |a| && a[j] == b[0];
    assert b[0].createdAt >= b[i].createdAt;
    assert a[0].createdAt >= a[j].createdAt;
    assert a[0].createdAt == a[j].createdAt;
    assert j == 0;
  }

  /** Distinct creation times. */
  predicate DistinctTimes(a: seq<Reservation>) {
    forall i, j :: 0 <= i < j < |a| ==> a[i].createdAt != a[j].createdAt
  }

  lemma TailNewestFirst(a: seq<Reservation>)
    requires |a| > 0 && NewestFirst(a) && DistinctTimes(a)
    ensures NewestFirst(a[1..]) && DistinctTimes(a[1..])
  {
    TailStaysNewestFirst(a);
    forall i, j | 0 <= i < j < |a[1..]|
      ensures a[1..][i].createdAt != a[1..][j].createdAt
    {
      assert a[1..][i] == a[i + 1] && a[1..][j] == a[j + 1];
    }
  }

  /** Equal multisets with equal heads have equal tails. */
  lemma SameTails(a: seq<Reservation>, b: seq<Reservation>)
    requires |a| > 0 && |b| > 0 && a[0] == b[0]
    requires multiset(a) == multiset(b)
    ensures multiset(a[1..]) == multiset(b[1..])
  {
    assert a == [a[0]] + a[1..] && b == [b[0]] + b[1..];
    assert multiset(a[1..]) == multiset(a) - multiset{a[0]};
    assert multiset(b[1..]) == multiset(b) - multiset{b[0]};
  }

  /** A newest-first list is fixed by its contents when no two of its
      records share a timestamp: the listing does not depend on the order the
      store keeps its records in. */
  lemma {:induction false} NewestFirstUnique(a: seq<Reservation>, b: seq<Reservation>)
    requires NewestFirst(a) && NewestFirst(b)
    requires multiset(a) == multiset(b)
    requires DistinctTimes(a)
    ensures a == b
    decreases |a|
  {
    assert |a| == |multiset(a)| == |b|;
    if |a| > 0 {
      SameHead(a, b);
      TailNewestFirst(a);
      TailStaysNewestFirst(b);
      SameTails(a, b);
      NewestFirstUnique(a[1..], b[1..]);
    }
  }
}
