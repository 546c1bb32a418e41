/** The callable Cloud Function `checkCreateReservation`: authentication
    gate, required-field validation, and one Firestore transaction that scans
    the reservations of the requested vehicle type for an inclusive date
    overlap and creates a `confirmed` reservation only when none overlaps.
    The transaction is one atomic step of the store. */
module CloudFunction {
  import opened JsValues
  import opened Strings
  import opened Reservations

  /** The callable's `data` argument. */
  datatype CallData = CallData(
    vehicleType: Option<string>,
    pickupDate: Option<string>,
    returnDate: Option<string>,
    price: Option<int>,
    notes: Option<string>)

  /** What the caller sees: the `{ id }` result or the HttpsError code. */
  datatype Outcome = Created(id: string) | Unauthenticated | InvalidArgument | AlreadyExists

  /** The outcome of one call together with the store after it. */
  datatype Transition = Transition(outcome: Outcome, store: Store)

  /** `vehicleType`, `pickup_date` and `return_date` are all truthy. */
  predicate Complete(data: CallData) {
    Present(data.vehicleType) && Present(data.pickupDate) && Present(data.returnDate)
  }

  /** The document the transaction writes. */
  function ConfirmedRecord(uid: string, data: CallData, newId: string, now: int): Reservation {
    Reservation(newId, Some(uid), data.vehicleType, data.pickupDate, data.returnDate,
                PriceOrNull(data.price), TextOrNull(data.notes), Some("confirmed"), now)
  }

  /** One call of `checkCreateReservation`. `auth` is the uid of
      `context.auth` (`None` when the caller is not signed in); `newId` is
      the generated document id and `now` the server timestamp. */
  function Reserve(store: Store, auth: Option<string>, data: CallData, newId: string, now: int): (t: Transition)
    // no identity: rejected before anything is read or written
    ensures auth.None? ==> t == Transition(Unauthenticated, store)
    // a missing field: rejected, store untouched
    ensures auth.Some? && !Complete(data) ==> t == Transition(InvalidArgument, store)
    // rejected as a conflict exactly when some record of that type overlaps
    ensures auth.Some? && Complete(data) ==>
      (t.outcome == AlreadyExists <==>
        HasConflict(store, data.vehicleType.value, data.pickupDate.value, data.returnDate.value))
    ensures !t.outcome.Created? ==> t.store == store
    // an authenticated, complete call that nothing blocks succeeds
    ensures (auth.Some? && Complete(data)
      && !HasConflict(store, data.vehicleType.value, data.pickupDate.value, data.returnDate.value)) ==>
      t.outcome == Created(newId)
    // on success exactly one confirmed record is appended and nothing else changes
    ensures t.outcome.Created? ==>
      && auth.Some? && Complete(data)
      && t.outcome.id == newId
      && |t.store| == |store| + 1
      && t.store[..|store|] == store
      && var e := t.store[|store|];
      && e.id == newId
      && e.userId == auth
      && e.vehicleType == data.vehicleType
      && e.pickupDate == data.pickupDate
      && e.returnDate == data.returnDate
      && e.status == Some("confirmed")
      && e.createdAt == now
      && (e.price.None? <==> !NumberPresent(data.price))
      && (e.price.Some? ==> e.price == data.price)
      && (e.notes.None? <==> !Present(data.notes))
      && (e.notes.Some? ==> e.notes == data.notes)
  {
    if auth.None? then Transition(Unauthenticated, store)
    else if !Complete(data) then Transition(InvalidArgument, store)
    else if ScanForConflict(OfType(store, data.vehicleType.value), data.pickupDate.value, data.returnDate.value) then
      QueryThenScan(store, data.vehicleType.value, data.pickupDate.value, data.returnDate.value);
      Transition(AlreadyExists, store)
    else
      QueryThenScan(store, data.vehicleType.value, data.pickupDate.value, data.returnDate.value);
      var s := store + [ConfirmedRecord(auth.value, data, newId, now)];
      assert s[..|store|] == store;
      Transition(Created(newId), s)
  }

  /** A call never creates a double booking: if no two complete records of
      one type overlap before it, none do after it. */
  lemma ReservePreservesNoDoubleBooking(store: Store, auth: Option<string>, data: CallData, newId: string, now: int)
    requires NoDoubleBooking(store)
    ensures NoDoubleBooking(Reserve(store, auth, data, newId, now).store)
  {
    var t := Reserve(store, auth, data, newId, now);
    if t.outcome.Created? {
      var e := ConfirmedRecord(auth.value, data, newId, now);
      assert t.store == store + [e];
      AppendKeepsNoDoubleBooking(store, e);
    }
  }

  /** A call never lets two `confirmed` bookings overlap, even on a store
      that already holds overlapping records of another status: the scan
      ignores status, and the only record written is `confirmed`. */
  lemma ReservePreservesNoConfirmedDoubleBooking(store: Store, auth: Option<string>, data: CallData, newId: string, now: int)
    requires NoConfirmedDoubleBooking(store)
    ensures NoConfirmedDoubleBooking(Reserve(store, auth, data, newId, now).store)
  {
    var t := Reserve(store, auth, data, newId, now);
    if t.outcome.Created? {
      var e := ConfirmedRecord(auth.value, data, newId, now);
      assert t.store == store + [e];
      AppendKeepsNoConfirmedDoubleBooking(store, e);
    }
  }

  /** Records of a different type never cause a conflict, and a successful
      call for one type changes no conflict answer for any other type. */
  lemma ReserveIndependentAcrossTypes(
    store: Store, auth: Option<string>, data: CallData, newId: string, now: int,
    otherType: string, pickupDate: string, returnDate: string)
    requires data.vehicleType != Some(otherType)
    ensures HasConflict(Reserve(store, auth, data, newId, now).store, otherType, pickupDate, returnDate) <==>
      HasConflict(store, otherType, pickupDate, returnDate)
  {
    var t := Reserve(store, auth, data, newId, now);
    if t.outcome.Created? {
      assert t.store == store + [t.store[|store|]];
      if HasConflict(t.store, otherType, pickupDate, returnDate) {
        var i :| 0 <= i < |t.store| && ConflictsWith(t.store[i], otherType, pickupDate, returnDate);
        assert i < |store| && t.store[i] == store[i];
      }
      if HasConflict(store, otherType, pickupDate, returnDate) {
        var i :| 0 <= i < |store| && ConflictsWith(store[i], otherType, pickupDate, returnDate);
        assert t.store[i] == store[i];
      }
    }
  }

  /** One invocation with its caller, data, generated id and timestamp. */
  datatype Call = Call(auth: Option<string>, data: CallData, newId: string, now: int)

  /** The outcomes of a sequence of invocations and the final store. */
  datatype Run = Run(outcomes: seq<Outcome>, store: Store)

  /** Concurrent invocations, serialized by Firestore's transactions into
      some order, applied one after another. */
  function ReserveAll(store: Store, calls: seq<Call>): (r: Run)
    ensures |r.outcomes| == |calls|
    ensures NoDoubleBooking(store) ==> NoDoubleBooking(r.store)
    ensures NoConfirmedDoubleBooking(store) ==> NoConfirmedDoubleBooking(r.store)
    decreases |calls|
  {
    if |calls| == 0 then Run([], store)
    else
      var c := calls[0];
      var t := Reserve(store, c.auth, c.data, c.newId, c.now);
      var rest := ReserveAll(t.store, calls[1..]);
      assert NoDoubleBooking(store) ==> NoDoubleBooking(t.store) by {
        if NoDoubleBooking(store) {
          ReservePreservesNoDoubleBooking(store, c.auth, c.data, c.newId, c.now);
        }
      }
      assert NoConfirmedDoubleBooking(store) ==> NoConfirmedDoubleBooking(t.store) by {
        if NoConfirmedDoubleBooking(store) {
          ReservePreservesNoConfirmedDoubleBooking(store, c.auth, c.data, c.newId, c.now);
        }
      }
      Run([t.outcome] + rest.outcomes, rest.store)
  }

  /** An authenticated call with all required fields. */
  predicate WellFormed(c: Call) {
    c.auth.Some? && Complete(c.data)
  }

  /** The request dates of two well-formed calls share a day. */
  predicate RequestsOverlap(a: CallData, b: CallData) {
    && Complete(a) && Complete(b)
    && LexLe(a.pickupDate.value, b.returnDate.value) && LexLe(b.pickupDate.value, a.returnDate.value)
  }

  /** The request of a well-formed call is blocked by the store. */
  predicate Blocked(store: Store, c: Call)
    requires WellFormed(c)
  {
    HasConflict(store, c.data.vehicleType.value, c.data.pickupDate.value, c.data.returnDate.value)
  }

  /** Calls whose requests are all blocked all fail with `already-exists`
      and leave the store as it was. */
  lemma {:induction false} BlockedCallsAllRejected(store: Store, calls: seq<Call>)
    requires forall k :: 0 <= k < |calls| ==> WellFormed(calls[k]) && Blocked(store, calls[k])
    ensures var r := ReserveAll(store, calls);
      r.store == store && forall k :: 0 <= k < |calls| ==> r.outcomes[k] == AlreadyExists
    decreases |calls|
  {
    if |calls| > 0 {
      var c := calls[0];
      BlockedCallRejected(store, c);
      var rest := calls[1..];
      assert forall k :: 0 <= k < |rest| ==> rest[k] == calls[k + 1];
      BlockedCallsAllRejected(store, rest);
      ReserveAllFirst(store, calls);
      var r := ReserveAll(store, calls);
      var tail := ReserveAll(store, rest);
      assert r.outcomes == [AlreadyExists] + tail.outcomes;
      forall k | 0 <= k < |calls|
        ensures r.outcomes[k] == AlreadyExists
      {
        if k > 0 {
          assert r.outcomes[k] == tail.outcomes[k - 1];
        }
      }
    }
  }

  /** A run starts with its first call, then runs the rest on its store. */
  lemma ReserveAllFirst(store: Store, calls: seq<Call>)
    requires |calls| > 0
    ensures var t := Reserve(store, calls[0].auth, calls[0].data, calls[0].newId, calls[0].now);
      var rest := ReserveAll(t.store, calls[1..]);
      ReserveAll(store, calls) == Run([t.outcome] + rest.outcomes, rest.store)
  {
  }

  /** One blocked call is rejected and writes nothing. */
  lemma BlockedCallRejected(store: Store, c: Call)
    requires WellFormed(c) && Blocked(store, c)
    ensures Reserve(store, c.auth, c.data, c.newId, c.now) == Transition(AlreadyExists, store)
  {
  }

  /** Concurrent bookings of one vehicle type over pairwise overlapping
      dates: exactly one succeeds (the first to commit) and every other one
      fails with `already-exists`. */
  lemma ExactlyOneOverlappingCallWins(store: Store, calls: seq<Call>)
    requires |calls| >= 1
    requires forall k :: 0 <= k < |calls| ==> WellFormed(calls[k])
    requires forall i, j :: 0 <= i < |calls| && 0 <= j < |calls| ==>
      calls[i].data.vehicleType == calls[j].data.vehicleType
    requires forall i, j :: 0 <= i < |calls| && 0 <= j < |calls| && i != j ==>
      RequestsOverlap(calls[i].data, calls[j].data)
    requires !Blocked(store, calls[0])
    ensures var r := ReserveAll(store, calls);
      && r.outcomes[0] == Created(calls[0].newId)
      && forall k :: 1 <= k < |calls| ==> r.outcomes[k] == AlreadyExists
  {
    var c := calls[0];
    var t := Reserve(store, c.auth, c.data, c.newId, c.now);
    assert t.outcome == Created(c.newId);
    var e := t.store[|store|];
    var rest := calls[1..];
    forall k | 0 <= k < |rest|
      ensures WellFormed(rest[k]) && Blocked(t.store, rest[k])
    {
      assert rest[k] == calls[k + 1];
      assert RequestsOverlap(calls[0].data, calls[k + 1].data);
      assert ConflictsWith(e, rest[k].data.vehicleType.value, rest[k].data.pickupDate.value, rest[k].data.returnDate.value);
    }
    BlockedCallsAllRejected(t.store, rest);
  }

  /** Concurrent bookings of pairwise different vehicle types, none blocked
      by the store, all succeed: no type waits on or blocks another. */
  lemma {:induction false} DistinctTypesAllSucceed(store: Store, calls: seq<Call>)
    requires forall k :: 0 <= k < |calls| ==> WellFormed(calls[k]) && !Blocked(store, calls[k])
    requires forall i, j :: 0 <= i < |calls| && 0 <= j < |calls| && i != j ==>
      calls[i].data.vehicleType != calls[j].data.vehicleType
    ensures var r := ReserveAll(store, calls);
      forall k :: 0 <= k < |calls| ==> r.outcomes[k] == Created(calls[k].newId)
    decreases |calls|
  {
    if |calls| > 0 {
      var c := calls[0];
      var t := Reserve(store, c.auth, c.data, c.newId, c.now);
      var rest := calls[1..];
      forall k | 0 <= k < |rest|
        ensures WellFormed(rest[k]) && !Blocked(t.store, rest[k])
      {
        assert rest[k] == calls[k + 1];
        ReserveIndependentAcrossTypes(store, c.auth, c.data, c.newId, c.now,
          rest[k].data.vehicleType.value, rest[k].data.pickupDate.value, rest[k].data.returnDate.value);
      }
      DistinctTypesAllSucceed(t.store, rest);
    }
  }

  /** The existing SUV booking of the examples below: 2024-01-01 to 2024-01-05. */
  function ExistingSuv(): Reservation {
    ConfirmedRecord("u1", CallData(Some("SUV"), Some("2024-01-01"), Some("2024-01-05"), None, None), "r1", 1)
  }

  /** Touching boundaries conflict: a pickup on the day the SUV is returned
      is rejected, whatever the other fields hold. */
  lemma TouchingBoundaryConflicts(auth: Option<string>, data: CallData, newId: string, now: int)
    requires auth.Some?
    requires data.vehicleType == Some("SUV")
    requires data.pickupDate == Some("2024-01-05") && data.returnDate == Some("2024-01-10")
    ensures Reserve([ExistingSuv()], auth, data, newId, now).outcome == AlreadyExists
  {
    SuvConflicts("2024-01-05", "2024-01-10");
  }

  /** Adjacent ranges that do not touch do not conflict. */
  lemma AdjacentRangeSucceeds(auth: Option<string>, data: CallData, newId: string, now: int)
    requires auth.Some?
    requires data.vehicleType == Some("SUV")
    requires data.pickupDate == Some("2024-01-06") && data.returnDate == Some("2024-01-10")
    ensures Reserve([ExistingSuv()], auth, data, newId, now).outcome == Created(newId)
  {
    SuvConflicts("2024-01-06", "2024-01-10");
  }

  /** The same dates for another vehicle type do not conflict. */
  lemma OtherTypeSameDatesSucceeds(auth: Option<string>, data: CallData, newId: string, now: int)
    requires auth.Some?
    requires data.vehicleType == Some("Sedan")
    requires data.pickupDate == Some("2024-01-01") && data.returnDate == Some("2024-01-05")
    ensures Reserve([ExistingSuv()], auth, data, newId, now).outcome == Created(newId)
  {
    assert !ConflictsWith([ExistingSuv()][0], "Sedan", "2024-01-01", "2024-01-05");
  }

  /** A request for an SUV conflicts with the stored SUV exactly when its
      dates, read as strings, reach into 2024-01-01 .. 2024-01-05. */
  lemma SuvConflicts(pickupDate: string, returnDate: string)
    ensures HasConflict([ExistingSuv()], "SUV", pickupDate, returnDate) <==>
      LexLe("2024-01-01", returnDate) && LexLe(pickupDate, "2024-01-05")
  {
    assert [ExistingSuv()][0] == ExistingSuv();
  }
}
