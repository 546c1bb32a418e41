/** The browser-side Firestore helpers: the non-atomic availability check
    `isAvailable`, the unchecked `createReservation`, and
    `listReservationsByUser`. */
module FirebaseClient {
  import opened JsValues
  import opened Strings
  import opened Reservations
  import CloudFunction
  import Listing

  /** `isAvailable(vehicleType, pickupDate, returnDate)`: query the records
      of the type, then walk them, skipping those missing a date and
      answering false at the first whose dates overlap the request. */
  method IsAvailable(store: Store, vehicleType: string, pickupDate: string, returnDate: string)
    returns (available: bool)
    ensures available <==> !HasConflict(store, vehicleType, pickupDate, returnDate)
    // no record of the type: available
    ensures (forall i :: 0 <= i < |store| ==> store[i].vehicleType != Some(vehicleType)) ==> available
    // records missing a date never make the answer false
    ensures (forall i :: 0 <= i < |store| ==> !HasDates(store[i])) ==> available
    // the same answer the Cloud Function's conflict check gives
    ensures vehicleType != "" && pickupDate != "" && returnDate != "" ==>
      forall uid, price, notes, newId, now ::
        (CloudFunction.Reserve(store, Some(uid),
          CloudFunction.CallData(Some(vehicleType), Some(pickupDate), Some(returnDate), price, notes),
          newId, now).outcome == CloudFunction.AlreadyExists) == !available
  {
    var docs := OfType(store, vehicleType);
    var i := 0;
    while i < |docs|
      invariant 0 <= i <= |docs|
      invariant forall k :: 0 <= k < i ==> !OverlapsRange(docs[k], pickupDate, returnDate)
    {
      var d := docs[i];
      if Present(d.pickupDate) && Present(d.returnDate) {
        if LexLe(d.pickupDate.value, returnDate) && LexLe(pickupDate, d.returnDate.value) {
          assert OverlapsRange(docs[i], pickupDate, returnDate);
          AnswerFacts(store, vehicleType, pickupDate, returnDate);
          return false;
        }
      }
      i := i + 1;
    }
    AnswerFacts(store, vehicleType, pickupDate, returnDate);
    return true;
  }

  /** What the scan's answer means, gathered for `IsAvailable`. */
  lemma AnswerFacts(store: Store, vehicleType: string, pickupDate: string, returnDate: string)
    ensures var found := ScanForConflict(OfType(store, vehicleType), pickupDate, returnDate);
      && (found <==> HasConflict(store, vehicleType, pickupDate, returnDate))
      && ((forall i :: 0 <= i < |store| ==> store[i].vehicleType != Some(vehicleType)) ==> !found)
      && ((forall i :: 0 <= i < |store| ==> !HasDates(store[i])) ==> !found)
      && (vehicleType != "" && pickupDate != "" && returnDate != "" ==>
          forall uid, price, notes, newId, now ::
            (CloudFunction.Reserve(store, Some(uid),
              CloudFunction.CallData(Some(vehicleType), Some(pickupDate), Some(returnDate), price, notes),
              newId, now).outcome == CloudFunction.AlreadyExists) == found)
  {
    QueryThenScan(store, vehicleType, pickupDate, returnDate);
    CloudFunctionUsesSamePredicate(store, vehicleType, pickupDate, returnDate);
    OtherTypesNeverConflict(store, vehicleType, pickupDate, returnDate);
    UndatedNeverConflict(store, vehicleType, pickupDate, returnDate);
  }

  /** For a complete request, the Cloud Function rejects as a conflict
      exactly when a stored record blocks the request. */
  lemma CloudFunctionUsesSamePredicate(store: Store, vehicleType: string, pickupDate: string, returnDate: string)
    ensures vehicleType != "" && pickupDate != "" && returnDate != "" ==>
      forall uid, price, notes, newId, now ::
        (CloudFunction.Reserve(store, Some(uid),
          CloudFunction.CallData(Some(vehicleType), Some(pickupDate), Some(returnDate), price, notes),
          newId, now).outcome == CloudFunction.AlreadyExists) == HasConflict(store, vehicleType, pickupDate, returnDate)
  {
  }

  /** `createReservation(reservation)`: add the caller's fields plus a
      server `createdAt` as a new document, with no availability check. */
  function CreateReservation(store: Store, fields: Reservation, newId: string, now: int): (r: (string, Store))
    ensures r.0 == newId
    ensures |r.1| == |store| + 1 && r.1[..|store|] == store
    ensures r.1[|store|] == fields.(id := newId, createdAt := now)
  {
    var s := store + [fields.(id := newId, createdAt := now)];
    assert s[..|store|] == store;
    (newId, s)
  }

  /** Because it never checks, `createReservation` double-books whenever the
      new record's type and dates overlap a stored record, which the Cloud
      Function would have refused with `already-exists`. */
  lemma CreateReservationCanDoubleBook(store: Store, fields: Reservation, newId: string, now: int)
    requires fields.vehicleType.Some? && HasDates(fields)
    requires HasConflict(store, fields.vehicleType.value, fields.pickupDate.value, fields.returnDate.value)
    ensures !NoDoubleBooking(CreateReservation(store, fields, newId, now).1)
    ensures CloudFunction.Reserve(store, fields.userId,
      CloudFunction.CallData(fields.vehicleType, fields.pickupDate, fields.returnDate, fields.price, fields.notes),
      newId, now).store == store
  {
    UncheckedWriteBreaks(store, fields, newId, now);
  }

  /** The booking form's record: a pending SUV reservation from 2024-06-04
      to 2024-06-10, written while a confirmed SUV booking holds 2024-06-01
      to 2024-06-05, is accepted all the same and double-books. */
  lemma PendingFormRecordDoubleBooks(existing: Reservation, form: Reservation, newId: string, now: int)
    requires existing.vehicleType == Some("SUV") && existing.status == Some("confirmed")
    requires existing.pickupDate == Some("2024-06-01") && existing.returnDate == Some("2024-06-05")
    requires form.vehicleType == Some("SUV") && form.status == Some("pending")
    requires form.pickupDate == Some("2024-06-04") && form.returnDate == Some("2024-06-10")
    ensures NoDoubleBooking([existing])
    ensures !NoDoubleBooking(CreateReservation([existing], form, newId, now).1)
    // the confirmed booking is still the only confirmed one on those dates
    ensures NoConfirmedDoubleBooking(CreateReservation([existing], form, newId, now).1)
  {
    SingleRecordNoDoubleBooking(existing);
    OverlappingSuvDates(existing);
    UncheckedWriteBreaks([existing], form, newId, now);
    UnconfirmedWriteKeepsConfirmedApart([existing], form, newId, now);
  }

  /** A write whose record is not `confirmed`, like the booking form's
      `pending` one, never makes two confirmed bookings overlap. */
  lemma UnconfirmedWriteKeepsConfirmedApart(store: Store, fields: Reservation, newId: string, now: int)
    requires NoConfirmedDoubleBooking(store)
    requires fields.status != Some("confirmed")
    ensures NoConfirmedDoubleBooking(CreateReservation(store, fields, newId, now).1)
  {
    var e := fields.(id := newId, createdAt := now);
    assert CreateReservation(store, fields, newId, now).1 == store + [e];
    AppendKeepsNoConfirmedDoubleBooking(store, e);
  }

  /** The unchecked write of a record that a stored record blocks breaks
      the invariant. */
  lemma UncheckedWriteBreaks(store: Store, fields: Reservation, newId: string, now: int)
    requires fields.vehicleType.Some? && HasDates(fields)
    requires HasConflict(store, fields.vehicleType.value, fields.pickupDate.value, fields.returnDate.value)
    ensures !NoDoubleBooking(CreateReservation(store, fields, newId, now).1)
  {
    var e := fields.(id := newId, createdAt := now);
    assert CreateReservation(store, fields, newId, now).1 == store + [e];
    AppendBlockedBreaksNoDoubleBooking(store, e);
  }

  /** A single record is never double-booked. */
  lemma SingleRecordNoDoubleBooking(e: Reservation)
    ensures NoDoubleBooking([e])
  {
  }

  /** An SUV booked from 2024-06-01 to 2024-06-05 blocks an SUV request
      from 2024-06-04 to 2024-06-10. */
  lemma OverlappingSuvDates(existing: Reservation)
    requires existing.vehicleType == Some("SUV")
    requires existing.pickupDate == Some("2024-06-01") && existing.returnDate == Some("2024-06-05")
    ensures HasConflict([existing], "SUV", "2024-06-04", "2024-06-10")
  {
    assert LexLe("2024-06-01", "2024-06-10");
    assert LexLe("2024-06-04", "2024-06-05");
    assert ConflictsWith([existing][0], "SUV", "2024-06-04", "2024-06-10");
  }

  /** `listReservationsByUser(userId)`. */
  function ListReservationsByUser(store: Store, userId: string): (r: Store)
    ensures Listing.NewestFirst(r)
    ensures forall e :: multiset(r)[e] == if e.userId == Some(userId) then multiset(store)[e] else 0
  {
    Listing.ByUser(store, userId)
  }
}
