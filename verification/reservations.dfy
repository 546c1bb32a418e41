/** The reservation record, the store of records, the inclusive overlap
    rule shared by every booking path, and the no-double-booking invariant. */
module Reservations {
  import opened JsValues
  import opened Strings

  /** One reservation, as a Firestore document of the `reservations`
      collection or a row of the `reservations` table. Fields a writer did
      not set are `None`; `createdAt` is the server timestamp, an opaque
      increasing value. */
  datatype Reservation = Reservation(
    id: string,
    userId: Option<string>,
    vehicleType: Option<string>,
    pickupDate: Option<string>,
    returnDate: Option<string>,
    price: Option<int>,
    notes: Option<string>,
    status: Option<string>,
    createdAt: int)

  /** The whole collection, in storage order. */
  type Store = seq<Reservation>

  /** Both dates are truthy; records lacking one are skipped by every scan. */
  predicate HasDates(e: Reservation) {
    Present(e.pickupDate) && Present(e.returnDate)
  }

  /** `e.pickup_date <= returnDate && e.return_date >= pickupDate` for a record
      with both dates: the inclusive interval test, so a pickup on the day an
      existing booking is returned overlaps it. */
  predicate OverlapsRange(e: Reservation, pickupDate: string, returnDate: string) {
    && HasDates(e)
    && LexLe(e.pickupDate.value, returnDate)
    && LexLe(pickupDate, e.returnDate.value)
  }

  /** An existing record blocks a request for `vehicleType` over the given dates. */
  predicate ConflictsWith(e: Reservation, vehicleType: string, pickupDate: string, returnDate: string) {
    e.vehicleType == Some(vehicleType) && OverlapsRange(e, pickupDate, returnDate)
  }

  /** Some record of the store blocks the request. */
  predicate HasConflict(store: Store, vehicleType: string, pickupDate: string, returnDate: string) {
    exists i :: 0 <= i < |store| && ConflictsWith(store[i], vehicleType, pickupDate, returnDate)
  }

  /** The query `where('vehicleType', '==', vehicleType)`: the records of
      that type, in storage order. */
  function OfType(store: Store, vehicleType: string): (docs: Store)
    ensures forall e :: e in docs <==> e in store && e.vehicleType == Some(vehicleType)
    decreases |store|
  {
    if |store| == 0 then []
    else if store[0].vehicleType == Some(vehicleType) then [store[0]] + OfType(store[1..], vehicleType)
    else OfType(store[1..], vehicleType)
  }

  /** The transaction's loop over the query result: skip documents missing
      a date, stop at the first whose dates overlap the request. */
  function ScanForConflict(docs: Store, pickupDate: string, returnDate: string): (found: bool)
    ensures found <==> exists i :: 0 <= i < |docs| && OverlapsRange(docs[i], pickupDate, returnDate)
    decreases |docs|
  {
    if |docs| == 0 then false
    else if !HasDates(docs[0]) then ScanForConflict(docs[1..], pickupDate, returnDate)
    else if LexLe(docs[0].pickupDate.value, returnDate) && LexLe(pickupDate, docs[0].returnDate.value) then true
    else
      var rest := ScanForConflict(docs[1..], pickupDate, returnDate);
      assert forall i :: 1 <= i < |docs| ==> docs[i] == docs[1..][i - 1];
      rest
  }

  /** Querying by type and scanning the result finds a conflict exactly
      when some record of the store blocks the request. */
  lemma QueryThenScan(store: Store, vehicleType: string, pickupDate: string, returnDate: string)
    ensures ScanForConflict(OfType(store, vehicleType), pickupDate, returnDate) <==>
      HasConflict(store, vehicleType, pickupDate, returnDate)
  {
    var docs := OfType(store, vehicleType);
    if HasConflict(store, vehicleType, pickupDate, returnDate) {
      var i :| 0 <= i < |store| && ConflictsWith(store[i], vehicleType, pickupDate, returnDate);
      assert store[i] in docs;
      var j :| 0 <= j < |docs| && docs[j] == store[i];
      assert OverlapsRange(docs[j], pickupDate, returnDate);
    }
    if ScanForConflict(docs, pickupDate, returnDate) {
      var j :| 0 <= j < |docs| && OverlapsRange(docs[j], pickupDate, returnDate);
      assert docs[j] in store;
      var i :| 0 <= i < |store| && store[i] == docs[j];
      assert ConflictsWith(store[i], vehicleType, pickupDate, returnDate);
    }
  }

  /** Two records of one vehicle type, both with dates, whose inclusive
      date ranges share a day. */
  predicate Clash(a: Reservation, b: Reservation) {
    && a.vehicleType.Some?
    && a.vehicleType == b.vehicleType
    && HasDates(b)
    && OverlapsRange(a, b.pickupDate.value, b.returnDate.value)
  }

  /** The booking invariant: no two records of the store clash. */
  predicate NoDoubleBooking(store: Store) {
    forall i, j :: 0 <= i < |store| && 0 <= j < |store| && i != j ==> !Clash(store[i], store[j])
  }

  /** The weaker invariant the booking flow is meant to keep: no two
      `confirmed` records clash. Records of any other status may overlap. */
  predicate NoConfirmedDoubleBooking(store: Store) {
    forall i, j ::
      (0 <= i < |store| && 0 <= j < |store| && i != j
       && store[i].status == Some("confirmed") && store[j].status == Some("confirmed")) ==>
      !Clash(store[i], store[j])
  }

  /** The all-status invariant is the stronger of the two. */
  lemma NoDoubleBookingKeepsConfirmedApart(store: Store)
    requires NoDoubleBooking(store)
    ensures NoConfirmedDoubleBooking(store)
  {
  }

  /** Overlap is symmetric: the order of the two bookings does not matter. */
  lemma ClashSymmetric(a: Reservation, b: Reservation)
    ensures Clash(a, b) <==> Clash(b, a)
  {
  }

  /** A record clashes with an existing one exactly when the existing one
      would block a request carrying the record's own type and dates. */
  lemma ClashIsConflict(existing: Reservation, e: Reservation)
    requires e.vehicleType.Some? && HasDates(e)
    ensures Clash(existing, e) <==>
      ConflictsWith(existing, e.vehicleType.value, e.pickupDate.value, e.returnDate.value)
  {
  }

  /** Appending a record keeps the invariant exactly when no existing record
      blocks the record's own type and dates (or the record has no type or
      no dates, so nothing can clash with it). */
  lemma {:induction false} AppendKeepsNoDoubleBooking(store: Store, e: Reservation)
    requires NoDoubleBooking(store)
    requires e.vehicleType.Some? && HasDates(e) ==>
      !HasConflict(store, e.vehicleType.value, e.pickupDate.value, e.returnDate.value)
    ensures NoDoubleBooking(store + [e])
  {
    var s := store + [e];
    forall i, j | 0 <= i < |s| && 0 <= j < |s| && i != j
      ensures !Clash(s[i], s[j])
    {
      if i == |store| {
        ClashSymmetric(s[i], s[j]);
        if e.vehicleType.Some? && HasDates(e) {
          assert !ConflictsWith(store[j], e.vehicleType.value, e.pickupDate.value, e.returnDate.value);
        }
      } else if j == |store| {
        if e.vehicleType.Some? && HasDates(e) {
          assert !ConflictsWith(store[i], e.vehicleType.value, e.pickupDate.value, e.returnDate.value);
        }
      } else {
        assert s[i] == store[i] && s[j] == store[j];
      }
    }
  }

  /** Appending keeps confirmed records apart when the new record is not
      `confirmed`, or when no existing record of any status blocks it. */
  lemma {:induction false} AppendKeepsNoConfirmedDoubleBooking(store: Store, e: Reservation)
    requires NoConfirmedDoubleBooking(store)
    requires e.status == Some("confirmed") && e.vehicleType.Some? && HasDates(e) ==>
      !HasConflict(store, e.vehicleType.value, e.pickupDate.value, e.returnDate.value)
    ensures NoConfirmedDoubleBooking(store + [e])
  {
    var s := store + [e];
    forall i, j | 0 <= i < |s| && 0 <= j < |s| && i != j
      && s[i].status == Some("confirmed") && s[j].status == Some("confirmed")
      ensures !Clash(s[i], s[j])
    {
      if i == |store| {
        ClashSymmetric(s[i], s[j]);
        if e.vehicleType.Some? && HasDates(e) {
          assert !ConflictsWith(store[j], e.vehicleType.value, e.pickupDate.value, e.returnDate.value);
        }
      } else if j == |store| {
        if e.vehicleType.Some? && HasDates(e) {
          assert !ConflictsWith(store[i], e.vehicleType.value, e.pickupDate.value, e.returnDate.value);
        }
      } else {
        assert s[i] == store[i] && s[j] == store[j];
      }
    }
  }

  /** Appending a record that some existing record blocks breaks the
      invariant. */
  lemma AppendBlockedBreaksNoDoubleBooking(store: Store, e: Reservation)
    requires e.vehicleType.Some? && HasDates(e)
    requires HasConflict(store, e.vehicleType.value, e.pickupDate.value, e.returnDate.value)
    ensures !NoDoubleBooking(store + [e])
  {
    var i :| 0 <= i < |store| && ConflictsWith(store[i], e.vehicleType.value, e.pickupDate.value, e.returnDate.value);
    var s := store + [e];
    assert s[i] == store[i] && s[|store|] == e;
    assert Clash(s[i], s[|store|]);
  }

  /** The records that have both dates. */
  function WithDates(store: Store): (r: Store)
    ensures forall e :: e in r <==> e in store && HasDates(e)
    decreases |store|
  {
    if |store| == 0 then []
    else if HasDates(store[0]) then [store[0]] + WithDates(store[1..])
    else WithDates(store[1..])
  }

  /** Records with a missing date never block anything: dropping them from
      the store changes no scan result. */
  lemma UndatedRecordsNeverConflict(store: Store, vehicleType: string, pickupDate: string, returnDate: string)
    ensures HasConflict(store, vehicleType, pickupDate, returnDate) <==>
      HasConflict(WithDates(store), vehicleType, pickupDate, returnDate)
  {
    var r := WithDates(store);
    if HasConflict(store, vehicleType, pickupDate, returnDate) {
      var i :| 0 <= i < |store| && ConflictsWith(store[i], vehicleType, pickupDate, returnDate);
      assert store[i] in r;
      var j :| 0 <= j < |r| && r[j] == store[i];
    }
    if HasConflict(r, vehicleType, pickupDate, returnDate) {
      var j :| 0 <= j < |r| && ConflictsWith(r[j], vehicleType, pickupDate, returnDate);
      assert r[j] in store;
      var i :| 0 <= i < |store| && store[i] == r[j];
    }
  }

  /** Records of other vehicle types never block a request. */
  lemma OtherTypesNeverConflict(store: Store, vehicleType: string, pickupDate: string, returnDate: string)
    ensures (forall i :: 0 <= i < |store| ==> store[i].vehicleType != Some(vehicleType)) ==>
      !HasConflict(store, vehicleType, pickupDate, returnDate)
  {
  }

  /** A store in which no record has both dates blocks nothing. */
  lemma UndatedNeverConflict(store: Store, vehicleType: string, pickupDate: string, returnDate: string)
    ensures (forall i :: 0 <= i < |store| ==> !HasDates(store[i])) ==>
      !HasConflict(store, vehicleType, pickupDate, returnDate)
  {
  }
}
