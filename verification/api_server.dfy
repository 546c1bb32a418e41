/** The Express API over Postgres: registration field rules, the shape
    check of the `Authorization: Bearer` header, the reservation route that
    runs an overlap query and then, as a separate statement, an insert, and
    the per-user reservation listing. */
module ApiServer {
  import opened JsValues
  import opened Strings
  import opened Reservations
  import Listing
  import Dates

  // ---------------------------------------------------------------------
  // POST /api/usuarios

  /** The JSON body of a registration. */
  datatype RegistrationBody = RegistrationBody(
    nombre: Option<string>, email: Option<string>, password: Option<string>, rol: Option<string>)

  /** The user row about to be inserted (the password is hashed on the way,
      which is not modelled). */
  datatype NewUser = NewUser(nombre: string, email: string, password: string, rol: string)

  /** 400 for a missing field, or the row to insert. */
  datatype Registration = MissingUserFields | InsertUser(user: NewUser)

  function Register(body: RegistrationBody): (r: Registration)
    ensures r.MissingUserFields? <==> !Present(body.nombre) || !Present(body.email) || !Present(body.password)
    ensures r.InsertUser? ==>
      && Some(r.user.nombre) == body.nombre
      && Some(r.user.email) == body.email
      && Some(r.user.password) == body.password
      // the role is the given one when truthy, otherwise 'cliente'
      && (Present(body.rol) ==> Some(r.user.rol) == body.rol)
      && (!Present(body.rol) ==> r.user.rol == "cliente")
    // every inserted user has non-empty name, email, password and role
    ensures r.InsertUser? ==>
      r.user.nombre != "" && r.user.email != "" && r.user.password != "" && r.user.rol != ""
  {
    if !Present(body.nombre) || !Present(body.email) || !Present(body.password) then MissingUserFields
    else InsertUser(NewUser(body.nombre.value, body.email.value, body.password.value,
                            if Present(body.rol) then body.rol.value else "cliente"))
  }

  // ---------------------------------------------------------------------
  // GET /api/me

  /** The token of an `Authorization` header: the header (or `''`) split on
      single spaces must give exactly two parts, the first `Bearer`. */
  function BearerToken(header: Option<string>): (token: Option<string>)
    ensures token.Some? ==> header == Some("Bearer " + token.value) && ' ' !in token.value
  {
    var parts := Split(OrEmpty(header), ' ');
    if |parts| != 2 || parts[0] != "Bearer" then None
    else
      BearerParts(OrEmpty(header));
      Some(parts[1])
  }

  /** A string that splits on spaces into `Bearer` and one more part is
      `Bearer ` followed by that part. */
  lemma BearerParts(h: string)
    requires |Split(h, ' ')| == 2 && Split(h, ' ')[0] == "Bearer"
    ensures h == "Bearer " + Split(h, ' ')[1]
  {
    var parts := Split(h, ' ');
    JoinSplit(h, ' ');
    assert Join(parts, ' ') == parts[0] + [' '] + parts[1];
    assert "Bearer" + [' '] + parts[1] == "Bearer " + parts[1];
  }

  /** Conversely, every header `Bearer <t>` with a space-free `t` passes the
      shape check with token `t`, even an empty one. */
  lemma BearerTokenAccepts(t: string)
    requires ' ' !in t
    ensures BearerToken(Some("Bearer " + t)) == Some(t)
  {
    assert "Bearer " + t == "Bearer" + [' '] + t;
    SplitCons("Bearer", ' ', t);
    SplitNoSeparator(t, ' ');
  }

  /** The status of `/api/me`: 401 unless the header has the Bearer shape and
      the token verifies; `verifies` stands for the JWT signature check. */
  function MeStatus(header: Option<string>, verifies: string -> bool): (status: nat)
    ensures status == 200 || status == 401
    ensures status == 200 ==> header.Some? && StartsWith(header.value, "Bearer ")
  {
    var token := BearerToken(header);
    if token.Some? && verifies(token.value) then
      assert header.value[..7] == "Bearer ";
      200
    else 401
  }

  /** `/api/me` answers 200 exactly for a header `Bearer <t>` with a
      space-free `t` that verifies. */
  lemma MeStatusOfHeader(header: Option<string>, verifies: string -> bool)
    ensures MeStatus(header, verifies) == 200 <==>
      exists t :: ' ' !in t && header == Some("Bearer " + t) && verifies(t)
  {
    if exists t :: ' ' !in t && header == Some("Bearer " + t) && verifies(t) {
      var t :| ' ' !in t && header == Some("Bearer " + t) && verifies(t);
      BearerTokenAccepts(t);
    }
  }

  // ---------------------------------------------------------------------
  // POST /api/reservations

  /** The JSON body of a reservation request. */
  datatype ReservationBody = ReservationBody(
    userId: Option<string>, vehicleType: Option<string>,
    pickupDate: Option<string>, returnDate: Option<string>, price: Option<int>)

  predicate HasRequiredFields(b: ReservationBody) {
    Present(b.userId) && Present(b.vehicleType) && Present(b.pickupDate) && Present(b.returnDate)
  }

  /** One row of the overlap query with `$1`, `$2`, `$3` bound:
      `vehicle_type = $1 AND pickup_date <= $2 AND return_date >= $3`.
      A NULL date makes the comparison unknown, so the row is not selected. */
  predicate OverlapRow(row: Reservation, p1: string, p2: string, p3: string) {
    && row.vehicleType == Some(p1)
    && row.pickupDate.Some? && LexLe(row.pickupDate.value, p2)
    && row.returnDate.Some? && LexLe(p3, row.returnDate.value)
  }

  /** The query returns a row. */
  predicate OverlapQueryFinds(rows: Store, p1: string, p2: string, p3: string) {
    exists i :: 0 <= i < |rows| && OverlapRow(rows[i], p1, p2, p3)
  }

  /** The first half of the route: validation, then the overlap query. */
  datatype CheckResult = BadRequest | Conflict | Clear

  function Check(rows: Store, body: ReservationBody): (c: CheckResult)
    ensures c == BadRequest <==> !HasRequiredFields(body)
    // with the parameters bound as [vehicle_type, return_date, pickup_date],
    // a stored row conflicts iff it starts no later than the new return and
    // ends no earlier than the new pickup
    ensures HasRequiredFields(body) ==>
      (c == Conflict <==>
        exists i :: 0 <= i < |rows| && rows[i].vehicleType == body.vehicleType
          && rows[i].pickupDate.Some? && rows[i].returnDate.Some?
          && LexLe(rows[i].pickupDate.value, body.returnDate.value)
          && LexLe(body.pickupDate.value, rows[i].returnDate.value))
  {
    if !HasRequiredFields(body) then BadRequest
    else if OverlapQueryFinds(rows, body.vehicleType.value, body.returnDate.value, body.pickupDate.value) then Conflict
    else Clear
  }

  /** The row the insert statement writes. */
  function InsertedRow(body: ReservationBody, id: string, now: int): Reservation {
    Reservation(id, body.userId, body.vehicleType, body.pickupDate, body.returnDate,
                PriceOrNull(body.price), None, Some("confirmed"), now)
  }

  /** The second half of the route: the insert, which does not look at the
      table again. */
  function Insert(rows: Store, body: ReservationBody, id: string, now: int): (r: Store)
    ensures |r| == |rows| + 1 && r[..|rows|] == rows
    ensures r[|rows|].status == Some("confirmed") && r[|rows|].id == id && r[|rows|].createdAt == now
    ensures r[|rows|].userId == body.userId && r[|rows|].vehicleType == body.vehicleType
    ensures r[|rows|].pickupDate == body.pickupDate && r[|rows|].returnDate == body.returnDate
    ensures r[|rows|].price.None? <==> !NumberPresent(body.price)
    ensures r[|rows|].price.Some? ==> r[|rows|].price == body.price
  {
    var r := rows + [InsertedRow(body, id, now)];
    assert r[..|rows|] == rows;
    r
  }

  /** The status code and created id the route answers with. */
  datatype Response = Response(status: nat, id: Option<string>)

  /** The route run alone: check, then insert if clear. */
  function PostReservation(rows: Store, body: ReservationBody, id: string, now: int): (r: (Response, Store))
    ensures r.0.status == 400 <==> !HasRequiredFields(body)
    ensures r.0.status == 409 <==> Check(rows, body) == Conflict
    ensures r.0.status != 201 ==> r.1 == rows && r.0.id.None?
    ensures r.0.status == 201 ==> r.0.id == Some(id) && r.1 == Insert(rows, body, id, now)
    ensures r.0.status in {400, 409, 201}
  {
    match Check(rows, body)
    case BadRequest => (Response(400, None), rows)
    case Conflict => (Response(409, None), rows)
    case Clear => (Response(201, Some(id)), Insert(rows, body, id, now))
  }

  /** The request's own dates are blocked by a stored row, in the sense the
      Firestore paths use. */
  predicate BodyBlocked(rows: Store, body: ReservationBody)
    requires HasRequiredFields(body)
  {
    HasConflict(rows, body.vehicleType.value, body.pickupDate.value, body.returnDate.value)
  }

  /** Every record the Firestore scan counts is also selected by the SQL
      query, so a clear check means the request is not blocked. */
  lemma ClearMeansUnblocked(rows: Store, body: ReservationBody)
    requires HasRequiredFields(body)
    ensures BodyBlocked(rows, body) ==>
      OverlapQueryFinds(rows, body.vehicleType.value, body.returnDate.value, body.pickupDate.value)
    ensures Check(rows, body) == Clear ==> !BodyBlocked(rows, body)
  {
    var vt, p, r := body.vehicleType.value, body.pickupDate.value, body.returnDate.value;
    if BodyBlocked(rows, body) {
      var i :| 0 <= i < |rows| && ConflictsWith(rows[i], vt, p, r);
      assert OverlapRow(rows[i], vt, r, p);
    }
  }

  /** The SQL query and the Firestore scan agree on a table whose dates are
      never the empty string. Dates are read as their `YYYY-MM-DD` text,
      compared as strings; `CheckIsDateOrder` ties that to (year, month,
      day) order on strings of the date shape. */
  lemma SqlQueryAgreesWithScan(rows: Store, vehicleType: string, pickupDate: string, returnDate: string)
    requires forall i :: 0 <= i < |rows| ==> rows[i].pickupDate != Some("") && rows[i].returnDate != Some("")
    ensures OverlapQueryFinds(rows, vehicleType, returnDate, pickupDate) <==>
      HasConflict(rows, vehicleType, pickupDate, returnDate)
  {
    if OverlapQueryFinds(rows, vehicleType, returnDate, pickupDate) {
      var i :| 0 <= i < |rows| && OverlapRow(rows[i], vehicleType, returnDate, pickupDate);
      assert ConflictsWith(rows[i], vehicleType, pickupDate, returnDate);
    }
    if HasConflict(rows, vehicleType, pickupDate, returnDate) {
      var i :| 0 <= i < |rows| && ConflictsWith(rows[i], vehicleType, pickupDate, returnDate);
      assert OverlapRow(rows[i], vehicleType, returnDate, pickupDate);
    }
  }

  /** Every stored date has the digit-and-dash shape `DDDD-DD-DD`. */
  predicate IsoDated(rows: Store) {
    forall i :: 0 <= i < |rows| ==>
      (rows[i].pickupDate.Some? ==> Dates.IsIsoDate(rows[i].pickupDate.value))
      && (rows[i].returnDate.Some? ==> Dates.IsIsoDate(rows[i].returnDate.value))
  }

  /** A stored row overlapping the new dates in (year, month, day) order. */
  predicate DateOverlap(row: Reservation, vehicleType: Option<string>, pickupDate: string, returnDate: string)
    requires Dates.IsIsoDate(pickupDate) && Dates.IsIsoDate(returnDate)
    requires row.pickupDate.Some? ==> Dates.IsIsoDate(row.pickupDate.value)
    requires row.returnDate.Some? ==> Dates.IsIsoDate(row.returnDate.value)
  {
    && row.vehicleType == vehicleType
    && row.pickupDate.Some? && row.returnDate.Some?
    && Dates.ChronoLe(row.pickupDate.value, returnDate)
    && Dates.ChronoLe(pickupDate, row.returnDate.value)
  }

  /** On dates of the digit-and-dash shape, the overlap query's string
      comparisons are (year, month, day) comparisons, as on a DATE column
      holding those dates: the route answers 409 exactly
      when a same-type row starts no later than the new return day and ends
      no earlier than the new pickup day. */
  lemma CheckIsDateOrder(rows: Store, body: ReservationBody)
    requires HasRequiredFields(body)
    requires Dates.IsIsoDate(body.pickupDate.value) && Dates.IsIsoDate(body.returnDate.value)
    requires IsoDated(rows)
    ensures Check(rows, body) == Conflict <==>
      exists i :: 0 <= i < |rows| &&
        DateOverlap(rows[i], body.vehicleType, body.pickupDate.value, body.returnDate.value)
  {
    var p, r := body.pickupDate.value, body.returnDate.value;
    forall i | 0 <= i < |rows| && rows[i].pickupDate.Some? && rows[i].returnDate.Some?
      ensures LexLe(rows[i].pickupDate.value, r) <==> Dates.ChronoLe(rows[i].pickupDate.value, r)
      ensures LexLe(p, rows[i].returnDate.value) <==> Dates.ChronoLe(p, rows[i].returnDate.value)
    {
      Dates.IsoDateOrder(rows[i].pickupDate.value, r);
      Dates.IsoDateOrder(p, rows[i].returnDate.value);
    }
  }

  /** Requests handled one at a time keep the table free of double bookings. */
  lemma PostReservationPreservesNoDoubleBooking(rows: Store, body: ReservationBody, id: string, now: int)
    requires NoDoubleBooking(rows)
    ensures NoDoubleBooking(PostReservation(rows, body, id, now).1)
  {
    if Check(rows, body) == Clear {
      ClearMeansUnblocked(rows, body);
      assert !BodyBlocked(rows, body);
      AppendKeepsNoDoubleBooking(rows, InsertedRow(body, id, now));
    }
  }

  // ---------------------------------------------------------------------
  // Concurrent requests: check and insert are separate atomic steps, and
  // the requests' steps may interleave.

  /** Where one request is: not started, past a clear overlap query but not
      yet inserted, or answered with a status. */
  datatype Phase = Waiting | Checked | Answered(status: nat)

  /** One request with the id and timestamp its insert would get. */
  datatype Request = Request(body: ReservationBody, id: string, now: int)

  /** The table and the phase of every request. */
  datatype Server = Server(rows: Store, phases: seq<Phase>)

  /** Let request `k` take its next atomic step. */
  function Step(s: Server, reqs: seq<Request>, k: nat): (s': Server)
    requires |s.phases| == |reqs|
    ensures |s'.phases| == |reqs|
  {
    if k >= |reqs| then s
    else match s.phases[k]
      case Waiting =>
        (match Check(s.rows, reqs[k].body)
         case BadRequest => s.(phases := s.phases[k := Answered(400)])
         case Conflict => s.(phases := s.phases[k := Answered(409)])
         case Clear => s.(phases := s.phases[k := Checked]))
      case Checked =>
        Server(Insert(s.rows, reqs[k].body, reqs[k].id, reqs[k].now), s.phases[k := Answered(201)])
      case Answered(_) => s
  }

  /** Run the steps in the order the schedule names the requests. */
  function Run(s: Server, reqs: seq<Request>, schedule: seq<nat>): (s': Server)
    requires |s.phases| == |reqs|
    ensures |s'.phases| == |reqs|
    decreases |schedule|
  {
    if |schedule| == 0 then s else Run(Step(s, reqs, schedule[0]), reqs, schedule[1..])
  }

  /** A request may start its check only while no other request, of any
      vehicle type, sits between its check and its insert: what one global
      lock or a transaction around both statements would enforce. */
  predicate Exclusive(s: Server, reqs: seq<Request>, k: nat)
    requires |s.phases| == |reqs|
  {
    k < |reqs| && s.phases[k] == Waiting ==>
      forall j :: 0 <= j < |reqs| && j != k ==> s.phases[j] != Checked
  }

  /** Every step of the schedule is exclusive in the state it runs in. */
  predicate LockedRun(s: Server, reqs: seq<Request>, schedule: seq<nat>)
    requires |s.phases| == |reqs|
    decreases |schedule|
  {
    |schedule| == 0 ||
    (Exclusive(s, reqs, schedule[0]) && LockedRun(Step(s, reqs, schedule[0]), reqs, schedule[1..]))
  }

  /** The invariant of a locked run: no double booking, at most one request
      between check and insert, and that one still unblocked. */
  predicate Safe(s: Server, reqs: seq<Request>)
    requires |s.phases| == |reqs|
  {
    && NoDoubleBooking(s.rows)
    && (forall j, k :: 0 <= j < |reqs| && 0 <= k < |reqs| && s.phases[j] == Checked && s.phases[k] == Checked ==> j == k)
    && (forall k :: 0 <= k < |reqs| && s.phases[k] == Checked ==>
          HasRequiredFields(reqs[k].body) && !BodyBlocked(s.rows, reqs[k].body))
  }

  lemma ExclusiveStepKeepsSafe(s: Server, reqs: seq<Request>, k: nat)
    requires |s.phases| == |reqs|
    requires Safe(s, reqs) && Exclusive(s, reqs, k)
    ensures Safe(Step(s, reqs, k), reqs)
  {
    if k < |reqs| {
      var s' := Step(s, reqs, k);
      match s.phases[k]
      case Waiting =>
        if Check(s.rows, reqs[k].body) == Clear {
          ClearMeansUnblocked(s.rows, reqs[k].body);
        }
      case Checked =>
        AppendKeepsNoDoubleBooking(s.rows, InsertedRow(reqs[k].body, reqs[k].id, reqs[k].now));
        assert forall j :: 0 <= j < |reqs| ==> s'.phases[j] != Checked;
      case Answered(_) =>
    }
  }

  /** With the check and the insert held together, any interleaving of the
      requests keeps the table free of double bookings. */
  lemma {:induction false} LockedRunPreservesNoDoubleBooking(s: Server, reqs: seq<Request>, schedule: seq<nat>)
    requires |s.phases| == |reqs|
    requires Safe(s, reqs) && LockedRun(s, reqs, schedule)
    ensures NoDoubleBooking(Run(s, reqs, schedule).rows)
    decreases |schedule|
  {
    if |schedule| > 0 {
      ExclusiveStepKeepsSafe(s, reqs, schedule[0]);
      LockedRunPreservesNoDoubleBooking(Step(s, reqs, schedule[0]), reqs, schedule[1..]);
    }
  }

  /** Two requests of one vehicle type over overlapping dates, neither
      blocked by the table. */
  predicate RacingPair(rows: Store, a: ReservationBody, b: ReservationBody) {
    && Check(rows, a) == Clear && Check(rows, b) == Clear
    && a.vehicleType == b.vehicleType
    && HasRequiredFields(a) && HasRequiredFields(b)
    && LexLe(a.pickupDate.value, b.returnDate.value)
    && LexLe(b.pickupDate.value, a.returnDate.value)
  }

  /** The double-booking race: when both overlap queries run before either
      insert, both requests get 201 and the table holds two overlapping
      bookings of one type. */
  lemma InterleavedChecksDoubleBook(rows: Store, a: Request, b: Request)
    requires NoDoubleBooking(rows)
    requires RacingPair(rows, a.body, b.body)
    ensures var s := Run(Server(rows, [Waiting, Waiting]), [a, b], [0, 1, 0, 1]);
      && s.phases == [Answered(201), Answered(201)]
      && !NoDoubleBooking(s.rows)
  {
    var reqs := [a, b];
    var s0 := Server(rows, [Waiting, Waiting]);
    var s1 := Step(s0, reqs, 0);
    assert s1 == Server(rows, [Checked, Waiting]);
    var s2 := Step(s1, reqs, 1);
    assert s2 == Server(rows, [Checked, Checked]);
    var s3 := Step(s2, reqs, 0);
    var rowsA := Insert(rows, a.body, a.id, a.now);
    assert s3 == Server(rowsA, [Answered(201), Checked]);
    var s4 := Step(s3, reqs, 1);
    var rowsAB := Insert(rowsA, b.body, b.id, b.now);
    assert s4 == Server(rowsAB, [Answered(201), Answered(201)]);
    assert Run(s0, reqs, [0, 1, 0, 1]) == s4 by {
      assert [0, 1, 0, 1][1..] == [1, 0, 1];
      assert [1, 0, 1][1..] == [0, 1];
      assert [0, 1][1..] == [1];
      assert [1][1..] == [];
    }
    var ea := rowsAB[|rows|];
    var eb := rowsAB[|rows| + 1];
    assert ea == InsertedRow(a.body, a.id, a.now);
    assert eb == InsertedRow(b.body, b.id, b.now);
    assert Clash(ea, eb);
  }

  /** The same two requests handled one after the other: the second is
      refused with 409. */
  lemma SerialRequestsRefuseTheSecond(rows: Store, a: Request, b: Request)
    requires RacingPair(rows, a.body, b.body)
    ensures var s := Run(Server(rows, [Waiting, Waiting]), [a, b], [0, 0, 1, 1]);
      s.phases == [Answered(201), Answered(409)]
  {
    var reqs := [a, b];
    var s0 := Server(rows, [Waiting, Waiting]);
    var s1 := Step(s0, reqs, 0);
    assert s1 == Server(rows, [Checked, Waiting]);
    var rowsA := Insert(rows, a.body, a.id, a.now);
    var s2 := Step(s1, reqs, 0);
    assert s2 == Server(rowsA, [Answered(201), Waiting]);
    assert OverlapRow(rowsA[|rows|], b.body.vehicleType.value, b.body.returnDate.value, b.body.pickupDate.value);
    assert Check(rowsA, b.body) == Conflict;
    var s3 := Step(s2, reqs, 1);
    assert s3 == Server(rowsA, [Answered(201), Answered(409)]);
    var s4 := Step(s3, reqs, 1);
    assert s4 == s3;
    assert Run(s0, reqs, [0, 0, 1, 1]) == s4 by {
      assert [0, 0, 1, 1][1..] == [0, 1, 1];
      assert [0, 1, 1][1..] == [1, 1];
      assert [1, 1][1..] == [1];
      assert [1][1..] == [];
    }
  }

  /** The race is reachable from an empty table: two SUV bookings,
      2024-06-01..2024-06-05 and 2024-06-04..2024-06-10. */
  lemma RaceFromEmptyTable()
    ensures RacingPair([],
      ReservationBody(Some("1"), Some("SUV"), Some("2024-06-01"), Some("2024-06-05"), None),
      ReservationBody(Some("2"), Some("SUV"), Some("2024-06-04"), Some("2024-06-10"), None))
  {
    var a := ReservationBody(Some("1"), Some("SUV"), Some("2024-06-01"), Some("2024-06-05"), None);
    var b := ReservationBody(Some("2"), Some("SUV"), Some("2024-06-04"), Some("2024-06-10"), None);
    assert HasRequiredFields(a) && HasRequiredFields(b);
    assert !OverlapQueryFinds([], "SUV", "2024-06-05", "2024-06-01");
    assert !OverlapQueryFinds([], "SUV", "2024-06-10", "2024-06-04");
    assert Check([], a) == Clear;
    assert Check([], b) == Clear;
    assert LexLe("2024-06-01", "2024-06-10");
    assert LexLe("2024-06-04", "2024-06-05");
  }

  // ---------------------------------------------------------------------
  // GET /api/reservations

  /** 400 without `user_id`, otherwise the rows of the listing. */
  datatype ListResponse = MissingUserId | Rows(rows: Store)

  function ListReservations(table: Store, userId: Option<string>): (r: ListResponse)
    ensures r.MissingUserId? <==> !Present(userId)
    ensures r.Rows? ==> Listing.NewestFirst(r.rows)
    ensures r.Rows? ==> forall e :: multiset(r.rows)[e] == if e.userId == userId then multiset(table)[e] else 0
  {
    if !Present(userId) then MissingUserId else Rows(Listing.ByUser(table, userId.value))
  }
}
