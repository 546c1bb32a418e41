# Vehicle reservations: conflict detection with check-and-create

The car-rental site takes bookings for a vehicle type over an inclusive
range of `YYYY-MM-DD` dates. Three code paths decide whether a booking may
be made:

- the callable Cloud Function `checkCreateReservation` scans the same-type
  reservations and creates a `confirmed` one inside one Firestore
  transaction;
- the browser helper `isAvailable` runs the same scan without writing, and
  `createReservation` writes with no check at all;
- the Express route `POST /api/reservations` runs the overlap test as a SQL
  query and then inserts with a second, separate query.

This project models all three over one store of records (`seq<Reservation>`).
It proves the following:

- JavaScript's string `<=` on strings of the zero-padded `DDDD-DD-DD`
  digit-and-dash shape is (year, month, day) order.
- The three conflict tests agree, each within its limits. The browser scan and
  the Cloud Function agree on complete requests. The SQL query and the
  Firestore scan agree on rows with no empty-string date.
- The atomic Cloud Function keeps the store free of double bookings, for
  requests whose fields are strings or absent (see "Left out"). It also
  keeps `confirmed` bookings apart when other writers have already left
  overlapping records of another status.
- The Express route keeps it free of double bookings when requests run one
  after another. It does not when two requests interleave their check and
  insert steps.

It also models:

- the per-user "my reservations" listing;
- the registration and `Authorization: Bearer` rules of the API server;
- the request handling of the dependency-free static file server.

Modules:

- `JsValues`: optional values and JavaScript truthiness. A string field is
  missing when it is absent or empty. A price is an integer and is missing
  when it is absent or 0 (see "Left out" for what this drops).
- `Strings`: JavaScript string `<=` (`LexLe`), `split` on one character,
  `startsWith`, `toLowerCase` and `lastIndexOf`.
- `Dates`: strings of the `DDDD-DD-DD` digit-and-dash shape, and the proof that
  string order on them is (year, month, day) order. The shape does not check
  month or day ranges.
- `Reservations`: the record, the inclusive overlap test, the conflict scan,
  and the store invariants `NoDoubleBooking` and `NoConfirmedDoubleBooking`.
- `CloudFunction`: `checkCreateReservation` as one atomic transition, and
  runs of many calls.
- `FirebaseClient`: `isAvailable`, `createReservation` and
  `listReservationsByUser`.
- `Listing`: the records of one user, newest first.
- `ApiServer`: the Express routes, including the two-step reservation route
  as an interleaving state machine.
- `StaticServer`: the argument parser, method gate, path normalisation,
  containment check, directory index and content-type lookup of
  `scripts/server.js`.

`NoDoubleBooking` covers every record that has a type and both dates, whatever
its status. The Cloud Function's scan never looks at the status, so a pending
record blocks a request just as a confirmed one does. This invariant is
sufficient, but not every write path maintains it. The booking form writes
`pending` records through the unchecked `createReservation`, and such a
record can overlap a confirmed one. The invariant the bookings need is
`NoConfirmedDoubleBooking`: no two `confirmed` records overlap. The Cloud
Function and the unchecked `pending` write both keep that invariant, so
confirmed bookings stay apart even after the stronger invariant is broken.

## Model

| member | source | states |
|---|---|---|
| JsValues.Present | functions/index.js:19 | definition: a string field is truthy when it is present and not empty |
| JsValues.NumberPresent | functions/index.js:16 | definition: an integer field is truthy when it is present and not 0 |
| JsValues.PriceOrNull | functions/index.js:16 | a falsy price (absent or 0) becomes null, and any other price is kept |
| JsValues.TextOrNull | functions/index.js:17 | falsy notes (absent or empty) become null, and any other notes are kept |
| JsValues.OrEmpty | server/index.js:84 | a missing Authorization header reads as the empty string |
| Strings.StartsWith | scripts/server.js:15-16 | definition: `startsWith`, the prefix occurs at the start |
| Strings.LexLe | functions/index.js:32 | definition: JavaScript string `<=`, character by character, with a proper prefix ordered first |
| Strings.LexLeReflexive | functions/index.js:31-32 | string `<=` is reflexive |
| Strings.LexLeAntisymmetric | functions/index.js:31-32 | string `<=` both ways means the strings are equal |
| Strings.LexLeTransitive | functions/index.js:31-32 | string `<=` is transitive |
| Strings.LexLeTotal | js/firebase.js:87-88 | any two strings are comparable with `<=` |
| Strings.Split | server/index.js:85 | `split` gives at least one piece; no piece holds the separator; there are two or more pieces exactly when the separator occurs |
| Strings.JoinSplit | server/index.js:85 | joining the pieces of a split with the separator gives back the string |
| Strings.SplitJoin | server/index.js:85 | splitting a join of separator-free pieces gives back the pieces |
| Strings.SplitCons | server/index.js:85 | a separator-free head followed by the separator is split off as the first piece |
| Strings.SplitNoSeparator | server/index.js:85 | a string without the separator splits into itself alone |
| Strings.SecondPieceAfterPrefix | scripts/server.js:15-16 | the second `=`-piece of `key=v` is `v` cut at its own first `=` |
| Strings.LowerChar | scripts/server.js:69 | `toLowerCase` moves `A`-`Z` to `a`-`z` and leaves every other character alone |
| Strings.Lower | scripts/server.js:69 | lower-casing keeps the length and maps each character |
| Strings.LowerIdempotent | scripts/server.js:69 | lower-casing twice is lower-casing once |
| Strings.LastIndexOf | scripts/server.js:69 | the result is -1 or a position holding the character, and no later position holds it |
| Dates.IsoDateOrder | functions/index.js:31-32 | for two strings of the zero-padded `DDDD-DD-DD` shape, string `<=` holds exactly when the first is no later in (year, month, day) order |
| Reservations.HasDates | functions/index.js:30 | definition: both dates are truthy; other records are skipped |
| Reservations.OverlapsRange | functions/index.js:30-32 | definition: the record has both dates, its pickup is no later than the request's return, and its return no earlier than the request's pickup |
| Reservations.ConflictsWith | functions/index.js:27-32 | definition: the record has the requested type and overlaps the requested range |
| Reservations.HasConflict | functions/index.js:26-35 | definition: some stored record blocks the request |
| Reservations.Clash | functions/index.js:30-32 | definition: two records of one type, both with dates, whose inclusive ranges share a day |
| Reservations.NoDoubleBooking | functions/index.js:26-48 | definition: no two records of the store clash, whatever their status |
| Reservations.NoConfirmedDoubleBooking | functions/index.js:37-46 | definition: no two `confirmed` records of the store clash |
| Reservations.NoDoubleBookingKeepsConfirmedApart | functions/index.js:26-48 | a store with no clash at all has no clash between confirmed records |
| Reservations.AppendKeepsNoConfirmedDoubleBooking | functions/index.js:26-48 | appending a record keeps confirmed records apart when the record is not `confirmed`, or when nothing stored blocks it |
| Reservations.OfType | functions/index.js:27 | the query result holds exactly the stored records of the requested type |
| Reservations.ScanForConflict | functions/index.js:28-35 | the scan finds a conflict exactly when some scanned record has both dates and overlaps the request inclusively |
| Reservations.QueryThenScan | functions/index.js:27-35 | query-then-scan finds a conflict exactly when some stored record of the type blocks the request |
| Reservations.ClashSymmetric | functions/index.js:32 | two records clash in either order or not at all |
| Reservations.ClashIsConflict | functions/index.js:32 | an existing record clashes with a complete new record exactly when it would block a request for the new record's type and dates |
| Reservations.AppendKeepsNoDoubleBooking | functions/index.js:26-48 | appending a record that nothing stored blocks keeps the store free of double bookings |
| Reservations.AppendBlockedBreaksNoDoubleBooking | js/firebase.js:58-65 | appending a complete record that some stored record blocks always creates a double booking |
| Reservations.WithDates | functions/index.js:30 | the result holds exactly the stored records that have both dates |
| Reservations.UndatedRecordsNeverConflict | functions/index.js:30 | dropping records that lack a date changes no conflict answer |
| Reservations.OtherTypesNeverConflict | functions/index.js:27 | a store with no record of the requested type never conflicts |
| Reservations.UndatedNeverConflict | js/firebase.js:86 | a store whose records all lack a date never conflicts |
| CloudFunction.Complete | functions/index.js:19 | definition: type, pickup date and return date are all truthy |
| CloudFunction.ConfirmedRecord | functions/index.js:37-46 | definition: the written document, with the caller's uid, the given type and dates, falsy price and notes as null, status `confirmed` and the timestamp |
| CloudFunction.Reserve | functions/index.js:8-58 | no auth gives `unauthenticated` and an unchanged store; a missing type or date gives `invalid-argument` and an unchanged store; `already-exists` happens exactly when a stored record blocks the request; an authenticated, complete call that no stored record blocks succeeds with the new id; every outcome except success leaves the store unchanged; success appends exactly one `confirmed` record with the caller's uid, the given type and dates, falsy price and notes as null, the new id and the timestamp |
| CloudFunction.ReservePreservesNoDoubleBooking | functions/index.js:26-48 | if no two complete same-type records overlap before a call, none overlap after it |
| CloudFunction.ReservePreservesNoConfirmedDoubleBooking | functions/index.js:26-48 | if no two confirmed records clash before a call, none clash after it, even when the store already holds overlapping records of another status |
| CloudFunction.ReserveIndependentAcrossTypes | functions/index.js:27-35 | a call for one vehicle type changes no conflict answer for any other type |
| CloudFunction.ReserveAll | functions/index.js:26-48 | a run of calls, one transaction after another, answers every call; it keeps the store free of double bookings, and keeps confirmed bookings apart |
| CloudFunction.BlockedCallRejected | functions/index.js:52-53 | a complete, authenticated call that a stored record blocks gets `already-exists` and writes nothing |
| CloudFunction.BlockedCallsAllRejected | functions/index.js:52-53 | calls that the store already blocks are all rejected with `already-exists` and write nothing |
| CloudFunction.ExactlyOneOverlappingCallWins | functions/index.js:26-48 | of calls for one type whose date ranges pairwise overlap, the first succeeds and every later one gets `already-exists` |
| CloudFunction.DistinctTypesAllSucceed | functions/index.js:27-47 | calls for pairwise different types that the store does not block all succeed |
| CloudFunction.SuvConflicts | functions/index.js:30-33 | a request for the stored SUV's type conflicts with it exactly when its return is not before the SUV's pickup and its pickup not after the SUV's return |
| CloudFunction.TouchingBoundaryConflicts | functions/index.js:32 | a pickup on the day an existing booking is returned conflicts, whatever the other fields hold, because boundaries are inclusive |
| CloudFunction.AdjacentRangeSucceeds | functions/index.js:32 | a pickup the day after an existing return succeeds with the new id |
| CloudFunction.OtherTypeSameDatesSucceeds | functions/index.js:27 | the same dates on another vehicle type succeed with the new id |
| FirebaseClient.IsAvailable | js/firebase.js:77-93 | the answer is false exactly when a same-type record with both dates overlaps the request inclusively; it is true when no record has that type and true when no record has both dates; for a complete request it is false exactly when the Cloud Function would answer `already-exists` |
| FirebaseClient.AnswerFacts | js/firebase.js:80-92 | the scan's answer is the conflict predicate; it is false on a store with no records of the type, false on a store with no dated records, and equal to the Cloud Function's rejection |
| FirebaseClient.CloudFunctionUsesSamePredicate | js/firebase.js:88 | for a complete request, the Cloud Function rejects as a conflict exactly when the shared predicate holds |
| FirebaseClient.CreateReservation | js/firebase.js:58-65 | returns the new id and appends exactly the caller's fields with the new id and a server timestamp, leaving the earlier records as they were |
| FirebaseClient.CreateReservationCanDoubleBook | js/firebase.js:58-65 | for a record that a stored record blocks, the unchecked create double-books where the Cloud Function would have written nothing |
| FirebaseClient.UncheckedWriteBreaks | js/firebase.js:58-65 | writing a complete record that a stored record blocks always leaves a double booking behind |
| FirebaseClient.OverlappingSuvDates | js/firebase.js:58-65 | an SUV booked 2024-06-01 to 2024-06-05 blocks an SUV request for 2024-06-04 to 2024-06-10 |
| FirebaseClient.PendingFormRecordDoubleBooks | js/firebase.js:58-65 | any pending SUV record for 2024-06-04 to 2024-06-10, written over a confirmed SUV booked 2024-06-01 to 2024-06-05, is accepted and turns a store without double bookings into one with a double booking, while the confirmed bookings stay apart |
| FirebaseClient.UnconfirmedWriteKeepsConfirmedApart | public/js/script.js:134-144 | the unchecked write of a record that is not `confirmed`, like the form's `pending` one, never makes two confirmed bookings clash |
| FirebaseClient.ListReservationsByUser | js/firebase.js:68-73 | newest first, holding each of the user's records as often as it is stored and nothing else |
| Listing.NewestFirst | js/firebase.js:69 | definition: `createdAt` never increases along the list |
| Listing.OfUser | js/firebase.js:69 | keeps each record of the user as often as it is stored, and no other record |
| Listing.InsertNewestFirst | js/firebase.js:69 | inserting into a newest-first list adds exactly that record and keeps the list newest first |
| Listing.SortNewestFirst | js/firebase.js:69 | the result is a permutation of the input, ordered by `createdAt` descending |
| Listing.ByUser | js/firebase.js:68-73 | newest first; holds each record of the user as often as it is stored; a record is listed exactly when it is stored with that user id |
| Listing.NewestFirstUnique | js/firebase.js:69 | with distinct timestamps, a newest-first list is fixed by its records, so the listing does not depend on storage order |
| ApiServer.Register | server/index.js:19-25 | 400 exactly when `nombre`, `email` or `password` is falsy; otherwise the row carries the given fields, the role is the given one when truthy and `cliente` otherwise, and no stored field is empty |
| ApiServer.BearerToken | server/index.js:84-87 | a token is found only when the header is exactly `Bearer ` followed by a token with no space |
| ApiServer.BearerParts | server/index.js:85-86 | a header that splits on spaces into `Bearer` and one more piece is `Bearer ` followed by that piece |
| ApiServer.BearerTokenAccepts | server/index.js:84-87 | every space-free token after `Bearer ` is found |
| ApiServer.MeStatus | server/index.js:82-93 | the status is 200 or 401, and 200 only for a header starting with `Bearer ` |
| ApiServer.MeStatusOfHeader | server/index.js:82-93 | 200 exactly when the header is `Bearer ` plus a space-free token that verifies |
| ApiServer.HasRequiredFields | server/index.js:111 | definition: `user_id`, `vehicle_type`, `pickup_date` and `return_date` are all truthy |
| ApiServer.InsertedRow | server/index.js:129-134 | definition: the inserted row, with the body's user, type and dates, `price \|\| null`, no notes, status `confirmed` and the timestamp |
| ApiServer.OverlapRow | server/index.js:117-124 | definition: the row has type `$1`, a pickup date no later than `$2` and a return date no earlier than `$3`, dates compared as text |
| ApiServer.OverlapQueryFinds | server/index.js:117-125 | definition: the overlap query returns a row |
| ApiServer.Check | server/index.js:110-127 | 400 exactly when `user_id`, `vehicle_type`, `pickup_date` or `return_date` is falsy; otherwise a conflict exactly when a same-type row has pickup no later than the new return and return no earlier than the new pickup |
| ApiServer.Insert | server/index.js:129-135 | appends exactly one `confirmed` row with the body's user, type and dates, falsy price as null, the new id and the timestamp |
| ApiServer.PostReservation | server/index.js:109-140 | 400 on missing fields and 409 exactly on a conflict, both with no write; otherwise 201 with the new id after one insert |
| ApiServer.CheckIsDateOrder | server/index.js:117-124 | when the body's dates and every stored date have the `DDDD-DD-DD` shape, the check reports a conflict exactly when a same-type row's dates overlap the request's in (year, month, day) order |
| ApiServer.ClearMeansUnblocked | server/index.js:117-127 | a blocked body is always found by the overlap query, so a clear check means the body is unblocked |
| ApiServer.SqlQueryAgreesWithScan | server/index.js:117-124 | on rows without empty-string dates, the SQL overlap query with `$2` = return and `$3` = pickup finds a row exactly when the Firestore scan finds a conflict |
| ApiServer.PostReservationPreservesNoDoubleBooking | server/index.js:109-140 | a request handled on its own keeps the table free of double bookings |
| ApiServer.Step | server/index.js:124-135 | one step of one request (its check, or its insert or refusal) keeps one phase per request |
| ApiServer.Run | server/index.js:124-135 | running a schedule of steps keeps one phase per request |
| ApiServer.ExclusiveStepKeepsSafe | server/index.js:124-135 | a step taken while no other request sits between its check and its insert keeps the table free of double bookings and every checked request unblocked |
| ApiServer.LockedRunPreservesNoDoubleBooking | server/index.js:124-135 | a schedule that never lets two requests sit between check and insert at once keeps the table free of double bookings |
| ApiServer.InterleavedChecksDoubleBook | server/index.js:124-135 | two overlapping same-type requests on a clean table, scheduled check A, check B, insert A, insert B, both get 201 and double-book |
| ApiServer.SerialRequestsRefuseTheSecond | server/index.js:124-135 | the same two requests run one after the other give 201 then 409 |
| ApiServer.RaceFromEmptyTable | server/index.js:109-140 | a concrete pair of overlapping SUV requests on an empty table is a racing pair |
| ApiServer.ListReservations | server/index.js:143-150 | 400 exactly when `user_id` is falsy; otherwise that user's rows only, each as often as stored, newest first |
| StaticServer.Defaults | scripts/server.js:9-10 | definition: directory `.` and port 8000 |
| StaticServer.TakesValue | scripts/server.js:13-14 | definition: `--dir`, `-p` and `--port` take the next argument as their value |
| StaticServer.ValueAfterEquals | scripts/server.js:15-16 | definition: `a.split('=')[1]`, the text after the first `=` up to any second one |
| StaticServer.ParseFrom | scripts/server.js:11-17 | definition: the options after reading the remaining arguments one option at a time, a valued option consuming its value |
| StaticServer.ParseArgv | scripts/server.js:8-17 | the index loop, which skips the consumed value, computes the argument-by-argument reading of the options |
| StaticServer.NoArgumentsGiveDefaults | scripts/server.js:9-10 | with no arguments the directory is `.` and the port 8000 |
| StaticServer.UnknownArgumentIgnored | scripts/server.js:11-17 | an argument that is no option is skipped |
| StaticServer.OptionWithoutValueSkipped | scripts/server.js:13-14 | `--dir`, `-p` or `--port` at the end, or before an empty argument, consumes nothing |
| StaticServer.PortEqualsTakesFirstPiece | scripts/server.js:15 | `--port=v` sets the port to `v` cut at its first `=` |
| StaticServer.DirEqualsTakesFirstPiece | scripts/server.js:16 | `--dir=v` sets the directory to `v` cut at its first `=` |
| StaticServer.ParseAppend | scripts/server.js:11-17 | parsing a cleanly ending argument list and then more arguments equals parsing the first list and continuing from its options |
| StaticServer.LaterDirOverrides | scripts/server.js:13 | a later `--dir d` wins over earlier settings and leaves the port alone |
| StaticServer.LaterPortOverrides | scripts/server.js:14 | a later `--port p` wins over earlier settings and leaves the directory alone |
| StaticServer.MethodAllowed | scripts/server.js:47 | definition: the method is `GET` or `HEAD` |
| StaticServer.RelativePath | scripts/server.js:52-53 | one leading `/` is dropped; an empty path (or a lone `/`) becomes `index.html`; the result is never empty |
| StaticServer.ContainedAsWritten | scripts/server.js:56 | definition: the resolved path starts with the directory as a string |
| StaticServer.Within | scripts/server.js:56 | definition: the corrected check, which accepts the directory itself or a path starting with the directory plus `/` |
| StaticServer.WithSlash | scripts/server.js:56 | definition: the directory with exactly one trailing `/`, as the corrected containment check uses it |
| StaticServer.IndexOf | scripts/server.js:62 | definition: `path.join(full, 'index.html')` |
| StaticServer.PrefixCheckAdmitsSibling | scripts/server.js:56-58 | the prefix check lets `/srv/site-private/key` through for the directory `/srv/site` |
| StaticServer.WithinIsPathContainment | scripts/server.js:56-58 | the corrected check implies the prefix check, accepts every path below the directory, and rejects every sibling whose name only extends the directory's |
| StaticServer.Basename | scripts/server.js:69 | the last path component is a suffix of the path with no `/`; it is the whole path when there is no `/`, and otherwise starts right after the last `/` |
| StaticServer.ExtOfBase | scripts/server.js:69 | the extension is empty or starts with `.`, is a suffix of the component, and when not empty is shorter than the component and holds no further `.` |
| StaticServer.NoExtensionOfBase | scripts/server.js:69 | a component has no extension exactly when it is `..` or has no `.` after its first character |
| StaticServer.Extname | scripts/server.js:69 | the extension is empty or starts with `.`, holds no `/`, ends the path, and holds no `.` after its first character |
| StaticServer.NoExtension | scripts/server.js:69 | a path has no extension exactly when its last component is `..` or has no `.` after its first character |
| StaticServer.ExtnameLower | scripts/server.js:69 | the extension of a lower-cased path is the lower-cased extension |
| StaticServer.Mime | scripts/server.js:21-36 | definition: the fourteen extension-to-type entries |
| StaticServer.ContentType | scripts/server.js:69-70 | the table entry for the lower-cased extension, or `application/octet-stream` when there is none |
| StaticServer.ContentTypeIgnoresCase | scripts/server.js:69-70 | a path and its lower-cased form get the same content type |
| StaticServer.HtmlInAnyCase | scripts/server.js:69-70 | every path whose extension lower-cases to `.html` is served as `text/html; charset=utf-8` |
| StaticServer.UntypedWithoutExtension | scripts/server.js:69-70 | every path without an extension is served as `application/octet-stream` |
| StaticServer.UpperCaseExtensionTyped | scripts/server.js:69-70 | `INDEX.HTML` is served as HTML |
| StaticServer.DotFileUntyped | scripts/server.js:69-70 | a dot file such as `.bashrc` has no extension, so it gets `application/octet-stream` |
| StaticServer.NoExtensionUntyped | scripts/server.js:69-70 | a file without a dot gets `application/octet-stream` |
| StaticServer.Serve | scripts/server.js:59-76 | 404 exactly when the path is absent, or is a directory without `index.html`; a file gets its content type and a body except under HEAD; a directory's index is streamed with no content type, even for HEAD; only existing paths are streamed |
| StaticServer.Handle | scripts/server.js:46-76 | 405 for any method but GET and HEAD; otherwise 403 exactly when the resolved path is outside the directory, and `Serve`'s answer for the resolved path when it is inside; anything streamed lies inside the directory and exists |
| StaticServer.HandleAsWritten | scripts/server.js:46-76 | with the prefix check, 403 exactly when the resolved path lacks the directory as a string prefix, and `Serve`'s answer for the resolved path when it has it; anything streamed has that prefix |
| StaticServer.IndexStaysWithin | scripts/server.js:61-65 | a directory's `index.html` lies inside the served directory when the directory does |
| StaticServer.HandlersAgreeInside | scripts/server.js:56-76 | for paths inside the directory both handlers give the same answer, which for GET and HEAD is `Serve`'s answer; outside it, the corrected one gives 403 |
| StaticServer.SiblingFileServedAsWritten | scripts/server.js:50-58 | a GET of `/../site-private/key` against `/srv/site` streams the sibling file as written and gets 403 when corrected |

## Left out

- Storage failures and the `internal` / 500 answers they lead to are not modelled, in both the Cloud Function and the Express routes. Every read and write is assumed to succeed.
- ApiServer.Check reads the SQL `pickup_date <= $2` and `return_date >= $3` comparisons as string order on the `YYYY-MM-DD` text. Postgres compares `DATE` values, parses text such as `2024-6-5` that is not zero-padded, and answers 500 on text that is no date. Those inputs are not modelled. Agreement with (year, month, day) order is proved only for dates of the `DDDD-DD-DD` shape (`ApiServer.CheckIsDateOrder`). That shape does not check month or day ranges.
- JsValues.PriceOrNull models a price as an optional integer, so `price || null` (functions/index.js:16, server/index.js:134) loses JavaScript number behaviour. A NaN price is falsy and becomes null. A fractional price such as 49.99 cannot be represented. A string price from JSON, even `"0"`, is truthy and is kept. None of these cases is modelled.
- CloudFunction.Reserve models every request field as a string or absent. The fields come from the caller's JSON with no type check (functions/index.js:13-17). A number date such as `20240604` is truthy and passes the presence check at line 19. The comparison at line 32 then converts the stored date string to a number, which is NaN, so the comparison is false. Such a request never conflicts, and the function writes a second `confirmed` record over booked days. Such requests are not modelled, and the invariant results hold only for string fields.
- ApiServer.Check likewise models the body's fields as strings or absent (server/index.js:110-113). A number or other JSON value passes the truthiness check, and the `pg` driver sends it to Postgres as text. How Postgres then reads it is not modelled.
- Registration's 409 for a duplicate e-mail depends on a database unique constraint and is not modelled.
- bcrypt hashing and JWT signing are opaque cryptography. `MeStatus` takes JWT verification as a parameter `verifies`, and the login route is not modelled.
- Generation of document ids, row ids and server timestamps is not modelled. They are parameters (`newId`, `now`).
- The Firestore transaction's retry mechanics are not modelled. The Cloud Function is one atomic transition.
- Real concurrency on the Express route is not modelled. It is an explicit interleaving of the atomic check and insert steps.
- The generic `createReservationTransactional` wrapper and the `checkAndCreateReservation` / `createReservationRemote` call wrappers only call the code modelled here. They are not modelled.
- ListReservationsByUser: the order among records with the same `createdAt` is left unspecified. Firestore breaks such ties by document id and Postgres in no fixed order.
- ListReservationsByUser: the merge of the document id into each result object is not modelled. A stored `id` field of the same name would override the document id.
- Strings.LexLe compares whole characters. JavaScript compares UTF-16 code units, and the two differ only for characters outside the Basic Multilingual Plane, never for dates.
- Strings.LowerChar maps only `A`-`Z`. JavaScript also lower-cases non-ASCII letters, for example U+212A (Kelvin sign) to `k`. No content-type key contains a letter that a non-ASCII character lower-cases to, so typing is unaffected.
- Strings.Lower lower-cases ASCII letters only. Non-ASCII letters are left as they are, unlike JavaScript's `toLowerCase`.
- StaticServer.ParseArgv keeps the port as the raw argument text. `Number()` and its NaN cases are not modelled.
- StaticServer.ParseArgv does not model how `path.resolve` turns the directory into an absolute path. `Handle` receives the resolved directory.
- StaticServer.Handle takes `path.join`/`path.resolve` as the parameter `resolve` and the file system as a map from path to file or directory.
- StaticServer.Handle does not model `url.parse` or `decodeURIComponent`. A malformed percent-escape makes `decodeURIComponent` throw inside the request listener, where nothing catches it, so the whole server process ends, not only that request.
- StaticServer.Handle does not model a read error while a file is streamed. In the file branch (scripts/server.js:73-75) that answers 500.
- StaticServer.Serve answers 200 and streams a directory's `index.html` whenever that path exists. The server pipes that stream with no error listener (scripts/server.js:65). So an `index.html` that cannot be read, or is itself a directory (EISDIR), raises an unhandled stream error that ends the whole server process. Those inputs are not modelled.
- StaticServer.Extname assumes the resolved path has no trailing `/`. `path.resolve` never leaves one except for the root.
- The UI scripts, Firebase configuration, the Postgres pool, the connection smoke test, the password migration script and the health, user list and logout routes hold no reservation logic and are not modelled.

## Findings

| source | as written | input that shows it | evidently intended | confidence | as-written member | corrected member |
|---|---|---|---|---|---|---|
| scripts/server.js:56-58 | `fullPath.startsWith(dir)` is a plain string-prefix test, so it also admits a sibling directory whose name extends the served one | serving `/srv/site`, a GET of `/../site-private/key` resolves to `/srv/site-private/key`, which passes the test and is streamed | serve only the directory itself or paths below it, compared component by component (`dir` or `dir + "/"` as prefix) | not executed | StaticServer.HandleAsWritten (counterexample: StaticServer.SiblingFileServedAsWritten, StaticServer.PrefixCheckAdmitsSibling) | StaticServer.Handle (proved: StaticServer.WithinIsPathContainment, StaticServer.IndexStaysWithin, StaticServer.HandlersAgreeInside) |
