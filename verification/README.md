# Carpool reservations: a Dafny model

The PHP page `Swarm_project/app-php/src/index.php` runs a small carpool board:
drivers publish trips (`add_trip`), passengers book seats on them
(`reserve`), and every request ends with the list of trips ordered by date
and time, each showing the seats left and either a booking form or the
"Complet" badge. This project models that request handling as pure
transitions over a store of two tables, `trips` and `reservations`, and
proves the seat accounting that the page relies on.

Files and modules:

- `php_string.dfy` (`PhpString`): PHP `trim` with its default character list
  (space, tab, line feed, carriage return, NUL, vertical tab) and the
  truthiness of a string in a condition (false for `""` and `"0"`).
- `text_order.dfy` (`TextOrder`): the order of `trip_date` and `trip_time`,
  taken as opaque keys compared character by character.
- `schema.dfy` (`Schema`): the `Trip` and `Reservation` rows, the `Store`
  with one auto-increment counter per table, the lookup by id, the sum of
  booked seats per trip and the invariant `Valid`.
- `requests.dfy` (`Requests`): the `add_trip` and `reserve` actions, the
  dispatch of one request and runs of many.
- `listing.dfy` (`Listing`): the `ORDER BY trip_date, trip_time` listing and
  the full/not-full display rule.
- `race.dfy` (`Race`): what happens when bookings for one trip overlap.

Assumptions the source does not settle, because `db.php` (the schema and
the connection) is not part of this model:

- `seats_taken` starts at 0. The insert of a trip does not write it, so its
  first value is the column default.
- Both id columns auto-increment from 1. The `trip_id > 0` check of
  `reserve` then admits every stored trip.
- The connection throws on a failed statement (PDO's exception error mode,
  the default since PHP 8). In silent mode a failed reservation INSERT would
  return false, the UPDATE would still run and the commit would go through,
  leaving `seats_taken` above the seats its reservations hold; the model has
  no such path.
- Columns store exactly what is sent: no text is truncated to a column
  width and `trip_date`/`trip_time` are kept as the strings the form sent,
  not normalised by a DATE or TIME column. The stored rows and the listing
  order are therefore stated over the strings as sent. The page itself
  prints `substr($trip['trip_time'], 0, 5)` (index.php line 226), which
  suggests a TIME column returning `HH:MM:SS`; under such a column the
  stored time in `CarriesTripForm` (`tripTime` equal to the form's value)
  holds only up to that normalisation.

Other modelling choices:

- `filter_var($email, FILTER_VALIDATE_EMAIL)` is a parameter
  `isEmail: string -> bool` of every operation; nothing is assumed about it.
- Form fields arrive as strings; an absent field is `""`, as the `?? ''`
  makes it. The integer fields (`seats_total`, `trip_id`, `seats`) arrive
  already converted by `(int)`; an absent one is 0.
- The five driver text fields and the three passenger text fields are
  trimmed before the check and stored trimmed; `trip_date` and `trip_time`
  are neither trimmed nor otherwise checked beyond truthiness, as in the
  code.
- A request is one atomic step. The database exception inside the booking
  transaction is the flag `storageFault` of a reserve request; the rollback
  leaves both tables as they were, and the model also leaves the
  reservation id counter where it was (see "Left out").
- The outcome is an enumeration (`Done`, `InvalidInput`, `NotFound`,
  `InsufficientSeats`, `StorageError`, `NoAction`) rather than the French
  message text.

The model follows the code where it may surprise: it rejects a text field
that trims to `"0"` (not only an empty one), it does not trim the date and
time, it returns only a message (no trip or reservation), and its capacity
check is not atomic with the write (see Findings).

## Model

| member | source | states |
|---|---|---|
| PhpString.TrimLeftSpec | Swarm_project/app-php/src/index.php:10-14 | The left strip keeps a suffix of the field that starts with a kept character, and removes only strippable characters |
| PhpString.TrimRightSpec | Swarm_project/app-php/src/index.php:10-14 | The right strip keeps a prefix of the field that ends with a kept character, and removes only strippable characters |
| PhpString.TrimNoEdges | Swarm_project/app-php/src/index.php:10-14 | Neither end of a trimmed field is a strippable character |
| PhpString.TrimIsMiddleSlice | Swarm_project/app-php/src/index.php:10-14 | The trimmed field is a contiguous slice of the field sent, with only strippable characters removed on either side |
| PhpString.TrimIdempotent | Swarm_project/app-php/src/index.php:10-14 | Trimming an already trimmed field changes nothing |
| PhpString.TrimKeepsClean | Swarm_project/app-php/src/index.php:10-14 | A field without strippable ends is stored exactly as sent |
| PhpString.BlankTrimsToFalsy | Swarm_project/app-php/src/index.php:19 | A field made only of whitespace trims to "" and fails the truthiness check |
| PhpString.PaddedZeroTrimsToFalsy | Swarm_project/app-php/src/index.php:19 | A field reading "0" between blanks trims to "0" and fails the truthiness check too |
| TextOrder.LexLeTotal | Swarm_project/app-php/src/index.php:99 | Any two date or time keys are comparable |
| TextOrder.LexLeTransitive | Swarm_project/app-php/src/index.php:99 | The key order is transitive |
| TextOrder.LexLeAntisymmetric | Swarm_project/app-php/src/index.php:99 | Two keys ordered both ways are equal |
| Schema.FindTrip | Swarm_project/app-php/src/index.php:50-54 | The lookup finds no row exactly when no trip has the id, and otherwise the first row with that id |
| Schema.FindTripInValid | Swarm_project/app-php/src/index.php:50-52 | With unique ids the lookup by a trip's id returns that trip |
| Schema.SeatsReservedAppend | Swarm_project/app-php/src/index.php:59-69 | A new reservation adds its seats to its own trip's total and to no other |
| Schema.SeatsReservedAbsent | Swarm_project/app-php/src/index.php:20-25 | A trip with no reservation has no seat reserved, so a new trip starts balanced |
| Schema.EmptyStore | Swarm_project/app-php/src/index.php:20-25 | The empty database satisfies the invariant |
| Schema.AppendTripKeepsValid | Swarm_project/app-php/src/index.php:20-35 | Inserting a trip under the next id with positive capacity and no seat taken keeps ids unique, every reservation pointing at a trip, and every trip balanced |
| Requests.AddTrip | Swarm_project/app-php/src/index.php:9-39 | Succeeds exactly when all eight fields pass the check; on success exactly one trip is appended under the next id, carrying the trimmed text fields, the raw date and time, the capacity and no seat taken, with existing trips and all reservations unchanged; on failure the store is unchanged |
| Requests.AddTripFreshId | Swarm_project/app-php/src/index.php:20-25 | The new trip's id differs from every existing trip's id |
| Requests.AddTripKeepsValid | Swarm_project/app-php/src/index.php:17-35 | add_trip keeps the store invariant |
| Requests.RaiseSeatsTaken | Swarm_project/app-php/src/index.php:71-79 | The update changes only the counter, and only of rows with the given id |
| Requests.Commit | Swarm_project/app-php/src/index.php:57-81 | The booking write appends one reservation carrying the trimmed form under the next reservation id, keeps the earlier reservations, advances only that counter, and applies the counter update to the trips |
| Requests.CommitKeepsDrift | Swarm_project/app-php/src/index.php:59-79 | On any store, the write moves each trip's counter exactly as far as the seats its reservations gain |
| Requests.CommitExtends | Swarm_project/app-php/src/index.php:59-79 | The write removes and reorders nothing, changes no trip field but the counter, and never lowers a counter |
| Requests.CommitKeepsValid | Swarm_project/app-php/src/index.php:55-81 | A booking written to the store it was checked against keeps the invariant |
| Requests.CommitGuarded | Swarm_project/app-php/src/index.php:55-81 | The write with the capacity re-checked in the same step keeps every valid store valid, whatever store the booking was checked against |
| Requests.Decide | Swarm_project/app-php/src/index.php:43-56 | A booking is invalid exactly when a field fails, not found exactly when the fields pass and no trip has the id, short of seats exactly when the trip exists but has fewer seats left than asked, and passes otherwise |
| Requests.Reserve | Swarm_project/app-php/src/index.php:42-95 | Invalid fields, an unknown trip, too few seats and a storage error each fail with the store unchanged; it succeeds exactly when the fields pass, the seats fit and the database does not throw, and success is the booking write as written |
| Requests.ReserveSuccess | Swarm_project/app-php/src/index.php:59-81 | A successful booking appends one reservation carrying the form and raises exactly the booked trip's counter by the seats asked for, changing no other trip field |
| Requests.ReserveExtends | Swarm_project/app-php/src/index.php:42-95 | A booking request never removes rows, changes no trip field but the counter, and never lowers a counter |
| Requests.ReserveKeepsValid | Swarm_project/app-php/src/index.php:42-95 | A booking request keeps the invariant |
| Requests.ReserveAgainstCapacity | Swarm_project/app-php/src/index.php:55-56 | In a valid store, more seats than are left fails with nothing written, and at most that many succeeds and raises the counter by that many |
| Requests.Handle | Swarm_project/app-php/src/index.php:6-96 | Any request never removes or reorders rows, never lowers a counter, and a request with no known action changes nothing |
| Requests.HandleKeepsValid | Swarm_project/app-php/src/index.php:6-96 | Any request keeps the invariant |
| Requests.Run | Swarm_project/app-php/src/index.php:6-96 | Any sequence of requests keeps the invariant and only ever raises seats taken |
| Listing.ListedBeforeTotal | Swarm_project/app-php/src/index.php:99 | Any two trips can be placed in listing order |
| Listing.ListedBeforeTransitive | Swarm_project/app-php/src/index.php:99 | Date-then-time order is transitive |
| Listing.Insert | Swarm_project/app-php/src/index.php:99 | Inserting one trip into an ordered list keeps it ordered and adds exactly that trip |
| Listing.ListTrips | Swarm_project/app-php/src/index.php:99-100 | The listing holds every stored trip exactly once, ordered by date and then time |
| Listing.FullMeansEverySeatTaken | Swarm_project/app-php/src/index.php:237 | In a valid store a trip shows "Complet" instead of the form exactly when every seat is taken |
| Listing.FullStaysFull | Swarm_project/app-php/src/index.php:272-273 | A trip shown as full is still shown as full after any further requests |
| Listing.ListedSeatsInRange | Swarm_project/app-php/src/index.php:217 | After any requests, every listed trip shows between zero and its capacity in free seats |
| Race.CommitRaced | Swarm_project/app-php/src/index.php:55-79 | Bookings checked against one snapshot and written one after another keep every trip's counter in step with its reservations |
| Race.RacedBatchKeepsCounts | Swarm_project/app-php/src/index.php:71-79 | After overlapping bookings every counter still equals the seats its reservations hold: no update is lost |
| Race.RacedBatchCommitsAll | Swarm_project/app-php/src/index.php:55-81 | Every overlapping booking that passed the check on the snapshot is written |
| Race.RacedBatchTakesAll | Swarm_project/app-php/src/index.php:71-79 | Overlapping bookings raise the counter by all the seats asked for, whatever the capacity |
| Race.RacedBookingsOverbook | Swarm_project/app-php/src/index.php:55-57 | Two requests for two seats on a three-seat trip, both read before either writes, both pass the check and are both written, leaving four seats taken out of three and an invalid store |
| Race.RacedPairOverbooks | Swarm_project/app-php/src/index.php:55-79 | ... and both are written, leaving two reservations, four seats taken out of three and an invalid store |
| Race.CommitGuardedRaced | Swarm_project/app-php/src/index.php:55-79 | With the re-check in the write, overlapping bookings keep the number of trips and every earlier reservation, and write at most one reservation per booking |
| Race.GuardedBatchKeepsValid | Swarm_project/app-php/src/index.php:55-79 | With the re-check in the write, overlapping bookings keep the invariant |
| Race.GuardedRaceTurnsSecondAway | Swarm_project/app-php/src/index.php:55-79 | With the re-check, the same two requests leave one reservation, two seats taken and a valid store |
| Race.GuardedCopiesCount | Swarm_project/app-php/src/index.php:55-79 | With the re-check, n overlapping copies of a booking go through as many times as they would one at a time against the seats left |
| Race.GuardedCopiesTake | Swarm_project/app-php/src/index.php:55-79 | ... and raise the counter by exactly the seats of those that went through |
| Race.FiveSeatsRaced | Swarm_project/app-php/src/index.php:55-79 | As written, n overlapping requests for two seats on a five-seat trip take 2n seats |
| Race.FiveSeatsGuarded | Swarm_project/app-php/src/index.php:55-79 | With the re-check, any n >= 2 such requests let exactly two through and take four seats |

## Left out

- HTML rendering, styling and `htmlspecialchars`: presentation. Only the
  seats-left figure and the full/not-full rule are kept.
- PDO, the SQL text and `db.php`: the tables are sequences and the
  auto-increment columns are counters. `db.php` is not part of this model,
  so the `seats_taken` default (0) and the first id (1) are assumptions.
- `filter_var(..., FILTER_VALIDATE_EMAIL)`: an opaque validator, passed in as
  a parameter.
- The `(int)` conversion of the numeric form fields (leading digits, signs,
  saturation at the platform's integer limits): the forms carry the
  converted integers.
- Calendar meaning of `trip_date` and `trip_time`: they are ordered as the
  text the form sent. For `YYYY-MM-DD` dates and `HH:MM` times, as the
  browser's date and time inputs send them, this matches chronological
  order; a DATE or TIME column's own normalisation is not modelled.
- Which of several trips with the same date and time is listed first: SQL
  leaves it open; `ListTrips` keeps insertion order, and its contract
  promises only order and contents.
- Database failures outside the booking transaction's `try`: the trip
  INSERT of `add_trip`, the trip lookup of `reserve` (`prepare`, `execute`,
  `fetch`), its `beginTransaction`, and the listing query. The source does
  not catch these, so the request ends with an uncaught exception and an
  error page. None of them has written anything when it throws (the trip
  INSERT either adds its row or fails as a whole), so the store stays as it
  was, but the model has no such outcome: with `storageFault` false, a
  booking that passes the checks is `Done`. `storageFault` stands only for
  a failure inside the `try`, where the rollback applies.
- Concurrency in general: requests are atomic steps, except in `Race`, which
  models the one interleaving that matters (all reads before all writes).
- Auto-increment values used by a rolled-back INSERT: InnoDB does not give
  them back, so after a storage error the next reservation id may have
  advanced. The model keeps the counter unchanged; ids stay unique and
  positive either way, and no property here depends on ids being
  consecutive.
- Stale listings: the listing is not modelled as a read of a concurrently
  changing store; stale counts on screen are not represented.

## Findings

| source | as written | input that shows it | evidently intended | confidence | as-written member | corrected member |
|---|---|---|---|---|---|---|
| Swarm_project/app-php/src/index.php:55-57 | Seats left are read and compared before the transaction opens, and the update adds to `seats_taken` without checking the capacity again | A trip with 3 seats and none taken; two requests for 2 seats each, both read the trip before either writes: both pass the check and `seats_taken` ends at 4 | The capacity check and the write form one atomic step (a row lock, or an update that only applies while the seats still fit), so a trip is never overbooked; the contract of Requests.CommitGuarded proves this of the corrected write | high for the interleaving, not executed | Race.RacedBookingsOverbook | Requests.CommitGuarded |
