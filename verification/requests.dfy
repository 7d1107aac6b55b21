/** The two POST actions of the page, `add_trip` and `reserve`, as pure
    transitions of the store, and the dispatch that runs one per request. */
module Requests {
  import opened PhpString
  import opened Schema

  /** The POST fields of `add_trip`. `seatsTotal` is the value after the
      `(int)` cast; an absent field arrives as "" (or 0). */
  datatype TripForm = TripForm(
    driverName: string,
    driverEmail: string,
    driverIdafpa: string,
    fromCity: string,
    toCity: string,
    tripDate: string,
    tripTime: string,
    seatsTotal: int)

  /** The POST fields of `reserve`, with `trip_id` and `seats` already cast. */
  datatype BookingForm = BookingForm(
    tripId: int,
    passengerName: string,
    passengerEmail: string,
    passengerIdafpa: string,
    seats: int)

  /** Which message the page shows after the request. */
  datatype Outcome = NoAction | Done | InvalidInput | NotFound | InsufficientSeats | StorageError

  /** One request to the page. `storageFault` says whether the database
      throws while the booking transaction runs. */
  datatype Request =
    | AddTripRequest(trip: TripForm)
    | ReserveRequest(booking: BookingForm, storageFault: bool)
    | OtherRequest

  /** The `add_trip` guard: the five text fields are trimmed and must be
      truthy (the email must pass the validator instead), date and time are
      taken untrimmed and must be truthy, and the capacity must be positive. */
  predicate TripFormAccepted(f: TripForm, isEmail: string -> bool) {
    && Truthy(Trim(f.driverName))
    && isEmail(Trim(f.driverEmail))
    && Truthy(Trim(f.driverIdafpa))
    && Truthy(Trim(f.fromCity))
    && Truthy(Trim(f.toCity))
    && Truthy(f.tripDate)
    && Truthy(f.tripTime)
    && f.seatsTotal > 0
  }

  /** The `reserve` guard: a positive trip id, truthy trimmed name and AFPA
      id, a valid trimmed email and a positive seat count. */
  predicate BookingFormAccepted(f: BookingForm, isEmail: string -> bool) {
    && f.tripId > 0
    && Truthy(Trim(f.passengerName))
    && isEmail(Trim(f.passengerEmail))
    && Truthy(Trim(f.passengerIdafpa))
    && f.seats > 0
  }

  /** The row that `add_trip` inserts holds the form's values, trimmed where
      the form is trimmed, and no seat taken yet. */
  predicate CarriesTripForm(t: Trip, f: TripForm) {
    && t.driverName == Trim(f.driverName)
    && t.driverEmail == Trim(f.driverEmail)
    && t.driverIdafpa == Trim(f.driverIdafpa)
    && t.fromCity == Trim(f.fromCity)
    && t.toCity == Trim(f.toCity)
    && t.tripDate == f.tripDate
    && t.tripTime == f.tripTime
    && t.seatsTotal == f.seatsTotal
    && t.seatsTaken == 0
  }

  /** The row that `reserve` inserts holds the form's values. */
  predicate CarriesBookingForm(r: Reservation, f: BookingForm) {
    && r.tripId == f.tripId
    && r.passengerName == Trim(f.passengerName)
    && r.passengerEmail == Trim(f.passengerEmail)
    && r.passengerIdafpa == Trim(f.passengerIdafpa)
    && r.seats == f.seats
  }

  /** The trip the booking names exists, and the first row with that id has
      at least the requested number of seats free. */
  predicate Fits(trips: seq<Trip>, f: BookingForm) {
    match FindTrip(trips, f.tripId)
    case None => false
    case Some(i) => f.seats <= Available(trips[i])
  }

  /** `s2` is `s` after some requests: no row removed or reordered, no field of
      a trip changed except `seatsTaken`, which never goes down, reservations
      only appended, and counters never lowered. */
  predicate Extends(s: Store, s2: Store) {
    && |s.trips| <= |s2.trips|
    && (forall i :: 0 <= i < |s.trips| ==>
          && s2.trips[i] == s.trips[i].(seatsTaken := s2.trips[i].seatsTaken)
          && s.trips[i].seatsTaken <= s2.trips[i].seatsTaken)
    && s.reservations <= s2.reservations
    && s.nextTripId <= s2.nextTripId
    && s.nextReservationId <= s2.nextReservationId
  }

  lemma ExtendsTransitive(s1: Store, s2: Store, s3: Store)
    requires Extends(s1, s2) && Extends(s2, s3)
    ensures Extends(s1, s3)
  {
  }

  /** The `add_trip` action: appends one trip built from the form when the
      guard holds, and otherwise leaves the store alone. */
  function AddTrip(s: Store, f: TripForm, isEmail: string -> bool): (res: (Store, Outcome))
    ensures res.1 == Done <==> TripFormAccepted(f, isEmail)
    ensures res.1 != Done ==> res.1 == InvalidInput && res.0 == s
    ensures res.1 == Done ==>
      && |res.0.trips| == |s.trips| + 1
      && res.0.trips[..|s.trips|] == s.trips
      && CarriesTripForm(res.0.trips[|s.trips|], f)
      && res.0.trips[|s.trips|].id == s.nextTripId
      && res.0.nextTripId == s.nextTripId + 1
      && res.0.reservations == s.reservations
      && res.0.nextReservationId == s.nextReservationId
  {
    if TripFormAccepted(f, isEmail) then
      var t := Trip(s.nextTripId, Trim(f.driverName), Trim(f.driverEmail), Trim(f.driverIdafpa),
                    Trim(f.fromCity), Trim(f.toCity), f.tripDate, f.tripTime, f.seatsTotal, 0);
      (s.(trips := s.trips + [t], nextTripId := s.nextTripId + 1), Done)
    else
      (s, InvalidInput)
  }

  /** A trip added to a valid store gets an id no other trip has. */
  lemma AddTripFreshId(s: Store, f: TripForm, isEmail: string -> bool)
    requires Valid(s) && TripFormAccepted(f, isEmail)
    ensures forall i :: 0 <= i < |s.trips| ==> s.trips[i].id != AddTrip(s, f, isEmail).0.trips[|s.trips|].id
  {
  }

  lemma AddTripKeepsValid(s: Store, f: TripForm, isEmail: string -> bool)
    requires Valid(s)
    ensures Valid(AddTrip(s, f, isEmail).0)
  {
    if TripFormAccepted(f, isEmail) {
      var s2 := AddTrip(s, f, isEmail).0;
      AppendTripKeepsValid(s, s2.trips[|s.trips|]);
      assert s2.trips == s.trips + [s2.trips[|s.trips|]];
    }
  }

  /** `UPDATE trips SET seats_taken = seats_taken + n WHERE id = :id`. */
  function RaiseSeatsTaken(trips: seq<Trip>, id: int, n: int): (r: seq<Trip>)
    ensures |r| == |trips|
    ensures forall i :: 0 <= i < |trips| ==> r[i] == trips[i].(seatsTaken := r[i].seatsTaken)
    ensures forall i :: 0 <= i < |trips| ==>
      r[i].seatsTaken == trips[i].seatsTaken + (if trips[i].id == id then n else 0)
  {
    seq(|trips|, i requires 0 <= i < |trips| =>
      if trips[i].id == id then trips[i].(seatsTaken := trips[i].seatsTaken + n) else trips[i])
  }

  /** The write half of `reserve`, as written: insert the reservation, then
      raise the trip's counter by the requested seats, without looking at the
      capacity again. */
  function Commit(s: Store, f: BookingForm): (r: Store)
    ensures |r.reservations| == |s.reservations| + 1
    ensures r.reservations[..|s.reservations|] == s.reservations
    ensures CarriesBookingForm(r.reservations[|s.reservations|], f)
    ensures r.reservations[|s.reservations|].id == s.nextReservationId
    ensures r.nextReservationId == s.nextReservationId + 1 && r.nextTripId == s.nextTripId
    ensures |r.trips| == |s.trips|
    ensures r.trips == RaiseSeatsTaken(s.trips, f.tripId, f.seats)
  {
    var row := Reservation(s.nextReservationId, f.tripId, Trim(f.passengerName),
                           Trim(f.passengerEmail), Trim(f.passengerIdafpa), f.seats);
    assert (s.reservations + [row])[..|s.reservations|] == s.reservations;
    Store(RaiseSeatsTaken(s.trips, f.tripId, f.seats), s.reservations + [row],
          s.nextTripId, s.nextReservationId + 1)
  }

  /** Whatever the store, the write moves each trip's counter exactly as far
      as the seats its reservations gain. */
  lemma CommitKeepsDrift(s: Store, f: BookingForm)
    ensures var r := Commit(s, f);
      forall i :: 0 <= i < |s.trips| ==>
        r.trips[i].seatsTaken - SeatsReserved(r.reservations, r.trips[i].id)
        == s.trips[i].seatsTaken - SeatsReserved(s.reservations, s.trips[i].id)
  {
    var r := Commit(s, f);
    SeatsReservedAppend(s.reservations, r.reservations[|s.reservations|]);
    assert r.reservations == s.reservations + [r.reservations[|s.reservations|]];
  }

  /** The write only appends and raises, for a non-negative seat count. */
  lemma CommitExtends(s: Store, f: BookingForm)
    requires f.seats >= 0
    ensures Extends(s, Commit(s, f))
  {
    var r := Commit(s, f);
    assert r.trips == RaiseSeatsTaken(s.trips, f.tripId, f.seats);
    forall i | 0 <= i < |s.trips|
      ensures r.trips[i] == s.trips[i].(seatsTaken := r.trips[i].seatsTaken)
      ensures s.trips[i].seatsTaken <= r.trips[i].seatsTaken
    {
    }
    assert s.reservations <= r.reservations;
  }

  /** Raising one trip's counter leaves ids and capacities where they were. */
  lemma RaiseKeepsTripRows(trips: seq<Trip>, nextTripId: int, id: int, n: int)
    requires TripRowsValid(trips, nextTripId)
    ensures TripRowsValid(RaiseSeatsTaken(trips, id, n), nextTripId)
  {
    var r := RaiseSeatsTaken(trips, id, n);
    assert forall i :: 0 <= i < |trips| ==> r[i].id == trips[i].id && r[i].seatsTotal == trips[i].seatsTotal;
  }

  /** A new reservation under the next id, for an existing trip and a
      positive seat count, keeps the reservation rows valid. */
  lemma BookingKeepsReservationRows(s: Store, row: Reservation, trips2: seq<Trip>)
    requires ReservationRowsValid(s.trips, s.reservations, s.nextReservationId)
    requires row.id == s.nextReservationId && row.seats > 0 && HasTrip(s.trips, row.tripId)
    requires |trips2| == |s.trips| && forall i :: 0 <= i < |s.trips| ==> trips2[i].id == s.trips[i].id
    ensures ReservationRowsValid(trips2, s.reservations + [row], s.nextReservationId + 1)
  {
    var rs := s.reservations + [row];
    forall k | 0 <= k < |rs|
      ensures 0 < rs[k].id < s.nextReservationId + 1 && rs[k].seats > 0
      ensures HasTrip(trips2, rs[k].tripId)
    {
      if k < |s.reservations| {
        assert rs[k] == s.reservations[k];
      }
      assert HasTrip(s.trips, rs[k].tripId);
      var i :| 0 <= i < |s.trips| && s.trips[i].id == rs[k].tripId;
      assert trips2[i].id == rs[k].tripId;
    }
    forall k, l | 0 <= k < l < |rs|
      ensures rs[k].id != rs[l].id
    {
      assert rs[k] == s.reservations[k];
    }
  }

  /** Raising the booked trip by the seats of the appended reservation keeps
      every trip balanced, provided the booked trip had room. */
  lemma BookingKeepsBalance(s: Store, row: Reservation, j: nat)
    requires Valid(s)
    requires row.seats > 0 && j < |s.trips| && s.trips[j].id == row.tripId
    requires row.seats <= Available(s.trips[j])
    ensures AllBalanced(RaiseSeatsTaken(s.trips, row.tripId, row.seats), s.reservations + [row])
  {
    var r := RaiseSeatsTaken(s.trips, row.tripId, row.seats);
    SeatsReservedAppend(s.reservations, row);
    forall i | 0 <= i < |r|
      ensures Balanced(r[i], s.reservations + [row])
    {
      assert Balanced(s.trips[i], s.reservations);
      if s.trips[i].id == row.tripId {
        assert i == j;
      }
    }
  }

  /** The write keeps trip ids, capacities and the trip counter valid. */
  lemma CommitKeepsTripRows(s: Store, f: BookingForm)
    requires TripRowsValid(s.trips, s.nextTripId)
    ensures TripRowsValid(Commit(s, f).trips, Commit(s, f).nextTripId)
  {
    RaiseKeepsTripRows(s.trips, s.nextTripId, f.tripId, f.seats);
  }

  /** The write keeps the reservation rows valid when the booking names an
      existing trip and a positive seat count. */
  lemma CommitKeepsReservationRows(s: Store, f: BookingForm)
    requires ReservationRowsValid(s.trips, s.reservations, s.nextReservationId)
    requires f.seats > 0 && HasTrip(s.trips, f.tripId)
    ensures var r := Commit(s, f); ReservationRowsValid(r.trips, r.reservations, r.nextReservationId)
  {
    var r := Commit(s, f);
    var row := r.reservations[|s.reservations|];
    assert r.reservations == s.reservations + [row];
    BookingKeepsReservationRows(s, row, r.trips);
  }

  /** The write keeps every trip balanced when the booking fit. */
  lemma CommitKeepsBalance(s: Store, f: BookingForm)
    requires Valid(s) && f.seats > 0 && Fits(s.trips, f)
    ensures AllBalanced(Commit(s, f).trips, Commit(s, f).reservations)
  {
    var r := Commit(s, f);
    var j := FindTrip(s.trips, f.tripId).value;
    var row := r.reservations[|s.reservations|];
    assert r.reservations == s.reservations + [row];
    BookingKeepsBalance(s, row, j);
  }

  /** Committing a booking that was checked against the same store keeps it valid. */
  lemma CommitKeepsValid(s: Store, f: BookingForm)
    requires Valid(s) && f.seats > 0 && Fits(s.trips, f)
    ensures Valid(Commit(s, f))
  {
    CommitKeepsTripRows(s, f);
    CommitKeepsReservationRows(s, f);
    CommitKeepsBalance(s, f);
  }

  /** The write half made safe: the capacity is checked again on the row
      being updated, in the same atomic step as the update (a conditional
      `UPDATE ... WHERE seats_taken + n <= seats_total`), and the booking is
      written only if that check passes. Applied to any valid store, whatever
      store the booking was checked against, it leaves the store valid. */
  function CommitGuarded(s: Store, f: BookingForm): (res: (Store, bool))
    ensures res.1 <==> f.seats > 0 && Fits(s.trips, f)
    ensures res.1 ==> res.0 == Commit(s, f)
    ensures !res.1 ==> res.0 == s
    ensures Valid(s) ==> Valid(res.0)
  {
    if f.seats > 0 && Fits(s.trips, f) then
      assert Valid(s) ==> Valid(Commit(s, f)) by {
        if Valid(s) {
          CommitKeepsValid(s, f);
        }
      }
      (Commit(s, f), true)
    else
      (s, false)
  }

  /** The read half of `reserve`, before `beginTransaction`: validate the form, look the
      trip up and compare the request with the seats left. */
  function Decide(s: Store, f: BookingForm, isEmail: string -> bool): (o: Outcome)
    ensures o == InvalidInput <==> !BookingFormAccepted(f, isEmail)
    ensures o == NotFound <==> BookingFormAccepted(f, isEmail) && !HasTrip(s.trips, f.tripId)
    ensures o == InsufficientSeats <==>
      BookingFormAccepted(f, isEmail) && HasTrip(s.trips, f.tripId) && !Fits(s.trips, f)
    ensures o == Done <==> BookingFormAccepted(f, isEmail) && Fits(s.trips, f)
  {
    if !BookingFormAccepted(f, isEmail) then InvalidInput
    else match FindTrip(s.trips, f.tripId)
      case None => NotFound
      case Some(i) => if f.seats <= Available(s.trips[i]) then Done else InsufficientSeats
  }

  /** The `reserve` action, with read and write taken as one atomic step.
      Every failure leaves the store as it was; success appends one
      reservation and raises the booked trip's counter by the seats asked for. */
  function Reserve(s: Store, f: BookingForm, isEmail: string -> bool, storageFault: bool): (res: (Store, Outcome))
    ensures !BookingFormAccepted(f, isEmail) ==> res == (s, InvalidInput)
    ensures BookingFormAccepted(f, isEmail) && !HasTrip(s.trips, f.tripId) ==> res == (s, NotFound)
    ensures BookingFormAccepted(f, isEmail) && HasTrip(s.trips, f.tripId) && !Fits(s.trips, f)
            ==> res == (s, InsufficientSeats)
    ensures res.1 == StorageError <==> BookingFormAccepted(f, isEmail) && Fits(s.trips, f) && storageFault
    ensures res.1 == Done <==> BookingFormAccepted(f, isEmail) && Fits(s.trips, f) && !storageFault
    ensures res.1 != Done ==> res.0 == s
    ensures res.1 == Done ==> res.0 == Commit(s, f)
  {
    var o := Decide(s, f, isEmail);
    if o != Done then (s, o)
    else if storageFault then (s, StorageError)
    else (Commit(s, f), Done)
  }

  /** A successful booking appends one reservation carrying the form and
      raises the booked trip's counter, and only its counter, by the seats
      asked for. */
  lemma ReserveSuccess(s: Store, f: BookingForm, isEmail: string -> bool, storageFault: bool)
    requires Reserve(s, f, isEmail, storageFault).1 == Done
    ensures var r := Reserve(s, f, isEmail, storageFault).0;
      && |r.reservations| == |s.reservations| + 1
      && r.reservations[..|s.reservations|] == s.reservations
      && CarriesBookingForm(r.reservations[|s.reservations|], f)
      && |r.trips| == |s.trips|
      && (forall i :: 0 <= i < |s.trips| ==> r.trips[i] == s.trips[i].(seatsTaken := r.trips[i].seatsTaken))
      && (forall i :: 0 <= i < |s.trips| ==>
            r.trips[i].seatsTaken == s.trips[i].seatsTaken + (if s.trips[i].id == f.tripId then f.seats else 0))
  {
    var r := Reserve(s, f, isEmail, storageFault).0;
    assert r == Commit(s, f);
    assert r.trips == RaiseSeatsTaken(s.trips, f.tripId, f.seats);
  }

  /** A booking only appends a reservation and raises a counter. */
  lemma ReserveExtends(s: Store, f: BookingForm, isEmail: string -> bool, storageFault: bool)
    ensures Extends(s, Reserve(s, f, isEmail, storageFault).0)
  {
    if Reserve(s, f, isEmail, storageFault).1 == Done {
      assert BookingFormAccepted(f, isEmail);
      CommitExtends(s, f);
    }
  }

  /** A booking request keeps a valid store valid. */
  lemma ReserveKeepsValid(s: Store, f: BookingForm, isEmail: string -> bool, storageFault: bool)
    requires Valid(s)
    ensures Valid(Reserve(s, f, isEmail, storageFault).0)
  {
    if Reserve(s, f, isEmail, storageFault).1 == Done {
      CommitKeepsValid(s, f);
    }
  }

  /** In a valid store, asking for more seats than the named trip has left
      fails with nothing written, and asking for at most that many succeeds
      unless the database throws. */
  lemma ReserveAgainstCapacity(s: Store, f: BookingForm, isEmail: string -> bool, storageFault: bool, i: int)
    requires Valid(s) && 0 <= i < |s.trips| && s.trips[i].id == f.tripId
    requires BookingFormAccepted(f, isEmail)
    ensures f.seats > Available(s.trips[i]) ==> Reserve(s, f, isEmail, storageFault) == (s, InsufficientSeats)
    ensures f.seats <= Available(s.trips[i]) && !storageFault ==>
      && Reserve(s, f, isEmail, storageFault).1 == Done
      && Reserve(s, f, isEmail, storageFault).0.trips[i].seatsTaken == s.trips[i].seatsTaken + f.seats
  {
    FindTripInValid(s, i);
    if f.seats <= Available(s.trips[i]) && !storageFault {
      assert Reserve(s, f, isEmail, storageFault).0 == Commit(s, f);
    }
  }

  /** One request: `add_trip`, `reserve`, or anything else (a GET, an
      unknown action), which changes nothing. */
  function Handle(s: Store, req: Request, isEmail: string -> bool): (res: (Store, Outcome))
    ensures req.OtherRequest? ==> res == (s, NoAction)
    ensures Extends(s, res.0)
  {
    match req
    case AddTripRequest(f) => AddTrip(s, f, isEmail)
    case ReserveRequest(f, fault) =>
      ReserveExtends(s, f, isEmail, fault);
      Reserve(s, f, isEmail, fault)
    case OtherRequest => (s, NoAction)
  }

  /** Every request keeps a valid store valid. */
  lemma HandleKeepsValid(s: Store, req: Request, isEmail: string -> bool)
    requires Valid(s)
    ensures Valid(Handle(s, req, isEmail).0)
  {
    match req
    case AddTripRequest(f) => AddTripKeepsValid(s, f, isEmail);
    case ReserveRequest(f, fault) => ReserveKeepsValid(s, f, isEmail, fault);
    case OtherRequest =>
  }

  /** A sequence of requests served one after the other. */
  function Run(s: Store, reqs: seq<Request>, isEmail: string -> bool): (r: Store)
    ensures Valid(s) ==> Valid(r)
    ensures Extends(s, r)
    decreases |reqs|
  {
    if |reqs| == 0 then s
    else
      var s1 := Handle(s, reqs[0], isEmail).0;
      assert Valid(s) ==> Valid(s1) by {
        if Valid(s) {
          HandleKeepsValid(s, reqs[0], isEmail);
        }
      }
      var r := Run(s1, reqs[1..], isEmail);
      ExtendsTransitive(s, s1, r);
      r
  }
}
