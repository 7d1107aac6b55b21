/** The two tables the application keeps, `trips` and `reservations`, with
    their auto-increment counters, and the invariant that ties them together. */
module Schema {

  datatype Option<T> = None | Some(value: T)

  /** A row of `trips`. `seatsTaken` is never written by the insert and
      starts from the column default, taken here to be 0. */
  datatype Trip = Trip(
    id: int,
    driverName: string,
    driverEmail: string,
    driverIdafpa: string,
    fromCity: string,
    toCity: string,
    tripDate: string,
    tripTime: string,
    seatsTotal: int,
    seatsTaken: int)

  /** A row of `reservations`. */
  datatype Reservation = Reservation(
    id: int,
    tripId: int,
    passengerName: string,
    passengerEmail: string,
    passengerIdafpa: string,
    seats: int)

  /** Both tables, in insertion order, and the id each auto-increment column
      hands out next. */
  datatype Store = Store(
    trips: seq<Trip>,
    reservations: seq<Reservation>,
    nextTripId: int,
    nextReservationId: int)

  /** Seats still free on a trip: `seats_total - seats_taken`. */
  function Available(t: Trip): int {
    t.seatsTotal - t.seatsTaken
  }

  /** Some row of `trips` has this id. */
  predicate HasTrip(trips: seq<Trip>, id: int) {
    exists i :: 0 <= i < |trips| && trips[i].id == id
  }

  /** `SELECT * FROM trips WHERE id = :id` followed by `fetch()`: the position
      of the first row with that id, if any. */
  function FindTrip(trips: seq<Trip>, id: int): (r: Option<nat>)
    ensures r.None? <==> !HasTrip(trips, id)
    ensures r.Some? ==> r.value < |trips| && trips[r.value].id == id
    ensures r.Some? ==> forall j :: 0 <= j < r.value ==> trips[j].id != id
  {
    if |trips| == 0 then None
    else if trips[0].id == id then Some(0)
    else match FindTrip(trips[1..], id)
      case None =>
        assert forall j :: 1 <= j < |trips| ==> trips[j] == trips[1..][j - 1];
        None
      case Some(k) => Some(k + 1)
  }

  /** Sum of `seats` over the reservations of one trip. */
  function SeatsReserved(rs: seq<Reservation>, tripId: int): int
  {
    if |rs| == 0 then 0
    else SeatsReserved(rs[..|rs| - 1], tripId)
         + (if rs[|rs| - 1].tripId == tripId then rs[|rs| - 1].seats else 0)
  }

  /** Appending one reservation adds its seats to its own trip's sum and to
      no other. */
  lemma SeatsReservedAppend(rs: seq<Reservation>, r: Reservation)
    ensures forall id :: SeatsReserved(rs + [r], id)
                         == SeatsReserved(rs, id) + (if r.tripId == id then r.seats else 0)
  {
    assert (rs + [r])[..|rs|] == rs;
  }

  /** A trip nobody has booked has no seats reserved. */
  lemma {:induction false} SeatsReservedAbsent(rs: seq<Reservation>, id: int)
    requires forall k :: 0 <= k < |rs| ==> rs[k].tripId != id
    ensures SeatsReserved(rs, id) == 0
  {
    if |rs| > 0 {
      SeatsReservedAbsent(rs[..|rs| - 1], id);
    }
  }

  /** The seat accounting of one trip: the counter lies within capacity and
      equals the seats its reservations hold. */
  predicate Balanced(t: Trip, rs: seq<Reservation>) {
    0 <= t.seatsTaken <= t.seatsTotal && t.seatsTaken == SeatsReserved(rs, t.id)
  }

  /** The counter is positive; trip ids are positive, unique and below it;
      every capacity is positive. */
  predicate TripRowsValid(trips: seq<Trip>, nextTripId: int) {
    && 0 < nextTripId
    && (forall i :: 0 <= i < |trips| ==> 0 < trips[i].id < nextTripId && trips[i].seatsTotal > 0)
    && (forall i, j :: 0 <= i < j < |trips| ==> trips[i].id != trips[j].id)
  }

  /** The counter is positive; reservation ids are positive, unique and
      below it; every reservation books a positive number of seats on an
      existing trip. */
  predicate ReservationRowsValid(trips: seq<Trip>, rs: seq<Reservation>, nextReservationId: int) {
    && 0 < nextReservationId
    && (forall k :: 0 <= k < |rs| ==>
          && 0 < rs[k].id < nextReservationId
          && rs[k].seats > 0
          && HasTrip(trips, rs[k].tripId))
    && (forall k, l :: 0 <= k < l < |rs| ==> rs[k].id != rs[l].id)
  }

  predicate AllBalanced(trips: seq<Trip>, rs: seq<Reservation>) {
    forall i :: 0 <= i < |trips| ==> Balanced(trips[i], rs)
  }

  /** What every reachable store satisfies. */
  predicate Valid(s: Store) {
    && TripRowsValid(s.trips, s.nextTripId)
    && ReservationRowsValid(s.trips, s.reservations, s.nextReservationId)
    && AllBalanced(s.trips, s.reservations)
  }

  /** Appending a trip under the next id with a positive capacity keeps the
      trip rows valid. */
  lemma AppendTripKeepsTripRows(trips: seq<Trip>, nextTripId: int, t: Trip)
    requires TripRowsValid(trips, nextTripId)
    requires t.id == nextTripId && t.seatsTotal > 0
    ensures TripRowsValid(trips + [t], nextTripId + 1)
  {
    var trips2 := trips + [t];
    forall i | 0 <= i < |trips2|
      ensures 0 < trips2[i].id < nextTripId + 1 && trips2[i].seatsTotal > 0
    {
      if i < |trips| {
        assert trips2[i] == trips[i];
      }
    }
    forall i, j | 0 <= i < j < |trips2|
      ensures trips2[i].id != trips2[j].id
    {
      if j == |trips| {
        assert trips2[i].id < t.id;
      }
    }
  }

  /** Appending a trip keeps every reservation pointing at a trip, and none
      at the new one. */
  lemma AppendTripKeepsReservationRows(s: Store, t: Trip)
    requires TripRowsValid(s.trips, s.nextTripId)
    requires ReservationRowsValid(s.trips, s.reservations, s.nextReservationId)
    requires t.id == s.nextTripId
    ensures ReservationRowsValid(s.trips + [t], s.reservations, s.nextReservationId)
    ensures forall k :: 0 <= k < |s.reservations| ==> s.reservations[k].tripId != t.id
  {
    var trips := s.trips + [t];
    forall k | 0 <= k < |s.reservations|
      ensures s.reservations[k].tripId != t.id && HasTrip(trips, s.reservations[k].tripId)
    {
      assert HasTrip(s.trips, s.reservations[k].tripId);
      var i :| 0 <= i < |s.trips| && s.trips[i].id == s.reservations[k].tripId;
      assert trips[i].id == s.reservations[k].tripId;
    }
  }

  /** Appending a new trip under the next id, with a positive capacity and no
      seat taken, keeps a valid store valid. */
  lemma AppendTripKeepsValid(s: Store, t: Trip)
    requires Valid(s)
    requires t.id == s.nextTripId && t.seatsTotal > 0 && t.seatsTaken == 0
    ensures Valid(s.(trips := s.trips + [t], nextTripId := s.nextTripId + 1))
  {
    var trips := s.trips + [t];
    AppendTripKeepsTripRows(s.trips, s.nextTripId, t);
    AppendTripKeepsReservationRows(s, t);
    SeatsReservedAbsent(s.reservations, t.id);
    forall i | 0 <= i < |trips|
      ensures Balanced(trips[i], s.reservations)
    {
      if i < |s.trips| {
        assert trips[i] == s.trips[i];
      }
    }
  }

  /** The freshly created database: both tables empty, both counters at 1. */
  function EmptyStore(): (s: Store)
    ensures Valid(s) && |s.trips| == 0 && |s.reservations| == 0
  {
    Store([], [], 1, 1)
  }

  /** In a valid store the lookup by a trip's own id finds that trip. */
  lemma FindTripInValid(s: Store, i: int)
    requires Valid(s) && 0 <= i < |s.trips|
    ensures FindTrip(s.trips, s.trips[i].id) == Some(i)
  {
    assert HasTrip(s.trips, s.trips[i].id);
  }

  /** The lookup reads nothing but the ids. */
  lemma {:induction false} FindTripSameIds(a: seq<Trip>, b: seq<Trip>, id: int)
    requires |a| == |b| && forall i :: 0 <= i < |a| ==> a[i].id == b[i].id
    ensures FindTrip(a, id) == FindTrip(b, id)
    decreases |a|
  {
    if |a| > 0 {
      FindTripSameIds(a[1..], b[1..], id);
    }
  }
}
