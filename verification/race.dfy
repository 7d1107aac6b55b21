/** Concurrent bookings. In the source the capacity check (the comparison of
    `seats` with `seats_total - seats_taken`) runs before `beginTransaction`,
    and the `UPDATE trips SET seats_taken = seats_taken + :seats` adds
    to the counter without checking again, so requests that read the store
    before any of them writes can all pass the check. Here a batch of
    bookings that all passed the check on one snapshot is committed one after
    another, which is the worst interleaving of that code. */
module Race {
  import opened PhpString
  import opened Schema
  import opened Requests

  /** Every booking of the batch passed the check on the snapshot. */
  predicate AllPassed(snapshot: Store, fs: seq<BookingForm>, isEmail: string -> bool) {
    forall k :: 0 <= k < |fs| ==> Decide(snapshot, fs[k], isEmail) == Done
  }

  /** The batch as written: each booking is committed to the store as it
      stands by then. The counter update is relative, so no booking is lost
      from it, whatever the interleaving. */
  function CommitRaced(current: Store, fs: seq<BookingForm>): (r: Store)
    ensures |r.trips| == |current.trips|
    ensures forall i :: 0 <= i < |current.trips| ==>
      && r.trips[i].id == current.trips[i].id
      && r.trips[i].seatsTaken - SeatsReserved(r.reservations, r.trips[i].id)
         == current.trips[i].seatsTaken - SeatsReserved(current.reservations, current.trips[i].id)
    decreases |fs|
  {
    if |fs| == 0 then current
    else
      CommitKeepsDrift(current, fs[0]);
      CommitRaced(Commit(current, fs[0]), fs[1..])
  }

  /** The same batch with the capacity re-checked inside the write: a
      booking that no longer fits is turned away. */
  function CommitGuardedRaced(current: Store, fs: seq<BookingForm>): (r: Store)
    ensures |r.trips| == |current.trips|
    ensures current.reservations <= r.reservations
    ensures |r.reservations| <= |current.reservations| + |fs|
    decreases |fs|
  {
    if |fs| == 0 then current
    else CommitGuardedRaced(CommitGuarded(current, fs[0]).0, fs[1..])
  }

  /** However the guarded bookings interleave, a valid store stays valid. */
  lemma {:induction false} GuardedBatchKeepsValid(current: Store, fs: seq<BookingForm>)
    requires Valid(current)
    ensures Valid(CommitGuardedRaced(current, fs))
    decreases |fs|
  {
    if |fs| > 0 {
      GuardedBatchKeepsValid(CommitGuarded(current, fs[0]).0, fs[1..]);
    }
  }

  /** As written, a racing batch still keeps every counter equal to the
      seats its reservations hold: what breaks is only the capacity bound. */
  lemma RacedBatchKeepsCounts(s: Store, fs: seq<BookingForm>)
    requires Valid(s)
    ensures var r := CommitRaced(s, fs);
      forall i :: 0 <= i < |r.trips| ==> r.trips[i].seatsTaken == SeatsReserved(r.reservations, r.trips[i].id)
  {
    var r := CommitRaced(s, fs);
    forall i | 0 <= i < |r.trips|
      ensures r.trips[i].seatsTaken == SeatsReserved(r.reservations, r.trips[i].id)
    {
      assert Balanced(s.trips[i], s.reservations);
    }
  }

  /** One trip, Paris to Lyon, three seats, none taken. */
  function ThreeSeatStore(): (s: Store)
    ensures Valid(s) && |s.trips| == 1 && Available(s.trips[0]) == 3
  {
    Store([Trip(1, "Alice", "alice@example.org", "A100", "Paris", "Lyon", "2024-06-01", "08:00", 3, 0)],
          [], 2, 1)
  }

  /** A request for two seats on trip 1. */
  function TwoSeatBooking(): BookingForm {
    BookingForm(1, "Bob", "bob@example.org", "B200", 2)
  }

  /** The booking passes the check on the three-seat trip whenever the
      validator accepts its email. */
  lemma TwoSeatBookingPasses(isEmail: string -> bool)
    requires isEmail("bob@example.org")
    ensures Decide(ThreeSeatStore(), TwoSeatBooking(), isEmail) == Done
  {
    TrimKeepsClean("Bob");
    TrimKeepsClean("B200");
    TrimKeepsClean("bob@example.org");
    assert BookingFormAccepted(TwoSeatBooking(), isEmail);
    assert FindTrip(ThreeSeatStore().trips, 1) == Some(0);
  }

  /** Two such requests that both read the three-seat trip before either
      writes both pass the check and both commit: four seats taken out of
      three. */
  lemma RacedBookingsOverbook(isEmail: string -> bool)
    requires isEmail("bob@example.org")
    ensures AllPassed(ThreeSeatStore(), Copies(TwoSeatBooking(), 2), isEmail)
    ensures var r := CommitRaced(ThreeSeatStore(), Copies(TwoSeatBooking(), 2));
      && |r.reservations| == 2
      && r.trips[0].seatsTaken == 4
      && r.trips[0].seatsTotal == 3
      && !Valid(r)
  {
    TwoSeatBookingPasses(isEmail);
    RacedPairOverbooks();
  }

  /** Both are written: two reservations, four seats taken out of three, and
      a store that no longer satisfies the invariant. */
  lemma RacedPairOverbooks()
    ensures var r := CommitRaced(ThreeSeatStore(), Copies(TwoSeatBooking(), 2));
      && |r.reservations| == 2
      && r.trips[0].seatsTaken == 4
      && r.trips[0].seatsTotal == 3
      && !Valid(r)
  {
    var s := ThreeSeatStore();
    var fs := Copies(TwoSeatBooking(), 2);
    RacedBatchCommitsAll(s, fs);
    RacedBatchTakesAll(s, fs, 1, 0);
    CopiesAsk(TwoSeatBooking(), 2);
    var r := CommitRaced(s, fs);
    assert !Balanced(r.trips[0], r.reservations);
  }

  /** With the re-check in the write, the same race leaves the second request
      out: two seats taken, one reservation, the store still valid. */
  lemma GuardedRaceTurnsSecondAway()
    ensures var r := CommitGuardedRaced(ThreeSeatStore(), Copies(TwoSeatBooking(), 2));
      && r.trips[0].seatsTaken == 2
      && |r.reservations| == 1
      && Valid(r)
  {
    var s := ThreeSeatStore();
    var f := TwoSeatBooking();
    assert FindTrip(s.trips, 1) == Some(0);
    GuardedCopiesCount(s, f, 2, 0);
    GuardedCopiesTake(s, f, 2, 0);
    GuardedBatchKeepsValid(s, Copies(f, 2));
    assert GreedyCount(1, 2, 1) == 0 && GreedySeats(1, 2, 1) == 0;
  }

  /** `n` copies of the same booking, as sent by `n` concurrent clients. */
  function Copies(f: BookingForm, n: nat): (fs: seq<BookingForm>)
    ensures |fs| == n && forall k :: 0 <= k < n ==> fs[k] == f
  {
    seq(n, _ => f)
  }

  /** Seats asked for by a batch of bookings. */
  function SeatsAsked(fs: seq<BookingForm>): int
    decreases |fs|
  {
    if |fs| == 0 then 0 else fs[0].seats + SeatsAsked(fs[1..])
  }

  /** As written, every booking of the batch is committed, whatever was
      committed before it. */
  lemma {:induction false} RacedBatchCommitsAll(current: Store, fs: seq<BookingForm>)
    ensures |CommitRaced(current, fs).reservations| == |current.reservations| + |fs|
    decreases |fs|
  {
    if |fs| > 0 {
      RacedBatchCommitsAll(Commit(current, fs[0]), fs[1..]);
    }
  }

  /** So the trip's counter rises by all the seats the batch asks for,
      however few were left, while its capacity stays the same. */
  lemma {:induction false} RacedBatchTakesAll(current: Store, fs: seq<BookingForm>, id: int, j: int)
    requires forall k :: 0 <= k < |fs| ==> fs[k].tripId == id
    requires 0 <= j < |current.trips| && current.trips[j].id == id
    ensures var r := CommitRaced(current, fs);
      && r.trips[j].seatsTaken == current.trips[j].seatsTaken + SeatsAsked(fs)
      && r.trips[j].seatsTotal == current.trips[j].seatsTotal
    decreases |fs|
  {
    if |fs| > 0 {
      var next := Commit(current, fs[0]);
      assert next.trips[j].seatsTaken == current.trips[j].seatsTaken + fs[0].seats;
      RacedBatchTakesAll(next, fs[1..], id, j);
    }
  }

  /** How `n` requests for `seats` each fare, one after another, against
      `available` free seats when every request is checked against what is
      left: the number let through. */
  function GreedyCount(available: int, seats: int, n: nat): int
    decreases n
  {
    if n == 0 || seats > available then 0 else 1 + GreedyCount(available - seats, seats, n - 1)
  }

  /** The seats those requests take between them. */
  function GreedySeats(available: int, seats: int, n: nat): int
    decreases n
  {
    if n == 0 || seats > available then 0 else seats + GreedySeats(available - seats, seats, n - 1)
  }

  /** The guarded batch of copies takes its first booking, then the rest. */
  lemma GuardedCopiesStep(current: Store, f: BookingForm, n: nat)
    requires n > 0
    ensures CommitGuardedRaced(current, Copies(f, n))
            == CommitGuardedRaced(CommitGuarded(current, f).0, Copies(f, n - 1))
  {
    assert Copies(f, n)[1..] == Copies(f, n - 1);
  }

  /** A guarded booking that fits adds one reservation and its seats to the
      trip, which stays where the lookup finds it. */
  lemma GuardedFitStep(current: Store, f: BookingForm, j: int)
    requires f.seats > 0
    requires 0 <= j < |current.trips| && FindTrip(current.trips, f.tripId) == Some(j)
    requires f.seats <= Available(current.trips[j])
    ensures var g := CommitGuarded(current, f).0;
      && |g.trips| == |current.trips|
      && FindTrip(g.trips, f.tripId) == Some(j)
      && |g.reservations| == |current.reservations| + 1
      && g.trips[j].seatsTaken == current.trips[j].seatsTaken + f.seats
      && g.trips[j].seatsTotal == current.trips[j].seatsTotal
  {
    var g := CommitGuarded(current, f).0;
    assert g == Commit(current, f);
    FindTripSameIds(current.trips, g.trips, f.tripId);
  }

  /** With the re-check in the write, `n` overlapping copies of a booking
      fare exactly as if each were checked against the seats left: as many
      go through as fit, and no more. */
  lemma {:induction false} GuardedCopiesCount(current: Store, f: BookingForm, n: nat, j: int)
    requires f.seats > 0
    requires 0 <= j < |current.trips| && FindTrip(current.trips, f.tripId) == Some(j)
    ensures |CommitGuardedRaced(current, Copies(f, n)).reservations|
            == |current.reservations| + GreedyCount(Available(current.trips[j]), f.seats, n)
    decreases n
  {
    if n > 0 {
      GuardedCopiesStep(current, f, n);
      if f.seats <= Available(current.trips[j]) {
        GuardedFitStep(current, f, j);
        GuardedCopiesCount(CommitGuarded(current, f).0, f, n - 1, j);
      } else {
        GuardedCopiesCount(current, f, n - 1, j);
      }
    }
  }

  /** ... and the trip's counter rises by exactly the seats of those that
      went through. */
  lemma {:induction false} GuardedCopiesTake(current: Store, f: BookingForm, n: nat, j: int)
    requires f.seats > 0
    requires 0 <= j < |current.trips| && FindTrip(current.trips, f.tripId) == Some(j)
    ensures CommitGuardedRaced(current, Copies(f, n)).trips[j].seatsTaken
            == current.trips[j].seatsTaken + GreedySeats(Available(current.trips[j]), f.seats, n)
    decreases n
  {
    if n > 0 {
      GuardedCopiesStep(current, f, n);
      if f.seats <= Available(current.trips[j]) {
        GuardedFitStep(current, f, j);
        GuardedCopiesTake(CommitGuarded(current, f).0, f, n - 1, j);
      } else {
        GuardedCopiesTake(current, f, n - 1, j);
      }
    }
  }

  /** Five free seats and requests for two: two go through, taking four. */
  lemma GreedyFiveByTwo(n: nat)
    requires n >= 2
    ensures GreedyCount(5, 2, n) == 2 && GreedySeats(5, 2, n) == 4
  {
    assert GreedyCount(1, 2, n - 2) == 0 && GreedySeats(1, 2, n - 2) == 0;
    assert GreedyCount(3, 2, n - 1) == 1 && GreedySeats(3, 2, n - 1) == 2;
  }

  lemma {:induction false} CopiesAsk(f: BookingForm, n: nat)
    ensures SeatsAsked(Copies(f, n)) == n * f.seats
    decreases n
  {
    if n > 0 {
      assert Copies(f, n)[1..] == Copies(f, n - 1);
      CopiesAsk(f, n - 1);
      assert n * f.seats == f.seats + (n - 1) * f.seats;
    }
  }

  /** Five seats and `n` concurrent requests for two that all read the trip
      before any writes, as written: every request passes the check and
      `2 * n` seats are taken. */
  lemma FiveSeatsRaced(s: Store, f: BookingForm, n: nat, isEmail: string -> bool)
    requires 0 < |s.trips| && FindTrip(s.trips, f.tripId) == Some(0)
    requires s.trips[0].seatsTotal == 5 && s.trips[0].seatsTaken == 0
    requires f.seats == 2 && BookingFormAccepted(f, isEmail)
    ensures AllPassed(s, Copies(f, n), isEmail)
    ensures CommitRaced(s, Copies(f, n)).trips[0].seatsTaken == 2 * n
  {
    assert Decide(s, f, isEmail) == Done;
    RacedBatchTakesAll(s, Copies(f, n), f.tripId, 0);
    CopiesAsk(f, n);
  }

  /** The same with the re-check in the write: exactly two requests go
      through and four seats are taken, however many arrive. */
  lemma FiveSeatsGuarded(s: Store, f: BookingForm, n: nat)
    requires 0 < |s.trips| && FindTrip(s.trips, f.tripId) == Some(0)
    requires s.trips[0].seatsTotal == 5 && s.trips[0].seatsTaken == 0
    requires f.seats == 2
    requires n >= 2
    ensures var r := CommitGuardedRaced(s, Copies(f, n));
      |r.reservations| == |s.reservations| + 2 && r.trips[0].seatsTaken == 4
  {
    GuardedCopiesCount(s, f, n, 0);
    GuardedCopiesTake(s, f, n, 0);
    GreedyFiveByTwo(n);
  }
}
