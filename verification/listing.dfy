/** What the page shows after every request: all trips ordered by date then
    time, each with a booking form unless it has no seat left. */
module Listing {
  import opened TextOrder
  import opened Schema
  import opened Requests

  /** `ORDER BY trip_date ASC, trip_time ASC`: `a` may come before `b`. */
  predicate ListedBefore(a: Trip, b: Trip) {
    && LexLe(a.tripDate, b.tripDate)
    && (a.tripDate == b.tripDate ==> LexLe(a.tripTime, b.tripTime))
  }

  lemma ListedBeforeTotal(a: Trip, b: Trip)
    ensures ListedBefore(a, b) || ListedBefore(b, a)
  {
    LexLeTotal(a.tripDate, b.tripDate);
    LexLeTotal(a.tripTime, b.tripTime);
  }

  lemma ListedBeforeTransitive(a: Trip, b: Trip, c: Trip)
    requires ListedBefore(a, b) && ListedBefore(b, c)
    ensures ListedBefore(a, c)
  {
    LexLeTransitive(a.tripDate, b.tripDate, c.tripDate);
    if a.tripDate == c.tripDate {
      LexLeAntisymmetric(a.tripDate, b.tripDate);
      LexLeTransitive(a.tripTime, b.tripTime, c.tripTime);
    }
  }

  /** Every trip is listed at or after all trips before it. */
  predicate InListingOrder(l: seq<Trip>) {
    forall i, j :: 0 <= i < j < |l| ==> ListedBefore(l[i], l[j])
  }

  /** Puts `t` into an ordered list, keeping the order. */
  function Insert(t: Trip, l: seq<Trip>): (r: seq<Trip>)
    requires InListingOrder(l)
    ensures InListingOrder(r)
    ensures multiset(r) == multiset(l) + multiset{t}
    ensures forall x :: x in r ==> x == t || x in l
    decreases |l|
  {
    if |l| == 0 then [t]
    else if ListedBefore(t, l[0]) then
      assert forall j :: 0 <= j < |l| ==> ListedBefore(t, l[j]) by {
        forall j | 0 <= j < |l|
          ensures ListedBefore(t, l[j])
        {
          if j > 0 {
            ListedBeforeTransitive(t, l[0], l[j]);
          }
        }
      }
      [t] + l
    else
      ListedBeforeTotal(t, l[0]);
      var rest := Insert(t, l[1..]);
      assert l == [l[0]] + l[1..];
      assert forall x :: x in rest ==> ListedBefore(l[0], x) by {
        forall x | x in rest
          ensures ListedBefore(l[0], x)
        {
          if x != t {
            var k :| 0 <= k < |l[1..]| && l[1..][k] == x;
            assert l[k + 1] == x;
          }
        }
      }
      [l[0]] + rest
  }

  /** The page's listing query: the stored trips, every one of them once,
      in date-then-time order. Rows with equal date and time may come in any
      order in SQL; this one keeps them in insertion order. */
  function ListTrips(trips: seq<Trip>): (r: seq<Trip>)
    ensures InListingOrder(r)
    ensures multiset(r) == multiset(trips)
    decreases |trips|
  {
    if |trips| == 0 then []
    else
      assert trips == [trips[0]] + trips[1..];
      Insert(trips[0], ListTrips(trips[1..]))
  }

  /** A listed trip offers the booking form exactly when it has a seat left
      (`$available > 0`); otherwise it shows the "Complet" badge. */
  predicate OffersBooking(t: Trip) {
    Available(t) > 0
  }

  /** In a valid store a trip shows as full exactly when every seat is taken. */
  lemma FullMeansEverySeatTaken(s: Store, i: int)
    requires Valid(s) && 0 <= i < |s.trips|
    ensures !OffersBooking(s.trips[i]) <==> s.trips[i].seatsTaken == s.trips[i].seatsTotal
  {
    assert Balanced(s.trips[i], s.reservations);
  }

  /** Full is final: once a trip shows as full, it shows as full after any
      further requests. */
  lemma FullStaysFull(s: Store, reqs: seq<Request>, isEmail: string -> bool, i: int)
    requires 0 <= i < |s.trips| && !OffersBooking(s.trips[i])
    ensures var r := Run(s, reqs, isEmail);
      i < |r.trips| && r.trips[i].id == s.trips[i].id && !OffersBooking(r.trips[i])
  {
  }

  /** Whatever requests came before, no listed trip shows a negative or
      over-capacity count of free seats. */
  lemma ListedSeatsInRange(reqs: seq<Request>, isEmail: string -> bool, k: int)
    requires 0 <= k < |Run(EmptyStore(), reqs, isEmail).trips|
    ensures var t := ListTrips(Run(EmptyStore(), reqs, isEmail).trips)[k];
      0 <= Available(t) <= t.seatsTotal
  {
    var s := Run(EmptyStore(), reqs, isEmail);
    var l := ListTrips(s.trips);
    assert |l| == |multiset(l)| == |s.trips|;
    assert l[k] in multiset(s.trips);
    var i :| 0 <= i < |s.trips| && s.trips[i] == l[k];
    assert Balanced(s.trips[i], s.reservations);
  }
}
