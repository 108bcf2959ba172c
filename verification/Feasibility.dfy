/** When a driver and resources can take a job: availability, conflicts and travel between neighbouring reservations. */
module Feasibility {
  import opened Options
  import opened RouteTimetable

  datatype Interval = Interval(startsAt: int, endsAt: int, status: string)

  datatype Driver = Driver(id: string, availability: seq<Interval>)

  datatype Resource = Resource(id: string, kind: string)

  datatype Reservation = Reservation(id: string, startsAt: int, endsAt: int, driverIds: seq<string>,
                                     resourceIds: seq<string>, location: Point)

  datatype Job = Job(kind: string, transportMode: string, externalConfirmed: bool, hackMinutes: int,
                     transportMinutes: int, location: Point)

  /** What the router knows; `legs` holds the travel times from the first point. */
  datatype Travel = Travel(source: string, legs: seq<int>)

  const UNAVAILABLE := Travel("unavailable", [])

  predicate Available(intervals: seq<Interval>, starts: int, ends: int) {
    exists k | 0 <= k < |intervals| ::
      intervals[k].status == "available" && intervals[k].startsAt <= starts && ends <= intervals[k].endsAt
  }

  predicate Shares(a: seq<string>, b: seq<string>) {
    exists k | 0 <= k < |a| :: a[k] in b
  }

  predicate Claims(r: Reservation, starts: int, ends: int, driverId: string, resourceIds: seq<string>) {
    starts < r.endsAt && r.startsAt < ends && (driverId in r.driverIds || Shares(r.resourceIds, resourceIds))
  }

  predicate Conflicts(reservations: seq<Reservation>, starts: int, ends: int, driverId: string, resourceIds: seq<string>) {
    exists k | 0 <= k < |reservations| :: Claims(reservations[k], starts, ends, driverId, resourceIds)
  }

  /** The driver is on duty from the start of the slot to its end without a break. */
  ghost predicate OnDuty(driver: Driver, starts: int, ends: int) {
    exists duty :: duty in driver.availability && duty.status == "available" && duty.startsAt <= starts && ends <= duty.endsAt
  }

  /** Whoever and whatever is booked for a part of the slot is neither the driver nor one of the resources. */
  ghost predicate NotTaken(reservations: seq<Reservation>, starts: int, ends: int, driverId: string, ids: seq<string>) {
    forall r :: r in reservations && r.startsAt < ends && starts < r.endsAt ==>
      driverId !in r.driverIds && forall id :: id in r.resourceIds ==> id !in ids
  }

  lemma AvailableMeansOnDuty(driver: Driver, starts: int, ends: int)
    ensures Available(driver.availability, starts, ends) <==> OnDuty(driver, starts, ends)
  {
    if duty :| duty in driver.availability && duty.status == "available" && duty.startsAt <= starts && ends <= duty.endsAt {
      var k :| 0 <= k < |driver.availability| && driver.availability[k] == duty;
      assert driver.availability[k].status == "available";
    }
  }

  lemma SharesMeansCommon(a: seq<string>, b: seq<string>)
    ensures Shares(a, b) <==> exists id :: id in a && id in b
  {
    if id :| id in a && id in b {
      var k :| 0 <= k < |a| && a[k] == id;
      assert a[k] in b;
    }
  }

  lemma NoConflictsMeansNotTaken(reservations: seq<Reservation>, starts: int, ends: int, driverId: string, ids: seq<string>)
    ensures Conflicts(reservations, starts, ends, driverId, ids) <==> !NotTaken(reservations, starts, ends, driverId, ids)
  {
    forall r | r in reservations ensures Shares(r.resourceIds, ids) <==> exists id :: id in r.resourceIds && id in ids {
      SharesMeansCommon(r.resourceIds, ids);
    }
    if !NotTaken(reservations, starts, ends, driverId, ids) {
      var r :| r in reservations && Claims(r, starts, ends, driverId, ids);
      var k :| 0 <= k < |reservations| && reservations[k] == r;
      assert Claims(reservations[k], starts, ends, driverId, ids);
    }
  }

  // ---------- Travel ----------

  /** What travel depends on: the reservations, the day of an instant, the router's answer and the points it was asked for. */
  datatype Roads = Roads(reservations: seq<Reservation>, dayOf: int -> int, travel: Travel, pointOf: map<string, int>)

  ghost predicate SameDay(roads: Roads, k: nat, starts: int)
    requires k < |roads.reservations|
  {
    roads.dayOf(roads.reservations[k].startsAt) == roads.dayOf(starts)
  }

  ghost predicate EndsBefore(roads: Roads, k: nat, starts: int)
    requires k < |roads.reservations|
  {
    SameDay(roads, k, starts) && roads.reservations[k].endsAt <= starts
  }

  ghost predicate StartsAfter(roads: Roads, k: nat, starts: int, ends: int)
    requires k < |roads.reservations|
  {
    SameDay(roads, k, starts) && ends <= roads.reservations[k].startsAt
  }

  /** The reservation of the same day that ends last before the slot; the first of several. */
  ghost predicate IsPrevious(roads: Roads, k: nat, starts: int, n: nat)
    requires n <= |roads.reservations|
  {
    && k < n && EndsBefore(roads, k, starts)
    && (forall j :: 0 <= j < n && EndsBefore(roads, j, starts) ==>
          roads.reservations[j].endsAt <= roads.reservations[k].endsAt
          && (j < k ==> roads.reservations[j].endsAt < roads.reservations[k].endsAt))
  }

  /** The reservation of the same day that starts first after the slot; the first of several. */
  ghost predicate IsNext(roads: Roads, k: nat, starts: int, ends: int, n: nat)
    requires n <= |roads.reservations|
  {
    && k < n && StartsAfter(roads, k, starts, ends)
    && (forall j :: 0 <= j < n && StartsAfter(roads, j, starts, ends) ==>
          roads.reservations[k].startsAt <= roads.reservations[j].startsAt
          && (j < k ==> roads.reservations[k].startsAt < roads.reservations[j].startsAt))
  }

  /** The router knows the way between the job and a reservation. */
  ghost predicate IsRouted(roads: Roads, r: Reservation) {
    r.location.Valid() && r.id in roads.pointOf && 0 <= roads.pointOf[r.id] < |roads.travel.legs|
  }

  ghost predicate TimeSuffices(roads: Roads, r: Reservation, gap: int) {
    IsRouted(roads, r) ==> roads.travel.legs[roads.pointOf[r.id]] <= gap
  }

  ghost predicate KnowsRoads(roads: Roads) {
    roads.travel.source != "" && roads.travel.source != "unavailable" && roads.travel.legs != []
  }

  /** There is time to travel from the reservation before and to the one after; one that is both counts as the one after. */
  ghost predicate TravelFits(roads: Roads, starts: int, ends: int) {
    KnowsRoads(roads) ==>
      && (forall k :: 0 <= k < |roads.reservations| && IsPrevious(roads, k, starts, |roads.reservations|)
                      && !IsNext(roads, k, starts, ends, |roads.reservations|)
            ==> TimeSuffices(roads, roads.reservations[k], starts - roads.reservations[k].endsAt))
      && (forall k :: 0 <= k < |roads.reservations| && IsNext(roads, k, starts, ends, |roads.reservations|)
            ==> TimeSuffices(roads, roads.reservations[k], roads.reservations[k].startsAt - ends))
  }

  ghost predicate HasPrevious(roads: Roads, previous: Option<nat>, starts: int, n: nat)
    requires n <= |roads.reservations|
  {
    if previous.Some? then IsPrevious(roads, previous.value, starts, n)
    else forall k :: 0 <= k < n ==> !EndsBefore(roads, k, starts)
  }

  ghost predicate HasNext(roads: Roads, next: Option<nat>, starts: int, ends: int, n: nat)
    requires n <= |roads.reservations|
  {
    if next.Some? then IsNext(roads, next.value, starts, ends, n)
    else forall k :: 0 <= k < n ==> !StartsAfter(roads, k, starts, ends)
  }

  /** Finds the reservations next to a slot. */
  method Neighbours(roads: Roads, starts: int, ends: int) returns (previous: Option<nat>, next: Option<nat>)
    ensures HasPrevious(roads, previous, starts, |roads.reservations|)
    ensures HasNext(roads, next, starts, ends, |roads.reservations|)
  {
    previous, next := None, None;
    for k := 0 to |roads.reservations|
      invariant HasPrevious(roads, previous, starts, k) && HasNext(roads, next, starts, ends, k)
    {
      var r := roads.reservations[k];
      if roads.dayOf(r.startsAt) != roads.dayOf(starts) {
        continue;
      }
      if r.endsAt <= starts && (previous.None? || r.endsAt > roads.reservations[previous.value].endsAt) {
        previous := Some(k);
      }
      if r.startsAt >= ends && (next.None? || r.startsAt < roads.reservations[next.value].startsAt) {
        next := Some(k);
      }
    }
  }

  /** The time between the slot and the reservation before it, or after it when it is the next one. */
  ghost function GapTo(roads: Roads, k: nat, next: Option<nat>, starts: int, ends: int): int
    requires k < |roads.reservations|
  {
    if next == Some(k) then roads.reservations[k].startsAt - ends else starts - roads.reservations[k].endsAt
  }

  /** There is time to travel to or from this neighbour, if there is one. */
  ghost predicate Reached(roads: Roads, neighbour: Option<nat>, next: Option<nat>, starts: int, ends: int)
    requires neighbour.Some? ==> neighbour.value < |roads.reservations|
  {
    neighbour.Some? ==>
      TimeSuffices(roads, roads.reservations[neighbour.value], GapTo(roads, neighbour.value, next, starts, ends))
  }

  lemma OnePrevious(roads: Roads, starts: int, a: nat, b: nat, n: nat)
    requires n <= |roads.reservations| && IsPrevious(roads, a, starts, n) && IsPrevious(roads, b, starts, n)
    ensures a == b
  {
  }

  lemma OneNext(roads: Roads, starts: int, ends: int, a: nat, b: nat, n: nat)
    requires n <= |roads.reservations| && IsNext(roads, a, starts, ends, n) && IsNext(roads, b, starts, ends, n)
    ensures a == b
  {
  }

  /** The two neighbours decide whether travel fits. */
  lemma NeighboursDecide(roads: Roads, previous: Option<nat>, next: Option<nat>, starts: int, ends: int)
    requires HasPrevious(roads, previous, starts, |roads.reservations|) && HasNext(roads, next, starts, ends, |roads.reservations|)
    ensures TravelFits(roads, starts, ends) <==>
      (KnowsRoads(roads) ==> Reached(roads, previous, next, starts, ends) && Reached(roads, next, next, starts, ends))
  {
    var n := |roads.reservations|;
    forall k | 0 <= k < n && IsPrevious(roads, k, starts, n) ensures previous == Some(k) {
      if previous.Some? { OnePrevious(roads, starts, previous.value, k, n); }
    }
    forall k | 0 <= k < n && IsNext(roads, k, starts, ends, n) ensures next == Some(k) {
      if next.Some? { OneNext(roads, starts, ends, next.value, k, n); }
    }
  }

  method ReachedInTime(roads: Roads, r: Reservation, gap: int) returns (ok: bool)
    ensures ok <==> TimeSuffices(roads, r, gap)
  {
    if !r.location.Valid() || r.id !in roads.pointOf || !(0 <= roads.pointOf[r.id] < |roads.travel.legs|) {
      return true;
    }
    ok := roads.travel.legs[roads.pointOf[r.id]] <= gap;
  }

  method TravelFeasible(roads: Roads, starts: int, ends: int) returns (ok: bool)
    ensures ok <==> TravelFits(roads, starts, ends)
  {
    if roads.travel.source == "" || roads.travel.source == "unavailable" || |roads.travel.legs| == 0 {
      return true;
    }
    var previous, next := Neighbours(roads, starts, ends);
    NeighboursDecide(roads, previous, next, starts, ends);
    var adjacent := [previous, next];
    for i := 0 to 2
      invariant i > 0 ==> Reached(roads, previous, next, starts, ends)
      invariant i > 1 ==> Reached(roads, next, next, starts, ends)
    {
      if adjacent[i].None? {
        continue;
      }
      var r := roads.reservations[adjacent[i].value];
      var gap := starts - r.endsAt;
      if adjacent[i] == next {
        gap := r.startsAt - ends;
      }
      var inTime := ReachedInTime(roads, r, gap);
      if !inTime {
        return false;
      }
    }
    ok := true;
  }
}
