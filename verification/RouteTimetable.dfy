/** Arrival times along a route, and moving a stop from one draft to another. */
module RouteTimetable {
  import opened Options
  import opened Arithmetic
  import opened Durations
  import opened Ordering

  const MAX_INT64 := 0x7fff_ffff_ffff_ffff

  /** Degrees; the point where both are zero stands for a missing location. */
  datatype Point = Point(latitude: real, longitude: real) {
    predicate Valid() {
      -90.0 <= latitude <= 90.0 && -180.0 <= longitude <= 180.0 && (latitude != 0.0 || longitude != 0.0)
    }
  }

  ghost function Size(x: real): real {
    if x < 0.0 then -x else x
  }

  /** A place is at most 90 degrees from the equator and 180 from the meridian, and not where these cross. */
  lemma PlacesOnTheGlobe(p: Point)
    ensures p.Valid() <==> p != Point(0.0, 0.0) && Size(p.latitude) <= 90.0 && Size(p.longitude) <= 180.0
  {
  }

  datatype Stop = Stop(id: string, jobId: string, position: int, location: Point, workDuration: int, legDistance: int,
                       legDuration: int, arrival: int, startsAt: int, endsAt: int)

  datatype Leg = Leg(distance: int, duration: int)

  /** The router's answer: the line to draw, and a leg between each two points. */
  datatype Directions = Directions(source: string, geometry: seq<Point>, legs: seq<Leg>, distance: int, duration: int)

  ghost predicate ValidDirections(d: Directions, points: int) {
    && d.source != "" && |d.geometry| >= 2 && |d.legs| == points - 1 && d.distance >= 0 && d.duration >= 0
    && (forall p :: p in d.geometry ==> p.Valid())
    && (forall k :: 0 <= k < |d.legs| ==> d.legs[k].distance >= 0 && d.legs[k].duration >= 0)
  }

  method ValidateDirections(d: Directions, points: int) returns (ok: bool)
    ensures ok <==> ValidDirections(d, points)
  {
    if d.source == "" || |d.geometry| < 2 || |d.legs| != points - 1 || d.distance < 0 || d.duration < 0 {
      return false;
    }
    for k := 0 to |d.geometry|
      invariant forall j :: 0 <= j < k ==> d.geometry[j].Valid()
    {
      if !d.geometry[k].Valid() {
        return false;
      }
    }
    for k := 0 to |d.legs|
      invariant forall j :: 0 <= j < k ==> d.legs[j].distance >= 0 && d.legs[j].duration >= 0
    {
      if d.legs[k].distance < 0 || d.legs[k].duration < 0 {
        return false;
      }
    }
    ok := true;
  }

  // ---------- Whole minutes of travel ----------

  /** The least whole number of minutes that covers a duration. */
  ghost predicate CoversInMinutes(minutes: int, duration: int) {
    duration <= minutes * MINUTE < duration + MINUTE
  }

  lemma MinutesAreUnique(a: int, b: int, duration: int)
    requires CoversInMinutes(a, duration) && CoversInMinutes(b, duration)
    ensures a == b
  {
    WholeMultiple(a - b, MINUTE);
    WholeMultiple(b - a, MINUTE);
  }

  function MinutesFor(duration: nat): (minutes: nat)
    ensures CoversInMinutes(minutes, duration)
  {
    duration / MINUTE + if duration % MINUTE != 0 then 1 else 0
  }

  /** What a leg takes in the timetable. */
  ghost function Rounded(duration: nat): nat {
    MinutesFor(duration) * MINUTE
  }

  lemma MinutesFit(minutes: nat)
    ensures minutes <= MAX_INT64 / MINUTE <==> minutes * MINUTE <= MAX_INT64
  {
    var most, rest := MAX_INT64 / MINUTE, MAX_INT64 % MINUTE;
    assert MAX_INT64 == most * MINUTE + rest;
    WholeMultiple(minutes - most, MINUTE);
  }

  function ReservationDuration(duration: int): (r: Option<nat>)
    ensures r.Some? <==> duration >= 0 && Rounded(duration) <= MAX_INT64
    ensures r.Some? ==> r.value == Rounded(duration)
  {
    if duration < 0 then None
    else
      var minutes := MinutesFor(duration);
      MinutesFit(minutes);
      if minutes > MAX_INT64 / MINUTE then None else Some(minutes * MINUTE)
  }

  // ---------- The timetable ----------

  ghost predicate NoneNegative(legs: seq<Leg>) {
    forall k :: 0 <= k < |legs| ==> legs[k].duration >= 0
  }

  /** The first `n` travel times fit into 64 bits once they are rounded up. */
  ghost predicate FitTheClock(legs: seq<Leg>, n: nat)
    requires n <= |legs| && NoneNegative(legs)
  {
    forall k :: 0 <= k < n ==> Rounded(legs[k].duration) <= MAX_INT64
  }

  /** When the route arrives at stop `k`: travel is rounded up, work takes its time. */
  ghost function Arrival(departure: int, stops: seq<Stop>, legs: seq<Leg>, k: nat): int
    requires k < |stops| <= |legs| && NoneNegative(legs)
    decreases k, 1
  {
    LeavesAt(departure, stops, legs, k) + Rounded(legs[k].duration)
  }

  /** When the route leaves the stop before stop `k`, or the start. */
  ghost function LeavesAt(departure: int, stops: seq<Stop>, legs: seq<Leg>, k: nat): int
    requires k <= |stops| <= |legs| && NoneNegative(legs)
    decreases k, 0
  {
    if k == 0 then departure else Arrival(departure, stops, legs, k - 1) + stops[k - 1].workDuration
  }

  ghost function EndsAt(departure: int, stops: seq<Stop>, legs: seq<Leg>, comesBack: bool): int
    requires |stops| + (if comesBack then 1 else 0) == |legs| && NoneNegative(legs)
  {
    LeavesAt(departure, stops, legs, |stops|) + if comesBack then Rounded(legs[|stops|].duration) else 0
  }

  /** What stays the same about a stop whatever its times. */
  ghost function Job(s: Stop): (string, string, Point, int) {
    (s.id, s.jobId, s.location, s.workDuration)
  }

  ghost function Jobs(stops: seq<Stop>): (jobs: seq<(string, string, Point, int)>)
    ensures |jobs| == |stops| && forall k :: 0 <= k < |stops| ==> jobs[k] == Job(stops[k])
  {
    seq(|stops|, k requires 0 <= k < |stops| => Job(stops[k]))
  }

  ghost predicate IsScheduled(stop: Stop, before: Stop, k: nat, arrival: int, leg: Leg, preserve: bool) {
    && Job(stop) == Job(before) && stop.position == k + 1 && stop.arrival == arrival
    && stop.legDistance == leg.distance && stop.legDuration == leg.duration
    && stop.startsAt == (if preserve then before.startsAt else arrival)
    && stop.endsAt == (if preserve then before.endsAt else arrival + before.workDuration)
  }

  /** The route ends somewhere else than at its last stop. */
  ghost predicate ComesBack(stops: seq<Stop>, end: Point)
    requires stops != []
  {
    end != stops[|stops| - 1].location
  }

  /** The router's answer has a leg to every stop and to the end, and each travel time fits once it is rounded up. */
  ghost predicate CanBeDriven(stops: seq<Stop>, end: Point, answer: Option<Directions>)
    requires stops != []
  {
    && answer.Some? && ValidDirections(answer.value, |stops| + if ComesBack(stops, end) then 2 else 1)
    && FitTheClock(answer.value.legs, |answer.value.legs|)
  }

  class RouteDraft {
    var id: string
    var isDraft: bool
    var version: int
    var departure: int
    var start: Point
    var end: Point
    var stops: seq<Stop>
    var directions: Option<Directions>
    var estimatedEnd: int

    ghost predicate Returns()
      requires stops != []
      reads this
    {
      ComesBack(stops, end)
    }

    ghost predicate Drivable(answer: Option<Directions>)
      requires stops != []
      reads this
    {
      CanBeDriven(stops, end, answer)
    }

    /** The first `n` stops have their times, the others are as before. */
    ghost predicate Follows(before: seq<Stop>, legs: seq<Leg>, preserve: bool, n: nat)
      requires n <= |before| <= |legs| && NoneNegative(legs)
      reads this
    {
      && |stops| == |before| && (forall k :: n <= k < |before| ==> stops[k] == before[k])
      && (forall k :: 0 <= k < n ==>
            IsScheduled(stops[k], before[k], k, Arrival(departure, before, legs, k), legs[k], preserve))
    }

    /** The draft is the timetable of the given stops along the router's answer, with fresh appointments. */
    ghost predicate IsTimetable(before: seq<Stop>, answer: Option<Directions>)
      requires before != []
      reads this
    {
      && CanBeDriven(before, end, answer) && directions == answer && Follows(before, answer.value.legs, false, |before|)
      && estimatedEnd == EndsAt(departure, before, answer.value.legs, ComesBack(before, end))
    }

    lemma JobsAreKept(before: seq<Stop>, legs: seq<Leg>, preserve: bool, n: nat)
      requires n <= |before| <= |legs| && NoneNegative(legs) && Follows(before, legs, preserve, n)
      ensures Jobs(stops) == Jobs(before)
    {
      forall k | 0 <= k < |before| ensures Job(stops[k]) == Job(before[k]) {
        if k < n { assert IsScheduled(stops[k], before[k], k, Arrival(departure, before, legs, k), legs[k], preserve); }
      }
    }

    /** Goes from stop to stop; tells when the last one is left, or nothing when a travel time is too long. */
    method Schedule(legs: seq<Leg>, preserve: bool) returns (left: Option<int>)
      requires |stops| <= |legs| && NoneNegative(legs)
      modifies this`stops
      ensures left.Some? <==> FitTheClock(legs, |old(stops)|)
      ensures left.Some? ==> Follows(old(stops), legs, preserve, |old(stops)|)
      ensures left.Some? ==> left.value == LeavesAt(departure, old(stops), legs, |old(stops)|)
      ensures Jobs(stops) == old(Jobs(stops))
    {
      ghost var before := stops;
      var cursor := departure;
      for k := 0 to |stops|
        invariant Follows(before, legs, preserve, k) && FitTheClock(legs, k)
        invariant cursor == LeavesAt(departure, before, legs, k)
      {
        JobsAreKept(before, legs, preserve, k);
        var travel := ReservationDuration(legs[k].duration);
        if travel.None? {
          return None;
        }
        cursor := cursor + travel.value;
        var stop := stops[k].(position := k + 1, legDistance := legs[k].distance, legDuration := legs[k].duration, arrival := cursor);
        if !preserve {
          stop := stop.(startsAt := cursor, endsAt := cursor + stop.workDuration);
        }
        stops := stops[k := stop];
        cursor := cursor + stops[k].workDuration;
      }
      JobsAreKept(before, legs, preserve, |before|);
      left := Some(cursor);
    }

    /** Sets the times of every stop from the router's answer; appointments already agreed are left alone. */
    method CalculateDirections(answer: Option<Directions>, preserve: bool) returns (ok: bool)
      requires stops != []
      modifies this`stops, this`directions, this`estimatedEnd
      ensures ok <==> old(Drivable(answer))
      ensures Jobs(stops) == old(Jobs(stops))
      ensures ok ==> directions == answer && Follows(old(stops), answer.value.legs, preserve, |old(stops)|)
      ensures ok ==> estimatedEnd == EndsAt(departure, old(stops), answer.value.legs, old(Returns()))
    {
      var comesBack := end != stops[|stops| - 1].location;
      if answer.None? {
        return false;
      }
      var valid := ValidateDirections(answer.value, |stops| + if comesBack then 2 else 1);
      if !valid {
        return false;
      }
      directions := answer;
      var legs := answer.value.legs;
      var left := Schedule(legs, preserve);
      if left.None? {
        return false;
      }
      estimatedEnd := left.value;
      if comesBack {
        var travel := ReservationDuration(legs[|legs| - 1].duration);
        if travel.None? {
          return false;
        }
        estimatedEnd := left.value + travel.value;
      }
      ok := true;
    }
  }

  // ---------- What a timetable promises ----------

  ghost predicate WorkTakesTime(stops: seq<Stop>) {
    forall k :: 0 <= k < |stops| ==> stops[k].workDuration > 0
  }

  lemma {:induction false} LaterStopsComeLater(departure: int, stops: seq<Stop>, legs: seq<Leg>, i: nat, j: nat)
    requires |stops| <= |legs| && NoneNegative(legs) && WorkTakesTime(stops) && i < j < |stops|
    ensures Arrival(departure, stops, legs, i) + stops[i].workDuration <= LeavesAt(departure, stops, legs, j)
    ensures LeavesAt(departure, stops, legs, j) <= Arrival(departure, stops, legs, j)
  {
    if i < j - 1 { LaterStopsComeLater(departure, stops, legs, i, j - 1); }
  }

  lemma ScheduledTimes(route: RouteDraft, before: seq<Stop>, legs: seq<Leg>, k: nat)
    requires |before| <= |legs| && NoneNegative(legs) && route.Follows(before, legs, false, |before|) && k < |before|
    ensures |route.stops| == |before| && route.stops[k].arrival == Arrival(route.departure, before, legs, k)
    ensures route.stops[k].startsAt == route.stops[k].arrival
    ensures route.stops[k].endsAt == route.stops[k].arrival + before[k].workDuration
  {
    assert IsScheduled(route.stops[k], before[k], k, Arrival(route.departure, before, legs, k), legs[k], false);
  }

  /** Newly scheduled stops follow one another without overlap, each a rounded travel time after the one before. */
  lemma StopsDoNotOverlap(route: RouteDraft, before: seq<Stop>, legs: seq<Leg>)
    requires |before| <= |legs| && NoneNegative(legs) && WorkTakesTime(before)
    requires route.Follows(before, legs, false, |before|)
    ensures forall i, j :: 0 <= i < j < |before| ==> route.stops[i].endsAt <= route.stops[j].startsAt
    ensures forall k :: 1 <= k < |before| ==>
      route.stops[k].startsAt == route.stops[k - 1].endsAt + Rounded(legs[k].duration)
    ensures forall i, j :: 0 <= i < j < |before| ==> route.stops[i].arrival < route.stops[j].arrival
  {
    var departure := route.departure;
    forall i, j | 0 <= i < j < |before|
      ensures route.stops[i].endsAt <= route.stops[j].startsAt && route.stops[i].arrival < route.stops[j].arrival
    {
      LaterStopsComeLater(departure, before, legs, i, j);
      ScheduledTimes(route, before, legs, i);
      ScheduledTimes(route, before, legs, j);
    }
    forall k | 1 <= k < |before| ensures route.stops[k].startsAt == route.stops[k - 1].endsAt + Rounded(legs[k].duration) {
      ScheduledTimes(route, before, legs, k - 1);
      ScheduledTimes(route, before, legs, k);
      assert LeavesAt(departure, before, legs, k) == Arrival(departure, before, legs, k - 1) + before[k - 1].workDuration;
    }
  }

  ghost function TotalWork(stops: seq<Stop>): int {
    if stops == [] then 0 else TotalWork(stops[..|stops| - 1]) + stops[|stops| - 1].workDuration
  }

  ghost function TotalTravel(legs: seq<Leg>): nat
    requires NoneNegative(legs)
  {
    if legs == [] then 0 else TotalTravel(legs[..|legs| - 1]) + Rounded(legs[|legs| - 1].duration)
  }

  lemma {:induction false} LeavesAfterWorkAndTravel(departure: int, stops: seq<Stop>, legs: seq<Leg>, k: nat)
    requires k <= |stops| <= |legs| && NoneNegative(legs)
    ensures LeavesAt(departure, stops, legs, k) == departure + TotalWork(stops[..k]) + TotalTravel(legs[..k])
  {
    if k > 0 {
      LeavesAfterWorkAndTravel(departure, stops, legs, k - 1);
      assert stops[..k][..k - 1] == stops[..k - 1] && legs[..k][..k - 1] == legs[..k - 1];
    }
  }

  /** The estimated end is the departure, all work and all rounded travel, the way back included. */
  lemma EndCountsEverything(departure: int, stops: seq<Stop>, legs: seq<Leg>, comesBack: bool)
    requires |stops| + (if comesBack then 1 else 0) == |legs| && NoneNegative(legs)
    ensures EndsAt(departure, stops, legs, comesBack) == departure + TotalWork(stops) + TotalTravel(legs)
  {
    LeavesAfterWorkAndTravel(departure, stops, legs, |stops|);
    assert stops[..|stops|] == stops;
    if !comesBack { assert legs[..|stops|] == legs; }
  }

  // ---------- Moving a stop between drafts ----------

  datatype MoveInput = MoveInput(sourceId: string, targetId: string, stopId: string, sourceVersion: int, targetVersion: int)

  datatype Failure = Validation | Conflict | NoDirections
  datatype Move = Moved(index: nat) | Refused(failure: Failure)

  ghost predicate ValidMove(input: MoveInput) {
    && input.sourceId != "" && input.targetId != "" && input.sourceId != input.targetId && input.stopId != ""
    && input.sourceVersion >= 1 && input.targetVersion >= 1
  }

  ghost function JobIds(stops: seq<Stop>): (ids: seq<string>)
    ensures |ids| == |stops| && forall k :: 0 <= k < |stops| ==> ids[k] == stops[k].jobId
  {
    seq(|stops|, k requires 0 <= k < |stops| => stops[k].jobId)
  }

  ghost predicate Numbered(stops: seq<Stop>) {
    forall k :: 0 <= k < |stops| ==> stops[k].position == k + 1
  }

  /** Both drafts are as the caller last saw them, one can spare a stop and the other has room. */
  ghost predicate MayMove(input: MoveInput, source: RouteDraft, target: RouteDraft, maxStops: nat)
    reads source, target
  {
    && source.isDraft && target.isDraft && source.version == input.sourceVersion && target.version == input.targetVersion
    && |source.stops| >= 2 && |target.stops| < maxStops
  }

  method IndexOfStop(stops: seq<Stop>, id: string) returns (index: int)
    ensures index < 0 ==> forall k :: 0 <= k < |stops| ==> stops[k].id != id
    ensures index >= 0 ==> index < |stops| && stops[index].id == id && forall k :: 0 <= k < index ==> stops[k].id != id
  {
    for k := 0 to |stops|
      invariant forall i :: 0 <= i < k ==> stops[i].id != id
    {
      if stops[k].id == id {
        return k;
      }
    }
    index := -1;
  }

  method HoldsJob(stops: seq<Stop>, jobId: string) returns (found: bool)
    ensures found <==> jobId in JobIds(stops)
  {
    for k := 0 to |stops|
      invariant forall i :: 0 <= i < k ==> stops[i].jobId != jobId
    {
      if stops[k].jobId == jobId {
        assert JobIds(stops)[k] == jobId;
        return true;
      }
    }
    found := false;
  }

  method Renumber(stops: seq<Stop>) returns (numbered: seq<Stop>)
    ensures Jobs(numbered) == Jobs(stops) && Numbered(numbered)
  {
    numbered := stops;
    for k := 0 to |stops|
      invariant |numbered| == |stops| && Jobs(numbered) == Jobs(stops)
      invariant forall i :: 0 <= i < k ==> numbered[i].position == i + 1
    {
      numbered := numbered[k := numbered[k].(position := k + 1)];
    }
  }

  lemma MovedJobsAreKept<T>(source: seq<T>, target: seq<T>, at: nat)
    requires at < |source|
    ensures multiset(Without(source, at)) + multiset(target + [source[at]]) == multiset(source) + multiset(target)
  {
    WithoutMultiset(source, at);
  }

  lemma JobsOfRemoved(stops: seq<Stop>, at: nat)
    requires at < |stops|
    ensures Jobs(Without(stops, at)) == Without(Jobs(stops), at)
  {
  }

  lemma JobsOfAppended(stops: seq<Stop>, stop: Stop)
    ensures Jobs(stops + [stop]) == Jobs(stops) + [Job(stop)]
  {
  }

  lemma FollowedIsNumbered(route: RouteDraft, before: seq<Stop>, legs: seq<Leg>, preserve: bool)
    requires |before| <= |legs| && NoneNegative(legs) && route.Follows(before, legs, preserve, |before|)
    ensures Numbered(route.stops)
  {
    forall k | 0 <= k < |before| ensures route.stops[k].position == k + 1 {
      assert IsScheduled(route.stops[k], before[k], k, Arrival(route.departure, before, legs, k), legs[k], preserve);
    }
  }

  /** What moving the stop at `at` leaves behind. */
  twostate predicate IsMoved(source: RouteDraft, target: RouteDraft, at: nat)
    requires at < |old(source.stops)|
    reads source, target
  {
    && Jobs(source.stops) == Without(old(Jobs(source.stops)), at)
    && Jobs(target.stops) == old(Jobs(target.stops)) + [old(Job(source.stops[at]))]
    && Numbered(source.stops) && Numbered(target.stops)
  }

  /** The stop that is asked for is there, and the target does not hold its job yet. */
  ghost predicate Movable(source: seq<Stop>, target: seq<Stop>, id: string, at: int) {
    && 0 <= at < |source| && source[at].id == id && (forall k :: 0 <= k < at ==> source[k].id != id)
    && source[at].jobId !in JobIds(target)
  }

  /** Only the jobs count for when a route arrives and leaves. */
  lemma {:induction false} SameJobsSameTimes(departure: int, a: seq<Stop>, b: seq<Stop>, legs: seq<Leg>, k: nat)
    requires k <= |a| == |b| <= |legs| && NoneNegative(legs) && Jobs(a) == Jobs(b)
    ensures LeavesAt(departure, a, legs, k) == LeavesAt(departure, b, legs, k)
    ensures k < |a| ==> Arrival(departure, a, legs, k) == Arrival(departure, b, legs, k)
  {
    if k > 0 {
      SameJobsSameTimes(departure, a, b, legs, k - 1);
      assert Jobs(a)[k - 1] == Jobs(b)[k - 1];
    }
  }

  lemma SameJobsSameDriving(a: seq<Stop>, b: seq<Stop>, end: Point, answer: Option<Directions>)
    requires a != [] && Jobs(a) == Jobs(b)
    ensures b != [] && ComesBack(a, end) == ComesBack(b, end)
    ensures CanBeDriven(a, end, answer) <==> CanBeDriven(b, end, answer)
  {
    assert |Jobs(a)| == |Jobs(b)| && Jobs(a)[|a| - 1] == Jobs(b)[|b| - 1];
  }

  /** A timetable made from renumbered stops is one of the stops themselves. */
  lemma RenumberedTimetable(route: RouteDraft, numbered: seq<Stop>, stops: seq<Stop>, answer: Option<Directions>)
    requires numbered != [] && Jobs(numbered) == Jobs(stops) && route.IsTimetable(numbered, answer)
    ensures stops != [] && route.IsTimetable(stops, answer) && Numbered(route.stops) && Jobs(route.stops) == Jobs(stops)
  {
    SameJobsSameDriving(numbered, stops, route.end, answer);
    var legs := answer.value.legs;
    SameJobsSameTimes(route.departure, numbered, stops, legs, |stops|);
    forall k | 0 <= k < |stops|
      ensures IsScheduled(route.stops[k], stops[k], k, Arrival(route.departure, stops, legs, k), legs[k], false)
    {
      SameJobsSameTimes(route.departure, numbered, stops, legs, k);
      assert Jobs(numbered)[k] == Jobs(stops)[k];
      assert IsScheduled(route.stops[k], numbered[k], k, Arrival(route.departure, numbered, legs, k), legs[k], false);
    }
    FollowedIsNumbered(route, numbered, legs, false);
    route.JobsAreKept(stops, legs, false, |stops|);
  }

  /** The move is asked for, allowed and possible, and both drafts can be driven afterwards. */
  ghost predicate CanMoveStop(source: seq<Stop>, target: seq<Stop>, id: string, at: int, sourceEnd: Point, targetEnd: Point,
                              sourceAnswer: Option<Directions>, targetAnswer: Option<Directions>)
    requires |source| >= 2
  {
    && Movable(source, target, id, at)
    && CanBeDriven(Without(source, at), sourceEnd, sourceAnswer)
    && CanBeDriven(target + [source[at]], targetEnd, targetAnswer)
  }

  /** Renumbers the stops of a draft and schedules them. */
  method ScheduleAnew(route: RouteDraft, stops: seq<Stop>, answer: Option<Directions>) returns (ok: bool)
    requires stops != []
    modifies route`stops, route`directions, route`estimatedEnd
    ensures ok <==> CanBeDriven(stops, route.end, answer)
    ensures ok ==> route.IsTimetable(stops, answer) && Numbered(route.stops) && Jobs(route.stops) == Jobs(stops)
  {
    var numbered := Renumber(stops);
    SameJobsSameDriving(stops, numbered, route.end, answer);
    route.stops := numbered;
    ok := route.CalculateDirections(answer, false);
    if ok { RenumberedTimetable(route, numbered, stops, answer); }
  }

  /** The first stop of that name is the only one that may be moved. */
  lemma OnlyMovable(source: seq<Stop>, target: seq<Stop>, id: string, at: int)
    requires Movable(source, target, id, at)
    ensures forall other :: Movable(source, target, id, other) ==> other == at
  {
  }

  /** Takes the stop out, appends it to the other draft, and schedules both anew. */
  method MoveDraftStop(input: MoveInput, source: RouteDraft, target: RouteDraft, maxStops: nat,
                       sourceAnswer: Option<Directions>, targetAnswer: Option<Directions>)
    returns (result: Move)
    requires source != target
    modifies source`stops, source`directions, source`estimatedEnd, target`stops, target`directions, target`estimatedEnd
    ensures result == Refused(Validation) <==> !ValidMove(input)
    ensures result == Refused(Conflict) <==>
      ValidMove(input)
      && !(old(MayMove(input, source, target, maxStops))
           && exists at :: Movable(old(source.stops), old(target.stops), input.stopId, at))
    ensures result.Moved? <==>
      && ValidMove(input) && old(MayMove(input, source, target, maxStops))
      && exists at :: CanMoveStop(old(source.stops), old(target.stops), input.stopId, at, source.end, target.end,
                                  sourceAnswer, targetAnswer)
    ensures result.Refused? && !result.failure.NoDirections? ==> unchanged(source) && unchanged(target)
    ensures result.Moved? ==> Movable(old(source.stops), old(target.stops), input.stopId, result.index)
    ensures result.Moved? ==> |source.stops| >= 1 && |target.stops| <= maxStops && IsMoved(source, target, result.index)
    ensures result.Moved? ==> source.IsTimetable(Without(old(source.stops), result.index), sourceAnswer)
    ensures result.Moved? ==> target.IsTimetable(old(target.stops) + [old(source.stops)[result.index]], targetAnswer)
    ensures result.Moved? ==> multiset(Jobs(source.stops)) + multiset(Jobs(target.stops)) ==
                              multiset(old(Jobs(source.stops))) + multiset(old(Jobs(target.stops)))
  {
    if input.sourceId == "" || input.targetId == "" || input.sourceId == input.targetId || input.stopId == ""
       || input.sourceVersion < 1 || input.targetVersion < 1 {
      return Refused(Validation);
    }
    if !source.isDraft || !target.isDraft || source.version != input.sourceVersion || target.version != input.targetVersion
       || |source.stops| < 2 || |target.stops| >= maxStops {
      return Refused(Conflict);
    }
    var index := IndexOfStop(source.stops, input.stopId);
    if index < 0 {
      return Refused(Conflict);
    }
    var moved := source.stops[index];
    var held := HoldsJob(target.stops, moved.jobId);
    if held {
      return Refused(Conflict);
    }
    assert Movable(source.stops, target.stops, input.stopId, index);
    OnlyMovable(source.stops, target.stops, input.stopId, index);
    JobsOfRemoved(source.stops, index);
    JobsOfAppended(target.stops, moved);
    MovedJobsAreKept(Jobs(source.stops), Jobs(target.stops), index);
    var fewer, more := source.stops[..index] + source.stops[index + 1..], target.stops + [moved];
    var ok := ScheduleAnew(source, fewer, sourceAnswer);
    if !ok {
      return Refused(NoDirections);
    }
    ok := ScheduleAnew(target, more, targetAnswer);
    if !ok {
      return Refused(NoDirections);
    }
    assert CanMoveStop(old(source.stops), old(target.stops), input.stopId, index, source.end, target.end, sourceAnswer, targetAnswer);
    result := Moved(index);
  }
}
