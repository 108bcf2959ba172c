/** Which jobs a route may hold: validated identifiers, looked up and put in the order they were asked for. */
module RouteSelection {
  import opened Options
  import opened Ordering
  import opened RouteOrder
  import opened RouteTimetable

  /** Between one and the allowed number of identifiers, none empty and none repeated. */
  method ValidateJobIds(ids: seq<string>, maxStops: nat) returns (ok: bool)
    ensures ok <==> 1 <= |ids| <= maxStops && "" !in ids && Distinct(ids)
  {
    if |ids| < 1 || |ids| > maxStops {
      return false;
    }
    var seen: set<string> := {};
    for k := 0 to |ids|
      invariant Distinct(ids[..k]) && "" !in ids[..k] && (forall id :: id in seen <==> id in ids[..k])
    {
      if ids[k] == "" {
        return false;
      }
      if ids[k] in seen {
        RepeatedPin(ids, k);
        return false;
      }
      seen := seen + {ids[k]};
    }
    assert ids[..|ids|] == ids;
    ok := true;
  }

  datatype Ordered<+T> = Ok(order: seq<T>) | Err(failure: Failure)

  ghost predicate Usable(c: Candidate) {
    c.jobId != "" && c.location.Valid() && c.workDuration > 0 && c.jobVersion >= 1 && c.waitlistVersion >= 1
  }

  /** Every identifier looked up among the items, in the order of the identifiers. */
  ghost predicate LookedUp<T(!new)>(ids: seq<string>, items: seq<T>, idOf: T -> string, order: seq<T>) {
    |order| == |ids| && forall k :: 0 <= k < |ids| ==> order[k] in items && idOf(order[k]) == ids[k]
  }

  ghost predicate IdentifiedBy<T(!new)>(items: seq<T>, idOf: T -> string) {
    forall i, j :: 0 <= i < j < |items| ==> idOf(items[i]) != idOf(items[j])
  }

  ghost predicate Knows<T(!new)>(items: seq<T>, idOf: T -> string, id: string) {
    exists k :: 0 <= k < |items| && idOf(items[k]) == id
  }

  ghost predicate MapsById<T(!new)>(byId: map<string, T>, items: seq<T>, idOf: T -> string) {
    && IdentifiedBy(items, idOf) && |byId| == |items|
    && (forall id :: id in byId ==> byId[id] in items && idOf(byId[id]) == id)
    && (forall k :: 0 <= k < |items| ==> idOf(items[k]) in byId)
  }

  lemma MapsOneMore<T(!new)>(byId: map<string, T>, items: seq<T>, idOf: T -> string, k: nat)
    requires k < |items| && MapsById(byId, items[..k], idOf) && idOf(items[k]) !in byId
    ensures MapsById(byId[idOf(items[k]) := items[k]], items[..k + 1], idOf)
  {
    var more := byId[idOf(items[k]) := items[k]];
    assert items[..k + 1] == items[..k] + [items[k]];
    assert more.Keys == byId.Keys + {idOf(items[k])};
    var front, all := items[..k], items[..k + 1];
    forall i | 0 <= i < k ensures idOf(all[i]) != idOf(items[k]) {
      assert all[i] == front[i] && idOf(front[i]) in byId;
    }
  }

  lemma RepeatedIdentifier<T(!new)>(byId: map<string, T>, items: seq<T>, idOf: T -> string, k: nat)
    requires k < |items| && MapsById(byId, items[..k], idOf) && idOf(items[k]) in byId
    ensures !IdentifiedBy(items, idOf) && forall n :: k < n <= |items| ==> !IdentifiedBy(items[..n], idOf)
  {
    var twin := byId[idOf(items[k])];
    var i :| 0 <= i < k && items[..k][i] == twin;
    assert idOf(items[i]) == idOf(items[k]);
    forall n | k < n <= |items| ensures !IdentifiedBy(items[..n], idOf) {
      assert items[..n][i] == items[i] && items[..n][k] == items[k];
    }
  }

  lemma KnownIsMapped<T(!new)>(byId: map<string, T>, items: seq<T>, idOf: T -> string, id: string)
    requires MapsById(byId, items, idOf)
    ensures Knows(items, idOf, id) <==> id in byId
  {
    if id in byId {
      var k :| 0 <= k < |items| && items[k] == byId[id];
    }
  }

  ghost predicate All<T(!new)>(items: seq<T>, good: T -> bool) {
    forall k :: 0 <= k < |items| ==> good(items[k])
  }

  ghost predicate KnowsAll<T(!new)>(items: seq<T>, idOf: T -> string, ids: seq<string>) {
    forall k :: 0 <= k < |ids| ==> Knows(items, idOf, ids[k])
  }

  /** The first item that cannot be filed is not good. */
  ghost predicate IsFirstBad<T(!new)>(items: seq<T>, idOf: T -> string, good: T -> bool, k: nat) {
    k < |items| && All(items[..k], good) && IdentifiedBy(items[..k], idOf) && !good(items[k])
  }

  datatype Index<+T> = Indexed(byId: map<string, T>) | Bad | Repeated

  lemma RepeatedFirst<T(!new)>(items: seq<T>, idOf: T -> string, good: T -> bool, k: nat)
    requires k < |items| && All(items[..k], good) && good(items[k])
    requires forall n :: k < n <= |items| ==> !IdentifiedBy(items[..n], idOf)
    ensures !exists j :: IsFirstBad(items, idOf, good, j)
  {
    forall j: nat ensures !IsFirstBad(items, idOf, good, j) {
      if j < k { assert items[..k][j] == items[j]; }
    }
  }

  /** Files the items by identifier; stops at the first that is not good or whose identifier came before. */
  method IndexById<T(!new)>(items: seq<T>, idOf: T -> string, good: T -> bool) returns (result: Index<T>)
    ensures result.Indexed? <==> All(items, good) && IdentifiedBy(items, idOf)
    ensures result.Indexed? ==> MapsById(result.byId, items, idOf)
    ensures result.Bad? <==> exists k :: IsFirstBad(items, idOf, good, k)
  {
    var byId: map<string, T> := map[];
    for k := 0 to |items|
      invariant MapsById(byId, items[..k], idOf) && All(items[..k], good)
    {
      if !good(items[k]) {
        assert IsFirstBad(items, idOf, good, k);
        return Bad;
      }
      if idOf(items[k]) in byId {
        RepeatedIdentifier(byId, items, idOf, k);
        RepeatedFirst(items, idOf, good, k);
        return Repeated;
      }
      MapsOneMore(byId, items, idOf, k);
      byId := byId[idOf(items[k]) := items[k]];
    }
    assert items[..|items|] == items;
    result := Indexed(byId);
  }

  /** Tests that agree on every item file them alike. */
  lemma SameTests<T(!new)>(items: seq<T>, idOf: T -> string, good: T -> bool, idOf': T -> string, good': T -> bool)
    requires forall x :: idOf(x) == idOf'(x) && good(x) == good'(x)
    ensures All(items, good) <==> All(items, good')
    ensures IdentifiedBy(items, idOf) <==> IdentifiedBy(items, idOf')
    ensures forall byId :: MapsById(byId, items, idOf) ==> MapsById(byId, items, idOf')
    ensures forall k :: IsFirstBad(items, idOf, good, k) <==> IsFirstBad(items, idOf', good', k)
  {
  }

  ghost function JobId(c: Candidate): string {
    c.jobId
  }

  /** Usable candidates, as many as identifiers, one for each. */
  ghost predicate CanBeOrdered(ids: seq<string>, candidates: seq<Candidate>) {
    && All(candidates, Usable) && IdentifiedBy(candidates, JobId) && |candidates| == |ids|
    && KnowsAll(candidates, JobId, ids)
  }

  method FileCandidates(candidates: seq<Candidate>) returns (index: Index<Candidate>)
    ensures index.Indexed? <==> All(candidates, Usable) && IdentifiedBy(candidates, JobId)
    ensures index.Indexed? ==> MapsById(index.byId, candidates, JobId)
    ensures index.Bad? <==> exists k :: IsFirstBad(candidates, JobId, Usable, k)
  {
    var usable := (c: Candidate) =>
        !(c.jobId == "" || !c.location.Valid() || c.workDuration <= 0 || c.jobVersion < 1 || c.waitlistVersion < 1);
    index := IndexById(candidates, (c: Candidate) => c.jobId, usable);
    SameTests(candidates, (c: Candidate) => c.jobId, usable, JobId, Usable);
  }

  method OrderCandidates(ids: seq<string>, candidates: seq<Candidate>) returns (result: Ordered<Candidate>)
    ensures result.Ok? <==> CanBeOrdered(ids, candidates)
    ensures result.Ok? ==> LookedUp(ids, candidates, JobId, result.order)
    ensures result == Err(Validation) <==> exists k :: IsFirstBad(candidates, JobId, Usable, k)
    ensures result.Err? ==> result.failure == Validation || result.failure == Conflict
  {
    var index := FileCandidates(candidates);
    if !index.Indexed? {
      return Err(if index.Bad? then Validation else Conflict);
    }
    if |index.byId| != |ids| {
      return Err(Conflict);
    }
    var order: seq<Candidate> := [];
    for k := 0 to |ids|
      invariant LookedUp(ids[..k], candidates, JobId, order) && KnowsAll(candidates, JobId, ids[..k])
    {
      KnownIsMapped(index.byId, candidates, JobId, ids[k]);
      if ids[k] !in index.byId {
        return Err(Conflict);
      }
      order := order + [index.byId[ids[k]]];
    }
    assert ids[..|ids|] == ids;
    result := Ok(order);
  }

  ghost function StopId(s: Stop): string {
    s.id
  }

  ghost predicate Sound(s: Stop) {
    s.id != "" && s.location.Valid() && s.workDuration > 0
  }

  /** The items with these identifiers; nothing when one is unknown or asked for twice. */
  method LookUpOnce<T(!new)>(ids: seq<string>, items: seq<T>, ghost idOf: T -> string, byId: map<string, T>)
    returns (result: Option<seq<T>>)
    requires MapsById(byId, items, idOf)
    ensures result.Some? <==> Distinct(ids) && KnowsAll(items, idOf, ids)
    ensures result.Some? ==> LookedUp(ids, items, idOf, result.value)
  {
    var order: seq<T> := [];
    var seen: set<string> := {};
    for k := 0 to |ids|
      invariant LookedUp(ids[..k], items, idOf, order) && Distinct(ids[..k]) && KnowsAll(items, idOf, ids[..k])
      invariant forall id :: id in seen <==> id in ids[..k]
    {
      KnownIsMapped(byId, items, idOf, ids[k]);
      if ids[k] !in byId {
        return None;
      }
      if ids[k] in seen {
        RepeatedPin(ids, k);
        return None;
      }
      seen := seen + {ids[k]};
      order := order + [byId[ids[k]]];
    }
    assert ids[..|ids|] == ids;
    result := Some(order);
  }

  /** Identifiers come without surrounding space. */
  method OrderStops(ids: seq<string>, stops: seq<Stop>) returns (result: Ordered<Stop>)
    ensures result.Ok? <==> |ids| == |stops| && All(stops, Sound) && IdentifiedBy(stops, StopId) && Distinct(ids)
                            && KnowsAll(stops, StopId, ids)
    ensures result.Ok? ==> LookedUp(ids, stops, StopId, result.order)
    ensures result == Err(Conflict) <==> |ids| == |stops| && !(All(stops, Sound) && IdentifiedBy(stops, StopId))
  {
    if |ids| != |stops| {
      return Err(Validation);
    }
    var sound := (s: Stop) => !(s.id == "" || !s.location.Valid() || s.workDuration <= 0);
    var index := IndexById(stops, (s: Stop) => s.id, sound);
    SameTests(stops, (s: Stop) => s.id, sound, StopId, Sound);
    if !index.Indexed? {
      return Err(Conflict);
    }
    var order := LookUpOnce(ids, stops, StopId, index.byId);
    result := if order.Some? then Ok(order.value) else Err(Validation);
  }

  /** Distinct members, as many as there are distinct items, are all the items. */
  lemma {:induction false} DistinctOrderPermutes<T>(order: seq<T>, items: seq<T>)
    requires Distinct(order) && Distinct(items) && |order| == |items| && forall x :: x in order ==> x in items
    ensures multiset(order) == multiset(items)
    decreases |order|
  {
    if order != [] {
      var last := order[|order| - 1];
      assert last in order;
      var at :| 0 <= at < |items| && items[at] == last;
      var front, rest := order[..|order| - 1], Without(items, at);
      forall x | x in front ensures x in rest {
        assert x in order && x != last;
        var k :| 0 <= k < |items| && items[k] == x;
        assert rest[if k < at then k else k - 1] == x;
      }
      assert Distinct(rest);
      DistinctOrderPermutes(front, rest);
      LastCounts(order);
      WithoutMultiset(items, at);
    }
  }

  /** As many distinct identifiers as items: the order is a rearrangement. With a repeated one some item is lost. */
  lemma OrderIsPermutation<T(!new)>(ids: seq<string>, items: seq<T>, idOf: T -> string, order: seq<T>)
    requires LookedUp(ids, items, idOf, order) && IdentifiedBy(items, idOf) && |ids| == |items|
    ensures multiset(order) == multiset(items) <==> Distinct(ids)
  {
    if Distinct(ids) {
      DistinctOrderPermutes(order, items);
    } else {
      var i, j :| 0 <= i < j < |ids| && ids[i] == ids[j];
      var a, b :| 0 <= a < |items| && items[a] == order[i] && 0 <= b < |items| && items[b] == order[j];
      assert order[i] == order[j];
      if multiset(order) == multiset(items) { PermutationDistinct(order, items); }
    }
  }

  // ---------- From the request to the order of the stops ----------

  function PinsAmong(fixedIds: seq<string>, ids: seq<string>): (pins: seq<string>)
    ensures forall id :: id in pins <==> id in fixedIds && id in ids
  {
    if fixedIds == [] then []
    else
      var front, last := PinsAmong(fixedIds[..|fixedIds| - 1], ids), fixedIds[|fixedIds| - 1];
      if last in ids then front + [last] else front
  }

  lemma PickedIds(candidates: seq<Candidate>, tour: seq<int>)
    requires InRange(tour, |candidates|)
    ensures Ids(Picked(candidates, tour)) == Picked(Ids(candidates), tour)
  {
  }

  lemma TourVisitsEachId(p: Problem, candidates: seq<Candidate>, tour: seq<int>, seed: int)
    requires IsGreedyTour(p, tour, seed) && p.ids == Ids(candidates)
    ensures InRange(tour, |candidates|) && multiset(Ids(Picked(candidates, tour))) == multiset(p.ids)
  {
    TourVisitsEachOnce(p, tour, seed, p.ids);
    PickedIds(candidates, tour);
  }

  lemma OptimizedVisitsEachOnce(p: Problem, candidates: seq<Candidate>, order: seq<Candidate>)
    requires Solves(p, candidates, order) && p.ids == Ids(candidates)
    ensures multiset(Ids(order)) == multiset(p.ids)
  {
    var tour, seed := TourBehind(p, candidates, order);
    TourVisitsEachId(p, candidates, tour, seed);
  }

  /** What is to be optimized: the jobs asked for, pinned where they are asked for among them. */
  ghost function PlanProblem(ids: seq<string>, fixedIds: seq<string>, endAtLastStop: bool, matrix: Option<Matrix>): Problem {
    Problem(ids, PinsAmong(fixedIds, ids), if matrix.Some? then matrix.value.cells else [], endAtLastStop)
  }

  /** An optimized order holds just the jobs asked for, pinned ones where they were asked for. */
  lemma OptimizedAnswersRequest(ids: seq<string>, fixedIds: seq<string>, endAtLastStop: bool, matrix: Option<Matrix>,
                                candidates: seq<Candidate>, asked: seq<Candidate>, order: seq<Candidate>)
    requires LookedUp(ids, candidates, JobId, asked) && All(candidates, Usable)
    requires Solves(PlanProblem(ids, fixedIds, endAtLastStop, matrix), asked, order)
    ensures |order| == |ids| && multiset(Ids(order)) == multiset(ids)
    ensures forall k :: 0 <= k < |ids| && ids[k] in fixedIds ==> order[k].jobId == ids[k]
    ensures forall c :: c in order ==> c in candidates && Usable(c)
  {
    assert Ids(asked) == ids;
    OptimizedVisitsEachOnce(PlanProblem(ids, fixedIds, endAtLastStop, matrix), asked, order);
    SameElements(order, asked);
    forall k | 0 <= k < |ids| && ids[k] in fixedIds ensures order[k].jobId == ids[k] {
      assert ids[k] in PinsAmong(fixedIds, ids);
    }
  }

  /** The jobs of a new route in the order they are driven: just those asked for, pinned ones where they were asked for. */
  method PlanOrder(ids: seq<string>, fixedIds: seq<string>, maxStops: nat, candidates: seq<Candidate>,
                   optimize: bool, endAtLastStop: bool, matrix: Option<Matrix>)
    returns (result: Option<seq<Candidate>>)
    ensures result.Some? <==>
      && 1 <= |ids| <= maxStops && "" !in ids && Distinct(ids) && CanBeOrdered(ids, candidates)
      && (optimize ==> Solvable(PlanProblem(ids, fixedIds, endAtLastStop, matrix), matrix))
    ensures result.Some? ==> 1 <= |ids| <= maxStops && multiset(Ids(result.value)) == multiset(ids)
    ensures result.Some? ==> forall k :: 0 <= k < |ids| && (!optimize || ids[k] in fixedIds) ==>
      |result.value| == |ids| && result.value[k].jobId == ids[k]
    ensures result.Some? ==> forall c :: c in result.value ==> c in candidates && Usable(c)
    ensures result.Some? && optimize ==>
      exists asked :: LookedUp(ids, candidates, JobId, asked)
                      && Solves(PlanProblem(ids, fixedIds, endAtLastStop, matrix), asked, result.value)
  {
    var valid := ValidateJobIds(ids, maxStops);
    if !valid {
      return None;
    }
    var ordered := OrderCandidates(ids, candidates);
    if ordered.Err? {
      return None;
    }
    assert Ids(ordered.order) == ids;
    if !optimize {
      return Some(ordered.order);
    }
    result := Optimize(ordered.order, PinsAmong(fixedIds, ids), endAtLastStop, matrix);
    if result.Some? { OptimizedAnswersRequest(ids, fixedIds, endAtLastStop, matrix, candidates, ordered.order, result.value); }
  }
}
