/** The order of a route's stops: pinned stops stay, the others follow the nearest neighbour, the best start wins. */
module RouteOrder {
  import opened Options
  import opened Ordering
  import opened RouteTimetable

  datatype Cell = Cell(distance: int, duration: int)

  /** Point 0 is the start, point `k` the `k`-th candidate, the last one the end unless the route ends at its last stop. */
  datatype Problem = Problem(ids: seq<string>, fixedIds: seq<string>, cells: seq<seq<Cell>>, endAtLastStop: bool) {
    ghost function Points(): nat {
      |ids| + if endAtLastStop then 1 else 2
    }

    predicate IsFixed(k: nat)
      requires k < |ids|
    {
      ids[k] in fixedIds
    }
  }

  ghost predicate ValidMatrix(cells: seq<seq<Cell>>, size: nat) {
    && |cells| == size
    && (forall i :: 0 <= i < size ==> |cells[i]| == size)
    && (forall i, j :: 0 <= i < size && 0 <= j < |cells[i]| ==> cells[i][j].distance >= 0 && cells[i][j].duration >= 0)
  }

  method ValidateMatrix(source: string, cells: seq<seq<Cell>>, size: nat) returns (ok: bool)
    ensures ok <==> source != "" && ValidMatrix(cells, size)
  {
    if source == "" || |cells| != size {
      return false;
    }
    for i := 0 to |cells|
      invariant forall k :: 0 <= k < i ==> |cells[k]| == size
      invariant forall k, j :: 0 <= k < i && 0 <= j < |cells[k]| ==> cells[k][j].distance >= 0 && cells[k][j].duration >= 0
    {
      if |cells[i]| != size || exists j | 0 <= j < |cells[i]| :: cells[i][j].distance < 0 || cells[i][j].duration < 0 {
        return false;
      }
    }
    ok := true;
  }

  ghost predicate Valid(p: Problem) {
    Distinct(p.ids) && ValidMatrix(p.cells, p.Points())
  }

  // ---------- Ranks ----------

  datatype Rank = Rank(duration: int, distance: int, name: string)

  predicate RankLe(a: Rank, b: Rank) {
    a.duration < b.duration
    || (a.duration == b.duration && (a.distance < b.distance || (a.distance == b.distance && StringLe(a.name, b.name))))
  }

  lemma RankLeOrder()
    ensures TotalPreorder(RankLe)
    ensures forall a, b :: RankLe(a, b) && RankLe(b, a) ==> a == b
  {
    StringLeOrder();
  }

  lemma RankLeTotal(a: Rank, b: Rank)
    ensures RankLe(a, b) || RankLe(b, a)
  {
    StringLeTotal(a.name, b.name);
  }

  lemma RankLeTransitive(a: Rank, b: Rank, c: Rank)
    requires RankLe(a, b) && RankLe(b, c)
    ensures RankLe(a, c)
  {
    if StringLe(a.name, b.name) && StringLe(b.name, c.name) { StringLeTransitive(a.name, b.name, c.name); }
  }

  /** How a stop ranks from where the route stands. */
  function StopRank(p: Problem, from: int, stop: int): Rank {
    if 0 <= from < |p.cells| && 1 <= stop <= |p.ids| && stop < |p.cells[from]|
    then Rank(p.cells[from][stop].duration, p.cells[from][stop].distance, p.ids[stop - 1])
    else Rank(0, 0, "")
  }

  function NearerFrom(p: Problem, from: int): (int, int) -> bool {
    (a: int, b: int) => RankLe(StopRank(p, from, a), StopRank(p, from, b))
  }

  lemma NearerIsOrder(p: Problem, from: int)
    ensures TotalPreorder(NearerFrom(p, from))
  {
    RankLeOrder();
  }

  // ---------- Greedy tours ----------

  /** Candidates are numbered from 1. */
  ghost predicate IsFree(p: Problem, stop: int) {
    1 <= stop <= |p.ids| && !p.IsFixed(stop - 1)
  }

  /** Where the route stands before position `k`. */
  ghost function Standing(tour: seq<int>, k: nat): int
    requires k <= |tour|
  {
    if k == 0 then 0 else tour[k - 1]
  }

  ghost predicate IsFirstFree(p: Problem, k: nat)
    requires k < |p.ids|
  {
    !p.IsFixed(k) && forall i :: 0 <= i < k ==> p.IsFixed(i)
  }

  /** From a point one stop is reached no later than another; both as late, over no longer a way; both as far, its
      identifier comes no later. Stops are numbered from 1. */
  ghost predicate NoFarther(p: Problem, from: int, stop: int, other: int)
    requires Valid(p) && 0 <= from <= |p.ids| && 1 <= stop <= |p.ids| && 1 <= other <= |p.ids|
  {
    var a, b := p.cells[from][stop], p.cells[from][other];
    && a.duration <= b.duration
    && (a.duration == b.duration ==>
          a.distance <= b.distance && (a.distance == b.distance ==> StringLe(p.ids[stop - 1], p.ids[other - 1])))
  }

  lemma RankLeIsNoFarther(p: Problem, from: int, stop: int, other: int)
    requires Valid(p) && 0 <= from <= |p.ids| && 1 <= stop <= |p.ids| && 1 <= other <= |p.ids|
    ensures RankLe(StopRank(p, from, stop), StopRank(p, from, other)) <==> NoFarther(p, from, stop, other)
  {
  }

  ghost predicate IsNearest(p: Problem, tour: seq<int>, k: nat)
    requires k < |tour|
  {
    forall other :: IsFree(p, other) && other !in tour[..k] ==>
      RankLe(StopRank(p, Standing(tour, k), tour[k]), StopRank(p, Standing(tour, k), other))
  }

  /** What position `k` of a tour must hold, given the positions before it. */
  ghost predicate GreedyAt(p: Problem, tour: seq<int>, seed: int, k: nat)
    requires k < |tour| <= |p.ids|
  {
    if p.IsFixed(k) then tour[k] == k + 1
    else
      && IsFree(p, tour[k]) && tour[k] !in tour[..k]
      && (if IsFirstFree(p, k) && seed != 0 then tour[k] == seed else IsNearest(p, tour, k))
  }

  ghost predicate IsGreedyTour(p: Problem, tour: seq<int>, seed: int) {
    |tour| == |p.ids| && forall k :: 0 <= k < |tour| ==> GreedyAt(p, tour, seed, k)
  }

  /** Seeds: every free candidate in turn, or none when all are pinned. */
  ghost predicate IsSeed(p: Problem, seed: int) {
    if exists stop :: IsFree(p, stop) then IsFree(p, seed) else seed == 0
  }

  lemma StandingInRange(p: Problem, tour: seq<int>, seed: int, k: nat)
    requires Valid(p) && IsGreedyTour(p, tour, seed) && k <= |tour|
    ensures 0 <= Standing(tour, k) <= |p.ids| < |p.cells| && |p.cells[Standing(tour, k)]| == |p.cells|
  {
    if k > 0 { assert GreedyAt(p, tour, seed, k - 1); }
  }

  /** With distinct identifiers no two stops tie, so a seed has only one greedy tour. */
  lemma {:induction false} GreedyTourIsUnique(p: Problem, a: seq<int>, b: seq<int>, seed: int, n: nat)
    requires Valid(p) && IsGreedyTour(p, a, seed) && IsGreedyTour(p, b, seed) && n <= |a|
    ensures a[..n] == b[..n]
  {
    if n > 0 {
      GreedyTourIsUnique(p, a, b, seed, n - 1);
      var k := n - 1;
      assert GreedyAt(p, a, seed, k) && GreedyAt(p, b, seed, k);
      assert Standing(a, k) == Standing(b, k) by { if k > 0 { assert a[..k][k - 1] == b[..k][k - 1]; } }
      if !p.IsFixed(k) && !(IsFirstFree(p, k) && seed != 0) {
        RankLeOrder();
        StandingInRange(p, a, seed, k);
        assert StopRank(p, Standing(a, k), a[k]) == StopRank(p, Standing(a, k), b[k]);
      }
      assert a[..n] == a[..k] + [a[k]] && b[..n] == b[..k] + [b[k]];
    }
  }

  /** The first position that is not pinned takes the seed; every further one the nearest of the stops still to be driven. */
  lemma TourTakesNearest(p: Problem, tour: seq<int>, seed: int, k: nat, other: int)
    requires Valid(p) && IsGreedyTour(p, tour, seed) && k < |tour| && p.ids[k] !in p.fixedIds
    requires 1 <= other <= |p.ids| && p.ids[other - 1] !in p.fixedIds && other !in tour[..k]
    ensures 1 <= tour[k] <= |p.ids| && 0 <= Standing(tour, k) <= |p.ids|
    ensures if seed != 0 && forall i :: 0 <= i < k ==> p.ids[i] in p.fixedIds then tour[k] == seed
            else NoFarther(p, if k == 0 then 0 else tour[k - 1], tour[k], other)
  {
    assert GreedyAt(p, tour, seed, k);
    StandingInRange(p, tour, seed, k);
    RankLeIsNoFarther(p, Standing(tour, k), tour[k], other);
    forall i | 0 <= i < k ensures p.IsFixed(i) <==> p.ids[i] in p.fixedIds {
    }
  }

  ghost predicate InRange(tour: seq<int>, n: nat) {
    forall k :: 0 <= k < |tour| ==> 1 <= tour[k] <= n
  }

  lemma TourStopsInRange(p: Problem, tour: seq<int>, seed: int)
    requires IsGreedyTour(p, tour, seed)
    ensures InRange(tour, |p.ids|)
  {
    forall k | 0 <= k < |tour| ensures 1 <= tour[k] <= |p.ids| {
      assert GreedyAt(p, tour, seed, k);
    }
  }

  lemma TourIsDistinct(p: Problem, tour: seq<int>, seed: int)
    requires IsGreedyTour(p, tour, seed)
    ensures Distinct(tour)
  {
    forall i, j | 0 <= i < j < |tour| ensures tour[i] != tour[j] {
      assert GreedyAt(p, tour, seed, i) && GreedyAt(p, tour, seed, j);
      assert tour[i] in tour[..j];
    }
  }

  function Picked<T>(items: seq<T>, tour: seq<int>): (r: seq<T>)
    requires InRange(tour, |items|)
    ensures |r| == |tour| && forall k :: 0 <= k < |tour| ==> r[k] == items[tour[k] - 1]
  {
    seq(|tour|, k requires 0 <= k < |tour| => items[tour[k] - 1])
  }

  lemma WithoutLargest(tour: seq<int>, at: nat, n: nat)
    requires Distinct(tour) && InRange(tour, n) && at < |tour| && tour[at] == n
    ensures Distinct(Without(tour, at)) && InRange(Without(tour, at), n - 1)
  {
    var rest := Without(tour, at);
    forall k | 0 <= k < |rest| ensures 1 <= rest[k] <= n - 1 {
      assert rest[k] == tour[if k < at then k else k + 1];
    }
  }

  lemma PickedWithout<T>(items: seq<T>, tour: seq<int>, at: nat)
    requires InRange(tour, |items|) && at < |tour| && tour[at] == |items| && InRange(Without(tour, at), |items| - 1)
    ensures Picked(items[..|items| - 1], Without(tour, at)) == Without(Picked(items, tour), at)
  {
  }

  lemma PickedCounts<T>(items: seq<T>, tour: seq<int>, at: nat)
    requires InRange(tour, |items|) && at < |tour| && tour[at] == |items| && InRange(Without(tour, at), |items| - 1)
    ensures multiset(Picked(items, tour)) ==
            multiset(Picked(items[..|items| - 1], Without(tour, at))) + multiset{items[|items| - 1]}
  {
    PickedWithout(items, tour, at);
    WithoutMultiset(Picked(items, tour), at);
  }

  lemma {:induction false} TooMany(tour: seq<int>, n: nat)
    requires Distinct(tour) && InRange(tour, n)
    ensures |tour| <= n
    decreases n
  {
    assert tour == [] || 1 <= tour[0] <= n;
    if n == 0 {
    } else if n in tour {
      var at :| 0 <= at < |tour| && tour[at] == n;
      WithoutLargest(tour, at, n);
      TooMany(Without(tour, at), n - 1);
    } else {
      TooMany(tour, n - 1);
    }
  }

  /** `n` distinct numbers between 1 and `n` include `n`. */
  lemma LastIsVisited(tour: seq<int>, n: nat)
    requires Distinct(tour) && |tour| == n >= 1 && InRange(tour, n)
    ensures exists at :: 0 <= at < n && tour[at] == n
  {
    if n !in tour {
      TooMany(tour, n - 1);
    }
  }

  /** Picking by distinct indices, as many as there are items, rearranges the items. */
  lemma {:induction false} PickedPermutes<T>(items: seq<T>, tour: seq<int>)
    requires Distinct(tour) && |tour| == |items| && InRange(tour, |items|)
    ensures multiset(Picked(items, tour)) == multiset(items)
  {
    var n := |items|;
    if n > 0 {
      LastIsVisited(tour, n);
      var at :| 0 <= at < n && tour[at] == n;
      WithoutLargest(tour, at, n);
      PickedCounts(items, tour, at);
      LastCounts(items);
      PickedPermutes(items[..n - 1], Without(tour, at));
    }
  }

  /** A tour visits every candidate once, and a pinned one where it was. */
  lemma TourVisitsEachOnce<T>(p: Problem, tour: seq<int>, seed: int, items: seq<T>)
    requires IsGreedyTour(p, tour, seed) && |items| == |p.ids|
    ensures InRange(tour, |items|) && multiset(Picked(items, tour)) == multiset(items)
    ensures forall k :: 0 <= k < |items| && p.IsFixed(k) ==> Picked(items, tour)[k] == items[k]
  {
    TourStopsInRange(p, tour, seed);
    TourIsDistinct(p, tour, seed);
    PickedPermutes(items, tour);
    forall k | 0 <= k < |items| && p.IsFixed(k) ensures Picked(items, tour)[k] == items[k] {
      assert GreedyAt(p, tour, seed, k);
    }
  }

  // ---------- Building one tour ----------

  /** The free candidates from position `k` on. */
  ghost function FreeFrom(p: Problem, k: nat): seq<int>
    requires k <= |p.ids|
    decreases |p.ids| - k
  {
    if k == |p.ids| then [] else (if p.IsFixed(k) then [] else [k + 1]) + FreeFrom(p, k + 1)
  }

  lemma {:induction false} FreeFromHolds(p: Problem, k: nat)
    requires k <= |p.ids|
    ensures forall x :: x in FreeFrom(p, k) <==> IsFree(p, x) && x > k
    ensures Distinct(FreeFrom(p, k))
    decreases |p.ids| - k
  {
    if k < |p.ids| {
      FreeFromHolds(p, k + 1);
      var rest := FreeFrom(p, k + 1);
      assert forall i :: 0 <= i < |rest| ==> rest[i] in rest;
    }
  }

  lemma WithoutHolds(s: seq<int>, at: nat)
    requires at < |s| && Distinct(s)
    ensures Distinct(Without(s, at)) && |Without(s, at)| == |s| - 1
    ensures forall x :: x in Without(s, at) <==> x in s && x != s[at]
  {
    var r := Without(s, at);
    forall x | x in s && x != s[at] ensures x in r {
      var k :| 0 <= k < |s| && s[k] == x;
      assert r[if k < at then k else k - 1] == x;
    }
  }

  method IndexOf(s: seq<int>, x: int) returns (at: nat)
    requires x in s
    ensures at < |s| && s[at] == x
  {
    at := 0;
    while s[at] != x
      invariant at < |s| && x !in s[..at]
      decreases |s| - at
    {
      assert s == s[..at] + [s[at]] + s[at + 1..];
      at := at + 1;
    }
  }

  /** The seed while it is pending, else the nearest stop that is left. */
  method TakeNext(p: Problem, available: seq<int>, current: int, pending: bool, seed: int)
    returns (next: int, left: seq<int>)
    requires available != [] && Distinct(available) && (pending ==> seed in available)
    ensures next in available && Distinct(left) && |left| == |available| - 1
    ensures forall x :: x in left <==> x in available && x != next
    ensures pending ==> next == seed
    ensures !pending ==> forall x :: x in available ==> RankLe(StopRank(p, current, next), StopRank(p, current, x))
  {
    if pending {
      var at := IndexOf(available, seed);
      WithoutHolds(available, at);
      next, left := seed, available[..at] + available[at + 1..];
    } else {
      NearerIsOrder(p, current);
      var sorted := Sort(available, NearerFrom(p, current));
      PermutationDistinct(sorted, available);
      WithoutHolds(sorted, 0);
      next, left := sorted[0], sorted[1..];
      forall x | x in available ensures RankLe(StopRank(p, current, next), StopRank(p, current, x)) {
        var k :| 0 <= k < |sorted| && sorted[k] == x;
        if k > 0 { assert NearerFrom(p, current)(sorted[0], sorted[k]); } else { RankLeOrder(); }
      }
    }
  }

  /** The first `k` positions are as they must be, and `available` is what is left. */
  ghost predicate Builds(p: Problem, tour: seq<int>, seed: int, available: seq<int>) {
    && |tour| <= |p.ids| && (forall i :: 0 <= i < |tour| ==> GreedyAt(p, tour, seed, i))
    && Distinct(available) && |available| == |FreeFrom(p, |tour|)|
    && (forall x :: x in available <==> IsFree(p, x) && x !in tour)
  }

  ghost predicate Pending(p: Problem, k: nat, seed: int)
    requires k <= |p.ids|
  {
    seed != 0 && forall i :: 0 <= i < k ==> p.IsFixed(i)
  }

  lemma PendingSeedIsLeft(p: Problem, tour: seq<int>, seed: int, available: seq<int>)
    requires Builds(p, tour, seed, available) && Pending(p, |tour|, seed) && IsSeed(p, seed)
    ensures seed in available
  {
    forall i | 0 <= i < |tour| ensures tour[i] != seed {
      assert GreedyAt(p, tour, seed, i) && p.IsFixed(i);
    }
  }

  lemma GreedyAtGrows(p: Problem, tour: seq<int>, next: int, seed: int, i: nat)
    requires i < |tour| < |p.ids| && GreedyAt(p, tour, seed, i)
    ensures GreedyAt(p, tour + [next], seed, i)
  {
    assert (tour + [next])[..i] == tour[..i];
  }

  lemma PinnedStep(p: Problem, tour: seq<int>, seed: int, available: seq<int>)
    requires Builds(p, tour, seed, available) && |tour| < |p.ids| && p.IsFixed(|tour|)
    ensures Builds(p, tour + [|tour| + 1], seed, available)
  {
    var longer := tour + [|tour| + 1];
    forall i | 0 <= i < |longer| ensures GreedyAt(p, longer, seed, i) {
      if i < |tour| { GreedyAtGrows(p, tour, |tour| + 1, seed, i); }
    }
    forall x ensures x in available <==> IsFree(p, x) && x !in longer {
      assert x in longer <==> x in tour || x == |tour| + 1;
    }
  }

  lemma FreeStep(p: Problem, tour: seq<int>, seed: int, available: seq<int>, next: int, left: seq<int>)
    requires Builds(p, tour, seed, available) && |tour| < |p.ids| && !p.IsFixed(|tour|)
    requires next in available && Distinct(left) && |left| == |available| - 1
    requires forall x :: x in left <==> x in available && x != next
    requires if Pending(p, |tour|, seed) then next == seed
             else forall x :: x in available ==>
               RankLe(StopRank(p, Standing(tour, |tour|), next), StopRank(p, Standing(tour, |tour|), x))
    ensures Builds(p, tour + [next], seed, left)
  {
    var longer := tour + [next];
    assert longer[..|tour|] == tour && Standing(longer, |tour|) == Standing(tour, |tour|);
    forall i | 0 <= i < |longer| ensures GreedyAt(p, longer, seed, i) {
      if i < |tour| { GreedyAtGrows(p, tour, next, seed, i); }
    }
    forall x ensures x in left <==> IsFree(p, x) && x !in longer {
      assert x in longer <==> x in tour || x == next;
    }
  }

  method BuildOrder(p: Problem, remaining: seq<int>, seed: int) returns (tour: seq<int>)
    requires remaining == FreeFrom(p, 0) && IsSeed(p, seed)
    ensures IsGreedyTour(p, tour, seed)
  {
    var available := remaining;
    FreeFromHolds(p, 0);
    tour := [];
    var current := 0;
    var pending := seed != 0;
    for k := 0 to |p.ids|
      invariant |tour| == k && Builds(p, tour, seed, available)
      invariant current == Standing(tour, k) && (pending <==> Pending(p, k, seed))
    {
      if p.IsFixed(k) {
        PinnedStep(p, tour, seed, available);
        tour := tour + [k + 1];
        current := k + 1;
        continue;
      }
      if pending { PendingSeedIsLeft(p, tour, seed, available); }
      var next, left := TakeNext(p, available, current, pending, seed);
      FreeStep(p, tour, seed, available, next, left);
      pending := false;
      available, tour, current := left, tour + [next], next;
    }
  }

  // ---------- Pinned stops ----------

  ghost predicate PinsAreValid(p: Problem) {
    Distinct(p.fixedIds) && forall id :: id in p.fixedIds ==> id != "" && id in p.ids
  }

  lemma RepeatedPin(pins: seq<string>, k: nat)
    requires k < |pins| && pins[k] in pins[..k]
    ensures !Distinct(pins)
  {
    var i :| 0 <= i < k && pins[..k][i] == pins[k];
    assert pins[i] == pins[k];
  }

  lemma FreeFromStep(p: Problem, free: seq<int>, k: nat)
    requires k < |p.ids|
    ensures free + FreeFrom(p, k) == (if p.IsFixed(k) then free else free + [k + 1]) + FreeFrom(p, k + 1)
  {
  }

  /** The free candidates, or nothing when a pinned identifier is empty, repeated or unknown. */
  method FreeCandidates(p: Problem) returns (result: Option<seq<int>>)
    requires Distinct(p.ids)
    ensures result.Some? <==> PinsAreValid(p)
    ensures result.Some? ==> result.value == FreeFrom(p, 0)
  {
    var pins: set<string> := {};
    for k := 0 to |p.fixedIds|
      invariant Distinct(p.fixedIds[..k]) && "" !in pins
      invariant forall id :: id in pins <==> id in p.fixedIds[..k]
    {
      assert p.fixedIds[k] in p.fixedIds;
      if p.fixedIds[k] == "" || p.fixedIds[k] in pins {
        if p.fixedIds[k] in pins { RepeatedPin(p.fixedIds, k); }
        return None;
      }
      pins := pins + {p.fixedIds[k]};
    }
    assert p.fixedIds[..|p.fixedIds|] == p.fixedIds;
    var free: seq<int> := [];
    for k := 0 to |p.ids|
      invariant forall id :: id in pins <==> id in p.fixedIds && id !in p.ids[..k]
      invariant free + FreeFrom(p, k) == FreeFrom(p, 0)
    {
      assert p.ids[k] !in p.ids[..k];
      assert p.ids[..k + 1] == p.ids[..k] + [p.ids[k]];
      FreeFromStep(p, free, k);
      if p.ids[k] !in pins {
        free := free + [k + 1];
      }
      pins := pins - {p.ids[k]};
    }
    assert p.ids[..|p.ids|] == p.ids;
    if pins != {} {
      ghost var unknown :| unknown in pins;
      assert unknown in p.fixedIds && unknown !in p.ids;
      return None;
    }
    result := Some(free);
  }

  // ---------- The cost of a path ----------

  ghost predicate InMatrix(cells: seq<seq<Cell>>, path: seq<int>) {
    && ValidMatrix(cells, |cells|) && |cells| > 0 && forall k :: 0 <= k < |path| ==> 0 <= path[k] < |cells|
  }

  /** Total distance and duration of a path from point 0. */
  ghost function Total(cells: seq<seq<Cell>>, path: seq<int>): (t: Cell)
    requires InMatrix(cells, path)
    ensures t.distance >= 0 && t.duration >= 0
  {
    if path == [] then Cell(0, 0)
    else
      var front := path[..|path| - 1];
      var leg := cells[Standing(front, |front|)][path[|path| - 1]];
      Cell(Total(cells, front).distance + leg.distance, Total(cells, front).duration + leg.duration)
  }

  ghost predicate Fits(t: Cell) {
    t.distance <= MAX_INT64 && t.duration <= MAX_INT64
  }

  /** A path is at least as long as its beginning. */
  lemma {:induction false} TotalGrows(cells: seq<seq<Cell>>, path: seq<int>, n: nat)
    requires InMatrix(cells, path) && n <= |path|
    ensures Total(cells, path[..n]).distance <= Total(cells, path).distance
    ensures Total(cells, path[..n]).duration <= Total(cells, path).duration
    decreases |path|
  {
    if n == |path| {
      assert path[..n] == path;
    } else {
      var front := path[..|path| - 1];
      TotalGrows(cells, front, n);
      assert front[..n] == path[..n];
    }
  }

  /** Adds up a path; stops where a sum would pass the largest int64. */
  method Measure(cells: seq<seq<Cell>>, path: seq<int>) returns (result: Option<Cell>)
    requires InMatrix(cells, path)
    ensures result.Some? <==> Fits(Total(cells, path))
    ensures result.Some? ==> result.value == Total(cells, path)
  {
    var current, distance, duration := 0, 0, 0;
    for k := 0 to |path|
      invariant current == Standing(path, k)
      invariant Total(cells, path[..k]) == Cell(distance, duration) && Fits(Cell(distance, duration))
    {
      var cell := cells[current][path[k]];
      assert path[..k + 1][..k] == path[..k];
      assert Total(cells, path[..k + 1]) == Cell(distance + cell.distance, duration + cell.duration);
      if cell.duration > MAX_INT64 - duration || cell.distance > MAX_INT64 - distance {
        TotalGrows(cells, path, k + 1);
        return None;
      }
      duration, distance, current := duration + cell.duration, distance + cell.distance, path[k];
    }
    assert path[..|path|] == path;
    result := Some(Cell(distance, duration));
  }

  // ---------- The best tour ----------

  ghost function PathOf(p: Problem, tour: seq<int>): seq<int> {
    if p.endAtLastStop then tour else tour + [p.Points() - 1]
  }

  /** Identifiers in order, a zero octet between neighbours. */
  function Joined(ids: seq<string>): string {
    JoinWith(ids, [0 as char])
  }

  lemma PathInMatrix(p: Problem, tour: seq<int>)
    requires Valid(p) && InRange(tour, |p.ids|)
    ensures InMatrix(p.cells, PathOf(p, tour))
  {
  }

  /** The leg to a stop of the tour: from the start, or from the stop before it. */
  ghost function LegTo(p: Problem, tour: seq<int>, k: nat): Cell
    requires Valid(p) && InRange(tour, |p.ids|) && k < |tour|
  {
    p.cells[if k == 0 then 0 else tour[k - 1]][tour[k]]
  }

  /** The leg to the end of a route that does not end at its last stop. */
  ghost function LegToEnd(p: Problem, tour: seq<int>): Cell
    requires Valid(p) && InRange(tour, |p.ids|) && !p.endAtLastStop
  {
    p.cells[if tour == [] then 0 else tour[|tour| - 1]][|p.ids| + 1]
  }

  ghost function TimeTo(p: Problem, tour: seq<int>, k: nat): int
    requires Valid(p) && InRange(tour, |p.ids|) && k <= |tour|
  {
    if k == 0 then 0 else TimeTo(p, tour, k - 1) + LegTo(p, tour, k - 1).duration
  }

  ghost function DistanceTo(p: Problem, tour: seq<int>, k: nat): int
    requires Valid(p) && InRange(tour, |p.ids|) && k <= |tour|
  {
    if k == 0 then 0 else DistanceTo(p, tour, k - 1) + LegTo(p, tour, k - 1).distance
  }

  ghost function TravelTime(p: Problem, tour: seq<int>): int
    requires Valid(p) && InRange(tour, |p.ids|)
  {
    TimeTo(p, tour, |tour|) + if p.endAtLastStop then 0 else LegToEnd(p, tour).duration
  }

  ghost function TravelDistance(p: Problem, tour: seq<int>): int
    requires Valid(p) && InRange(tour, |p.ids|)
  {
    DistanceTo(p, tour, |tour|) + if p.endAtLastStop then 0 else LegToEnd(p, tour).distance
  }

  ghost function TourTotal(p: Problem, tour: seq<int>): Cell
    requires Valid(p) && InRange(tour, |p.ids|)
  {
    Cell(TravelDistance(p, tour), TravelTime(p, tour))
  }

  lemma {:induction false} StopsTotal(p: Problem, tour: seq<int>, k: nat)
    requires Valid(p) && InRange(tour, |p.ids|) && k <= |tour|
    ensures InMatrix(p.cells, tour[..k])
    ensures Total(p.cells, tour[..k]) == Cell(DistanceTo(p, tour, k), TimeTo(p, tour, k))
  {
    if k > 0 {
      StopsTotal(p, tour, k - 1);
      assert tour[..k][..k - 1] == tour[..k - 1];
    }
  }

  /** What is added up along the path of a tour is its travel, the way to the end included where there is one. */
  lemma PathTotalIsTravel(p: Problem, tour: seq<int>)
    requires Valid(p) && InRange(tour, |p.ids|)
    ensures InMatrix(p.cells, PathOf(p, tour)) && Total(p.cells, PathOf(p, tour)) == TourTotal(p, tour)
  {
    PathInMatrix(p, tour);
    StopsTotal(p, tour, |tour|);
    assert tour[..|tour|] == tour;
    if !p.endAtLastStop {
      var path := tour + [|p.ids| + 1];
      assert path[..|path| - 1] == tour && PathOf(p, tour) == path;
    }
  }

  ghost function TourRank(p: Problem, tour: seq<int>): Rank
    requires Valid(p) && InRange(tour, |p.ids|)
  {
    var t := TourTotal(p, tour);
    Rank(t.duration, t.distance, Joined(Picked(p.ids, tour)))
  }

  datatype Ranked = Ranked(tour: seq<int>, rank: Rank)

  /** No greedy tour from this seed ranks before the tour. */
  ghost predicate AtLeastAsGood(p: Problem, tour: seq<int>, seed: int)
    requires Valid(p) && InRange(tour, |p.ids|)
  {
    forall other :: IsGreedyTour(p, other, seed) && InRange(other, |p.ids|) ==> RankLe(TourRank(p, tour), TourRank(p, other))
  }

  ghost predicate SeedOverflows(p: Problem, seed: int)
    requires Valid(p)
  {
    exists tour :: IsGreedyTour(p, tour, seed) && InRange(tour, |p.ids|) && !Fits(TourTotal(p, tour))
  }

  ghost predicate FromSomeSeed(p: Problem, tour: seq<int>) {
    exists seed :: IsSeed(p, seed) && IsGreedyTour(p, tour, seed)
  }

  ghost predicate IsBestTour(p: Problem, tour: seq<int>)
    requires Valid(p)
  {
    && InRange(tour, |p.ids|) && FromSomeSeed(p, tour)
    && (forall seed :: IsSeed(p, seed) ==> AtLeastAsGood(p, tour, seed))
  }

  /** From one seed there is one tour, so it stands for all tours from that seed. */
  lemma OnlyTour(p: Problem, tour: seq<int>, other: seq<int>, seed: int)
    requires Valid(p) && IsGreedyTour(p, tour, seed) && IsGreedyTour(p, other, seed)
    ensures other == tour
  {
    GreedyTourIsUnique(p, tour, other, seed, |tour|);
    assert tour[..|tour|] == tour && other[..|tour|] == other;
  }

  lemma OwnTourIsAtLeastAsGood(p: Problem, tour: seq<int>, seed: int)
    requires Valid(p) && IsGreedyTour(p, tour, seed) && InRange(tour, |p.ids|)
    ensures AtLeastAsGood(p, tour, seed)
  {
    forall other | IsGreedyTour(p, other, seed) && InRange(other, |p.ids|)
      ensures RankLe(TourRank(p, tour), TourRank(p, other))
    {
      OnlyTour(p, tour, other, seed);
      RankLeTotal(TourRank(p, tour), TourRank(p, tour));
    }
  }

  lemma OwnTourTellsOverflow(p: Problem, tour: seq<int>, seed: int)
    requires Valid(p) && IsGreedyTour(p, tour, seed) && InRange(tour, |p.ids|)
    ensures SeedOverflows(p, seed) <==> !Fits(TourTotal(p, tour))
  {
    if SeedOverflows(p, seed) {
      var other :| IsGreedyTour(p, other, seed) && InRange(other, |p.ids|) && !Fits(TourTotal(p, other));
      OnlyTour(p, tour, other, seed);
    }
  }

  lemma BetterIsAtLeastAsGood(p: Problem, better: seq<int>, tour: seq<int>, seed: int)
    requires Valid(p) && InRange(better, |p.ids|) && InRange(tour, |p.ids|) && AtLeastAsGood(p, tour, seed)
    requires RankLe(TourRank(p, better), TourRank(p, tour))
    ensures AtLeastAsGood(p, better, seed)
  {
    forall other | IsGreedyTour(p, other, seed) && InRange(other, |p.ids|)
      ensures RankLe(TourRank(p, better), TourRank(p, other))
    {
      RankLeTransitive(TourRank(p, better), TourRank(p, tour), TourRank(p, other));
    }
  }

  /** A seed whose tours do not overflow and do not rank before the tour. */
  ghost predicate Settled(p: Problem, tour: seq<int>, seed: int)
    requires Valid(p) && InRange(tour, |p.ids|)
  {
    AtLeastAsGood(p, tour, seed) && !SeedOverflows(p, seed)
  }

  ghost function SettledBy(p: Problem, tour: seq<int>): int -> bool {
    seed => Valid(p) && InRange(tour, |p.ids|) && Settled(p, tour, seed)
  }

  ghost predicate HoldsBefore(good: int -> bool, seeds: seq<int>, done: nat)
    requires done <= |seeds|
  {
    done == 0 || (HoldsBefore(good, seeds, done - 1) && good(seeds[done - 1]))
  }

  lemma {:induction false} HoldsAmong(good: int -> bool, seeds: seq<int>, done: nat, at: nat)
    requires at < done <= |seeds| && HoldsBefore(good, seeds, done)
    ensures good(seeds[at])
  {
    if at < done - 1 { HoldsAmong(good, seeds, done - 1, at); }
  }

  lemma {:induction false} WeakerHolds(strong: int -> bool, weak: int -> bool, seeds: seq<int>, done: nat)
    requires done <= |seeds| && HoldsBefore(strong, seeds, done) && forall seed :: strong(seed) ==> weak(seed)
    ensures HoldsBefore(weak, seeds, done)
  {
    if done != 0 { WeakerHolds(strong, weak, seeds, done - 1); }
  }

  /** After the first `done` seeds: the tour kept is as good as any of theirs, and none of theirs overflows. */
  ghost predicate BestSoFar(p: Problem, seeds: seq<int>, done: nat, best: Ranked)
    requires Valid(p) && done <= |seeds|
  {
    && InRange(best.tour, |p.ids|) && best.rank == TourRank(p, best.tour) && FromSomeSeed(p, best.tour)
    && HoldsBefore(SettledBy(p, best.tour), seeds, done)
  }

  lemma OwnSeedIsSettled(p: Problem, tour: seq<int>, seed: int)
    requires Valid(p) && IsSeed(p, seed) && IsGreedyTour(p, tour, seed) && InRange(tour, |p.ids|) && Fits(TourTotal(p, tour))
    ensures Settled(p, tour, seed) && FromSomeSeed(p, tour)
  {
    OwnTourIsAtLeastAsGood(p, tour, seed);
    OwnTourTellsOverflow(p, tour, seed);
  }

  lemma BetterIsSettled(p: Problem, better: seq<int>, tour: seq<int>, seed: int)
    requires Valid(p) && InRange(better, |p.ids|) && InRange(tour, |p.ids|) && Settled(p, tour, seed)
    requires RankLe(TourRank(p, better), TourRank(p, tour))
    ensures Settled(p, better, seed)
  {
    BetterIsAtLeastAsGood(p, better, tour, seed);
  }

  lemma AllStaySettled(p: Problem, seeds: seq<int>, done: nat, best: seq<int>, tour: seq<int>)
    requires Valid(p) && done <= |seeds| && InRange(best, |p.ids|) && InRange(tour, |p.ids|)
    requires HoldsBefore(SettledBy(p, best), seeds, done) && RankLe(TourRank(p, tour), TourRank(p, best))
    ensures HoldsBefore(SettledBy(p, tour), seeds, done)
  {
    forall seed | SettledBy(p, best)(seed) ensures SettledBy(p, tour)(seed) {
      BetterIsSettled(p, tour, best, seed);
    }
    WeakerHolds(SettledBy(p, best), SettledBy(p, tour), seeds, done);
  }

  lemma BestIsBestTour(p: Problem, seeds: seq<int>, best: Ranked)
    requires Valid(p) && BestSoFar(p, seeds, |seeds|, best) && forall x :: x in seeds <==> IsSeed(p, x)
    ensures IsBestTour(p, best.tour) && forall seed :: IsSeed(p, seed) ==> !SeedOverflows(p, seed)
  {
    forall seed | IsSeed(p, seed) ensures AtLeastAsGood(p, best.tour, seed) && !SeedOverflows(p, seed) {
      var at: nat :| at < |seeds| && seeds[at] == seed;
      HoldsAmong(SettledBy(p, best.tour), seeds, |seeds|, at);
    }
  }

  // ---------- Optimizing ----------

  datatype Candidate = Candidate(jobId: string, location: Point, workDuration: int, jobVersion: int, waitlistVersion: int)

  datatype Matrix = Matrix(source: string, cells: seq<seq<Cell>>)

  function Ids(candidates: seq<Candidate>): (ids: seq<string>)
    ensures |ids| == |candidates| && forall k :: 0 <= k < |ids| ==> ids[k] == candidates[k].jobId
  {
    seq(|candidates|, k requires 0 <= k < |candidates| => candidates[k].jobId)
  }

  /** The tour takes no longer than the other; where both take as long it is no farther, and where both are as far its
      identifiers, joined by zero octets, come no later. */
  ghost predicate NoLonger(p: Problem, tour: seq<int>, other: seq<int>)
    requires Valid(p) && InRange(tour, |p.ids|) && InRange(other, |p.ids|)
  {
    && TravelTime(p, tour) <= TravelTime(p, other)
    && (TravelTime(p, tour) == TravelTime(p, other) ==>
          && TravelDistance(p, tour) <= TravelDistance(p, other)
          && (TravelDistance(p, tour) == TravelDistance(p, other) ==>
                StringLe(JoinWith(Picked(p.ids, tour), [0 as char]), JoinWith(Picked(p.ids, other), [0 as char]))))
  }

  /** A tour that can be driven from some seed. */
  ghost predicate IsTour(p: Problem, tour: seq<int>, seed: int) {
    IsSeed(p, seed) && IsGreedyTour(p, tour, seed) && InRange(tour, |p.ids|)
  }

  /** No tour from any seed passes the largest int64. */
  ghost predicate ToursFit(p: Problem)
    requires Valid(p)
  {
    forall tour, seed :: IsTour(p, tour, seed) ==>
      TravelTime(p, tour) <= 0x7fff_ffff_ffff_ffff && TravelDistance(p, tour) <= 0x7fff_ffff_ffff_ffff
  }

  /** Pins and matrix are valid, and every tour can be measured. */
  ghost predicate Solvable(p: Problem, matrix: Option<Matrix>) {
    && PinsAreValid(p) && matrix.Some? && matrix.value.source != "" && p.cells == matrix.value.cells && Valid(p) && ToursFit(p)
  }

  /** The order is a permutation that leaves pinned candidates in place and takes no longer than any tour from any seed. */
  ghost predicate Solves(p: Problem, candidates: seq<Candidate>, order: seq<Candidate>) {
    && |candidates| == |order| == |p.ids| && multiset(order) == multiset(candidates)
    && (forall k :: 0 <= k < |order| && p.ids[k] in p.fixedIds ==> order[k] == candidates[k])
    && Valid(p) && exists tour, seed :: IsTour(p, tour, seed) && order == Picked(candidates, tour)
                                        && forall other, from :: IsTour(p, other, from) ==> NoLonger(p, tour, other)
  }

  lemma NoOverflowMeans(p: Problem)
    requires Valid(p)
    ensures (forall seed :: IsSeed(p, seed) ==> !SeedOverflows(p, seed)) <==> ToursFit(p)
  {
    forall seed | IsSeed(p, seed)
      ensures SeedOverflows(p, seed) <==>
        exists tour :: IsTour(p, tour, seed) && !(TravelTime(p, tour) <= MAX_INT64 && TravelDistance(p, tour) <= MAX_INT64)
    {
      if SeedOverflows(p, seed) {
        var tour :| IsGreedyTour(p, tour, seed) && InRange(tour, |p.ids|) && !Fits(TourTotal(p, tour));
        assert IsTour(p, tour, seed);
      }
    }
  }

  lemma BestIsNoLonger(p: Problem, tour: seq<int>, other: seq<int>, seed: int)
    requires Valid(p) && IsBestTour(p, tour) && IsTour(p, other, seed)
    ensures NoLonger(p, tour, other)
  {
    assert AtLeastAsGood(p, tour, seed);
  }

  ghost function ProblemOf(candidates: seq<Candidate>, fixedIds: seq<string>, endAtLastStop: bool, matrix: Option<Matrix>): Problem {
    Problem(Ids(candidates), fixedIds, if matrix.Some? then matrix.value.cells else [], endAtLastStop)
  }

  lemma BestIsNoLongerThanAny(p: Problem, tour: seq<int>)
    requires Valid(p) && IsBestTour(p, tour)
    ensures forall other, from :: IsTour(p, other, from) ==> NoLonger(p, tour, other)
  {
    forall other, from | IsTour(p, other, from) ensures NoLonger(p, tour, other) {
      BestIsNoLonger(p, tour, other, from);
    }
  }

  lemma BestTourSolves(p: Problem, candidates: seq<Candidate>, tour: seq<int>)
    requires Valid(p) && IsBestTour(p, tour) && |candidates| == |p.ids|
    ensures InRange(tour, |candidates|) && Solves(p, candidates, Picked(candidates, tour))
  {
    var seed :| IsSeed(p, seed) && IsGreedyTour(p, tour, seed);
    TourVisitsEachOnce(p, tour, seed, candidates);
    BestIsNoLongerThanAny(p, tour);
    assert IsTour(p, tour, seed);
  }

  lemma SeedsAreSeeds(p: Problem)
    ensures forall x :: x in (if FreeFrom(p, 0) == [] then [0] else FreeFrom(p, 0)) <==> IsSeed(p, x)
  {
    FreeFromHolds(p, 0);
    if FreeFrom(p, 0) != [] { assert IsFree(p, FreeFrom(p, 0)[0]); }
  }

  /** The better of the tour kept so far, if any, and the next seed's; of two as good, the one kept. */
  method Keep(p: Problem, ghost seeds: seq<int>, ghost done: nat, best: Option<Ranked>, next: Ranked) returns (kept: Ranked)
    requires Valid(p) && done < |seeds| && InRange(next.tour, |p.ids|) && next.rank == TourRank(p, next.tour)
    requires Settled(p, next.tour, seeds[done]) && FromSomeSeed(p, next.tour)
    requires if best.Some? then BestSoFar(p, seeds, done, best.value) else done == 0
    ensures BestSoFar(p, seeds, done + 1, kept)
  {
    if best.None? {
      return next;
    }
    RankLeTotal(best.value.rank, next.rank);
    if !RankLe(best.value.rank, next.rank) {
      AllStaySettled(p, seeds, done, best.value.tour, next.tour);
      return next;
    }
    BetterIsSettled(p, best.value.tour, next.tour, seeds[done]);
    return best.value;
  }

  /** One seed's turn: nothing when its tour overflows. */
  method TrySeed(p: Problem, remaining: seq<int>, ghost seeds: seq<int>, k: nat, best: Option<Ranked>, seed: int)
    returns (kept: Option<Ranked>)
    requires Valid(p) && remaining == FreeFrom(p, 0) && k < |seeds| && seed == seeds[k] && IsSeed(p, seed)
    requires if best.Some? then BestSoFar(p, seeds, k, best.value) else k == 0
    ensures if kept.Some? then BestSoFar(p, seeds, k + 1, kept.value) else SeedOverflows(p, seed)
  {
    var tour := BuildOrder(p, remaining, seed);
    TourStopsInRange(p, tour, seed);
    PathTotalIsTravel(p, tour);
    OwnTourTellsOverflow(p, tour, seed);
    var path := tour;
    if !p.endAtLastStop {
      path := path + [|p.ids| + 1];
    }
    var total := Measure(p.cells, path);
    if total.None? {
      return None;
    }
    OwnSeedIsSettled(p, tour, seed);
    var rank := Rank(total.value.duration, total.value.distance, Joined(Picked(p.ids, tour)));
    var better := Keep(p, seeds, k, best, Ranked(tour, rank));
    return Some(better);
  }

  /** The seeds in turn, up to one that overflows. */
  method TrySeeds(p: Problem, remaining: seq<int>, seeds: seq<int>) returns (best: Option<Ranked>, ghost failed: int)
    requires Valid(p) && remaining == FreeFrom(p, 0) && seeds != [] && forall seed :: seed in seeds ==> IsSeed(p, seed)
    ensures if best.Some? then BestSoFar(p, seeds, |seeds|, best.value) else failed in seeds && SeedOverflows(p, failed)
  {
    best, failed := None, 0;
    for k := 0 to |seeds|
      invariant if best.Some? then BestSoFar(p, seeds, k, best.value) else k == 0
    {
      failed := seeds[k];
      best := TrySeed(p, remaining, seeds, k, best, seeds[k]);
      if best.None? {
        return;
      }
    }
  }

  method BestTour(p: Problem, remaining: seq<int>) returns (result: Option<seq<int>>)
    requires Valid(p) && remaining == FreeFrom(p, 0)
    ensures result.Some? <==> forall seed :: IsSeed(p, seed) ==> !SeedOverflows(p, seed)
    ensures result.Some? ==> IsBestTour(p, result.value)
  {
    var seeds := if remaining == [] then [0] else remaining;
    SeedsAreSeeds(p);
    var best, failed := TrySeeds(p, remaining, seeds);
    if best.None? {
      return None;
    }
    BestIsBestTour(p, seeds, best.value);
    result := Some(best.value.tour);
  }

  /** The candidates in the order of the best tour. */
  method BestOrder(p: Problem, candidates: seq<Candidate>, remaining: seq<int>) returns (result: Option<seq<Candidate>>)
    requires Valid(p) && |candidates| == |p.ids| && remaining == FreeFrom(p, 0)
    ensures result.Some? <==> ToursFit(p)
    ensures result.Some? ==> Solves(p, candidates, result.value)
  {
    var tour := BestTour(p, remaining);
    NoOverflowMeans(p);
    if tour.None? {
      return None;
    }
    BestTourSolves(p, candidates, tour.value);
    result := Some(Picked(candidates, tour.value));
  }

  /** `matrix` is the router's answer for the start, the candidates and, unless left out, the end. */
  method Optimize(candidates: seq<Candidate>, fixedIds: seq<string>, endAtLastStop: bool, matrix: Option<Matrix>)
    returns (result: Option<seq<Candidate>>)
    requires Distinct(Ids(candidates))
    ensures result.Some? <==> Solvable(ProblemOf(candidates, fixedIds, endAtLastStop, matrix), matrix)
    ensures result.Some? ==> Solves(ProblemOf(candidates, fixedIds, endAtLastStop, matrix), candidates, result.value)
  {
    var cells := if matrix.Some? then matrix.value.cells else [];
    var p := Problem(Ids(candidates), fixedIds, cells, endAtLastStop);
    assert p == ProblemOf(candidates, fixedIds, endAtLastStop, matrix);
    var remaining := FreeCandidates(p);
    if remaining.None? || matrix.None? {
      return None;
    }
    var valid := ValidateMatrix(matrix.value.source, cells, |candidates| + if endAtLastStop then 1 else 2);
    if !valid {
      return None;
    }
    result := BestOrder(p, candidates, remaining.value);
  }

  lemma TourBehind(p: Problem, candidates: seq<Candidate>, order: seq<Candidate>) returns (tour: seq<int>, seed: int)
    requires Solves(p, candidates, order)
    ensures IsGreedyTour(p, tour, seed) && InRange(tour, |candidates|) && order == Picked(candidates, tour)
  {
    tour, seed :| IsTour(p, tour, seed) && order == Picked(candidates, tour);
  }
}
