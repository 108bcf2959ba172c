/** Hints about waiting jobs that lie close together: a seed with all that are near it, each job in one cluster at most. */
module Clusters {
  import opened Ordering

  datatype Entry = Entry(jobId: string, region: string, located: bool)

  datatype Hint = Hint(ids: seq<string>, region: string)

  /** Whether two entries are within the radius; distances themselves do not matter. */
  type Nearness = (Entry, Entry) -> bool

  predicate ByJobId(a: Entry, b: Entry) {
    StringLe(a.jobId, b.jobId)
  }

  lemma ByJobIdOrder()
    ensures TotalPreorder(ByJobId)
  {
    StringLeOrder();
  }

  ghost predicate Joins(seed: Entry, candidate: Entry, used: set<string>, near: Nearness) {
    candidate.jobId != seed.jobId && candidate.jobId !in used && candidate.located && near(seed, candidate)
  }

  /** The entries that join a seed, in order. */
  ghost function Joining(seed: Entry, values: seq<Entry>, used: set<string>, near: Nearness): (r: seq<Entry>)
    ensures forall e :: e in r ==> e in values && Joins(seed, e, used, near)
  {
    if values == [] then []
    else
      var front, last := Joining(seed, values[..|values| - 1], used, near), values[|values| - 1];
      if Joins(seed, last, used, near) then front + [last] else front
  }

  /** The more jobs are taken, the fewer can join. */
  lemma {:induction false} JoiningShrinks(seed: Entry, values: seq<Entry>, used: set<string>, more: set<string>, near: Nearness)
    requires used <= more
    ensures |Joining(seed, values, more, near)| <= |Joining(seed, values, used, near)|
  {
    if values != [] {
      JoiningShrinks(seed, values[..|values| - 1], used, more, near);
    }
  }

  ghost function IdsOf(members: seq<Entry>): (ids: seq<string>)
    ensures |ids| == |members| && forall k :: 0 <= k < |ids| ==> ids[k] == members[k].jobId
  {
    seq(|members|, k requires 0 <= k < |members| => members[k].jobId)
  }

  function SetOf(ids: seq<string>): set<string> {
    set id | id in ids
  }

  /** The first region that is named. */
  ghost predicate IsRegion(region: string, members: seq<Entry>) {
    if forall k :: 0 <= k < |members| ==> members[k].region == "" then region == ""
    else exists k :: 0 <= k < |members| && members[k].region == region && region != ""
                     && forall j :: 0 <= j < k ==> members[j].region == ""
  }

  /** The jobs of all clusters. */
  ghost function TakenIds(hints: seq<Hint>): set<string> {
    if hints == [] then {} else TakenIds(hints[..|hints| - 1]) + SetOf(hints[|hints| - 1].ids)
  }

  /** A seed and all that are near it among the located jobs not taken yet, enough of them. */
  ghost predicate IsCluster(hint: Hint, seed: Entry, taken: set<string>, values: seq<Entry>, near: Nearness, minimum: nat) {
    var members := [seed] + Joining(seed, values, taken, near);
    && seed in values && seed.located && seed.jobId !in taken && |members| >= minimum
    && hint.ids == IdsOf(members) && IsRegion(hint.region, members)
  }

  ghost predicate HasSeed(hint: Hint, taken: set<string>, values: seq<Entry>, near: Nearness, minimum: nat) {
    exists seed :: IsCluster(hint, seed, taken, values, near, minimum)
  }

  /** Hints in the order in which they were found: each has all that the ones before it left. */
  ghost predicate AreClusters(hints: seq<Hint>, values: seq<Entry>, near: Nearness, minimum: nat) {
    hints == [] ||
    var front, last := hints[..|hints| - 1], hints[|hints| - 1];
    AreClusters(front, values, near, minimum) && HasSeed(last, TakenIds(front), values, near, minimum)
  }

  ghost predicate Apart(hints: seq<Hint>) {
    forall i, j :: 0 <= i < j < |hints| ==> forall id :: id in hints[i].ids ==> id !in hints[j].ids
  }

  /** Too few entries are left around this one. */
  ghost predicate TooFew(seed: Entry, values: seq<Entry>, used: set<string>, near: Nearness, minimum: nat) {
    seed.located && seed.jobId !in used ==> 1 + |Joining(seed, values, used, near)| < minimum
  }

  predicate HintLe(a: Hint, b: Hint) {
    if |a.ids| != |b.ids| then |a.ids| > |b.ids| else StringLe(JoinWith(a.ids, ","), JoinWith(b.ids, ","))
  }

  lemma HintLeOrder()
    ensures TotalPreorder(HintLe)
  {
    StringLeOrder();
  }

  lemma RegionStep(region: string, members: seq<Entry>, k: nat)
    requires k < |members| && (if k == 0 then region == members[0].region else IsRegion(region, members[..k]))
    ensures IsRegion(if region == "" then members[k].region else region, members[..k + 1])
  {
    var before, after := members[..k], members[..k + 1];
    assert after == before + [members[k]];
    var next := if region == "" then members[k].region else region;
    if region != "" && k > 0 {
      var at :| 0 <= at < |before| && before[at].region == region && forall j :: 0 <= j < at ==> before[j].region == "";
      assert after[at].region == next;
    } else if next != "" {
      assert after[k].region == next;
    }
  }

  method RegionOf(members: seq<Entry>) returns (region: string)
    requires members != []
    ensures IsRegion(region, members)
  {
    region := members[0].region;
    for k := 0 to |members|
      invariant k > 0 ==> IsRegion(region, members[..k])
      invariant k == 0 ==> region == members[0].region
    {
      RegionStep(region, members, k);
      if region == "" {
        region := members[k].region;
      }
    }
    assert members[..|members|] == members;
  }

  method CollectIds(members: seq<Entry>) returns (ids: seq<string>)
    ensures ids == IdsOf(members)
  {
    ids := [];
    for k := 0 to |members|
      invariant ids == IdsOf(members)[..k]
    {
      ids := ids + [members[k].jobId];
    }
  }

  lemma {:induction false} TakenByOne(hints: seq<Hint>, id: string)
    ensures id in TakenIds(hints) <==> exists k :: 0 <= k < |hints| && id in hints[k].ids
  {
    if hints != [] {
      var n := |hints| - 1;
      TakenByOne(hints[..n], id);
      if id in TakenIds(hints[..n]) {
        var k :| 0 <= k < n && id in hints[..n][k].ids;
        assert id in hints[k].ids;
      }
      if k :| 0 <= k < |hints| && id in hints[k].ids {
        if k < n { assert id in hints[..n][k].ids; }
      }
    }
  }

  lemma NewHintIsApart(hints: seq<Hint>, hint: Hint)
    requires Apart(hints) && forall id :: id in hint.ids ==> id !in TakenIds(hints)
    ensures Apart(hints + [hint])
  {
    forall i, id | 0 <= i < |hints| && id in hints[i].ids ensures id !in hint.ids {
      TakenByOne(hints, id);
    }
  }

  /** The first `n` entries have been looked at. */
  ghost predicate AllTooFew(values: seq<Entry>, n: nat, used: set<string>, near: Nearness, minimum: nat)
    requires n <= |values|
  {
    forall i :: 0 <= i < n ==> TooFew(values[i], values, used, near, minimum)
  }

  lemma OneMoreTooFew(values: seq<Entry>, n: nat, used: set<string>, more: set<string>, near: Nearness, minimum: nat)
    requires n < |values| && used <= more && AllTooFew(values, n, used, near, minimum)
    requires TooFew(values[n], values, more, near, minimum)
    ensures AllTooFew(values, n + 1, more, near, minimum)
  {
    forall i | 0 <= i < n + 1 ensures TooFew(values[i], values, more, near, minimum) {
      if i < n {
        assert TooFew(values[i], values, used, near, minimum);
        JoiningShrinks(values[i], values, used, more, near);
      }
    }
  }

  lemma MembersAreFree(seed: Entry, joining: seq<Entry>, used: set<string>)
    requires seed.jobId !in used && forall e :: e in joining ==> e.jobId !in used
    ensures forall id :: id in IdsOf([seed] + joining) ==> id !in used
  {
    var members := [seed] + joining;
    forall k | 0 <= k < |members| ensures members[k].jobId !in used {
      if k > 0 { assert members[k] == joining[k - 1]; }
    }
  }

  lemma {:induction false} ClustersAreApart(hints: seq<Hint>, values: seq<Entry>, near: Nearness, minimum: nat)
    requires AreClusters(hints, values, near, minimum)
    ensures Apart(hints) && forall k :: 0 <= k < |hints| ==> hints[k].ids != []
  {
    if hints != [] {
      var front, last := hints[..|hints| - 1], hints[|hints| - 1];
      ClustersAreApart(front, values, near, minimum);
      var seed :| IsCluster(last, seed, TakenIds(front), values, near, minimum);
      MembersAreFree(seed, Joining(seed, values, TakenIds(front), near), TakenIds(front));
      NewHintIsApart(front, last);
      assert front + [last] == hints;
    }
  }

  /** The clusters found by trying the first `n` entries in turn as seeds: a seed takes all that is near it and not taken
      yet, unless it is taken itself or too few are left. */
  ghost predicate FoundAmong(hints: seq<Hint>, values: seq<Entry>, n: nat, near: Nearness, minimum: nat)
    requires n <= |values|
  {
    if n == 0 then hints == []
    else
      || (FoundAmong(hints, values, n - 1, near, minimum) && TooFew(values[n - 1], values, TakenIds(hints), near, minimum))
      || (hints != [] && FoundAmong(hints[..|hints| - 1], values, n - 1, near, minimum)
          && IsCluster(hints[|hints| - 1], values[n - 1], TakenIds(hints[..|hints| - 1]), values, near, minimum))
  }

  ghost predicate IsClustering(found: seq<Hint>, values: seq<Entry>, near: Nearness, minimum: nat) {
    FoundAmong(found, values, |values|, near, minimum)
  }

  lemma RegionIsUnique(a: string, b: string, members: seq<Entry>)
    requires IsRegion(a, members) && IsRegion(b, members)
    ensures a == b
  {
    if exists k :: 0 <= k < |members| && members[k].region != "" {
      var i :| 0 <= i < |members| && members[i].region == a && a != "" && forall j :: 0 <= j < i ==> members[j].region == "";
      var k :| 0 <= k < |members| && members[k].region == b && b != "" && forall j :: 0 <= j < k ==> members[j].region == "";
    }
  }

  /** Nothing about the clusters is left open: trying the entries in their order finds one list. */
  lemma {:induction false} ClusteringIsUnique(a: seq<Hint>, b: seq<Hint>, values: seq<Entry>, n: nat, near: Nearness, minimum: nat)
    requires n <= |values| && FoundAmong(a, values, n, near, minimum) && FoundAmong(b, values, n, near, minimum)
    ensures a == b
    decreases n, 1
  {
    if n > 0 {
      if FoundAmong(a, values, n - 1, near, minimum) && TooFew(values[n - 1], values, TakenIds(a), near, minimum) {
        SameIfSkipped(a, b, values, n, near, minimum);
      } else if FoundAmong(b, values, n - 1, near, minimum) && TooFew(values[n - 1], values, TakenIds(b), near, minimum) {
        SameIfSkipped(b, a, values, n, near, minimum);
      } else {
        var front := a[..|a| - 1];
        ClusteringIsUnique(front, b[..|b| - 1], values, n - 1, near, minimum);
        RegionIsUnique(a[|a| - 1].region, b[|b| - 1].region, [values[n - 1]] + Joining(values[n - 1], values, TakenIds(front), near));
        assert a == front + [a[|a| - 1]] && b == front + [b[|b| - 1]];
      }
    }
  }

  lemma {:induction false} SameIfSkipped(a: seq<Hint>, b: seq<Hint>, values: seq<Entry>, n: nat, near: Nearness, minimum: nat)
    requires 0 < n <= |values| && FoundAmong(a, values, n - 1, near, minimum)
    requires TooFew(values[n - 1], values, TakenIds(a), near, minimum) && FoundAmong(b, values, n, near, minimum)
    ensures a == b
    decreases n, 0
  {
    if FoundAmong(b, values, n - 1, near, minimum) {
      ClusteringIsUnique(a, b, values, n - 1, near, minimum);
    } else {
      ClusteringIsUnique(a, b[..|b| - 1], values, n - 1, near, minimum);
    }
  }

  lemma SeedIsTaken(hint: Hint, seed: Entry, taken: set<string>, values: seq<Entry>, near: Nearness, minimum: nat)
    requires IsCluster(hint, seed, taken, values, near, minimum)
    ensures seed.jobId in SetOf(hint.ids)
  {
    assert hint.ids[0] == seed.jobId;
  }

  /** Each cluster holds all that is near its seed and was left by the clusters found before it, and around each job in
      no cluster too few are left. */
  lemma {:induction false} ClusteringIsComplete(found: seq<Hint>, values: seq<Entry>, n: nat, near: Nearness, minimum: nat)
    requires n <= |values| && FoundAmong(found, values, n, near, minimum)
    ensures AreClusters(found, values, near, minimum) && AllTooFew(values, n, TakenIds(found), near, minimum)
  {
    if n > 0 {
      if FoundAmong(found, values, n - 1, near, minimum) && TooFew(values[n - 1], values, TakenIds(found), near, minimum) {
        ClusteringIsComplete(found, values, n - 1, near, minimum);
        OneMoreTooFew(values, n - 1, TakenIds(found), TakenIds(found), near, minimum);
      } else {
        var front, last := found[..|found| - 1], found[|found| - 1];
        ClusteringIsComplete(front, values, n - 1, near, minimum);
        SeedIsTaken(last, values[n - 1], TakenIds(front), values, near, minimum);
        OneMoreTooFew(values, n - 1, TakenIds(front), TakenIds(found), near, minimum);
      }
    }
  }

  /** One cluster around a seed, or none when too few join it. */
  method ClusterAround(seed: Entry, values: seq<Entry>, used: set<string>, near: Nearness, minimum: nat)
    returns (hint: Hint, found: bool)
    requires seed in values && seed.located && seed.jobId !in used
    ensures found <==> 1 + |Joining(seed, values, used, near)| >= minimum
    ensures found ==> IsCluster(hint, seed, used, values, near, minimum)
  {
    var members := [seed];
    for k := 0 to |values|
      invariant members == [seed] + Joining(seed, values[..k], used, near)
    {
      assert values[..k + 1][..k] == values[..k];
      if values[k].jobId == seed.jobId || values[k].jobId in used || !values[k].located {
        continue;
      }
      if near(seed, values[k]) {
        members := members + [values[k]];
      }
    }
    assert values[..|values|] == values;
    var region := RegionOf(members);
    var ids := CollectIds(members);
    hint := Hint(ids, region);
    found := |members| >= minimum;
  }

  lemma OneMoreCluster(hints: seq<Hint>, hint: Hint, values: seq<Entry>, k: nat, near: Nearness, minimum: nat)
    requires k < |values| && FoundAmong(hints, values, k, near, minimum)
    requires IsCluster(hint, values[k], TakenIds(hints), values, near, minimum)
    ensures FoundAmong(hints + [hint], values, k + 1, near, minimum)
    ensures TakenIds(hints + [hint]) == TakenIds(hints) + SetOf(hint.ids)
  {
    assert (hints + [hint])[..|hints|] == hints;
  }

  /** Takes the entries in turn as seeds. */
  method CollectClusters(values: seq<Entry>, near: Nearness, minimum: nat) returns (hints: seq<Hint>)
    ensures IsClustering(hints, values, near, minimum)
  {
    var used: set<string> := {};
    hints := [];
    for k := 0 to |values|
      invariant FoundAmong(hints, values, k, near, minimum) && used == TakenIds(hints)
    {
      if values[k].jobId in used || !values[k].located {
        continue;
      }
      var hint, found := ClusterAround(values[k], values, used, near, minimum);
      if !found {
        continue;
      }
      OneMoreCluster(hints, hint, values, k, near, minimum);
      hints := hints + [hint];
      used := used + SetOf(hint.ids);
    }
  }

  lemma RearrangedIsApart(result: seq<Hint>, hints: seq<Hint>)
    requires Distinct(result) && Apart(hints) && forall h :: h in result <==> h in hints
    ensures Apart(result)
  {
    forall i, j, id | 0 <= i < j < |result| && id in result[i].ids ensures id !in result[j].ids {
      assert result[i] in hints && result[j] in hints;
      var a :| 0 <= a < |hints| && hints[a] == result[i];
      var b :| 0 <= b < |hints| && hints[b] == result[j];
      assert a < b || b < a;
    }
  }

  lemma HintsAreDistinct(hints: seq<Hint>)
    requires Apart(hints) && forall k :: 0 <= k < |hints| ==> hints[k].ids != []
    ensures Distinct(hints)
  {
    forall i, j | 0 <= i < j < |hints| ensures hints[i] != hints[j] {
      assert hints[i].ids[0] in hints[i].ids;
    }
  }

  lemma SortingKeepsApart(result: seq<Hint>, found: seq<Hint>, values: seq<Entry>, near: Nearness, minimum: nat)
    requires multiset(result) == multiset(found) && IsClustering(found, values, near, minimum)
    ensures Apart(result)
  {
    ClusteringIsComplete(found, values, |values|, near, minimum);
    ClustersAreApart(found, values, near, minimum);
    SameElements(result, found);
    HintsAreDistinct(found);
    PermutationDistinct(result, found);
    RearrangedIsApart(result, found);
  }

  /** `usable` says that a radius above zero was asked for; `found` holds the hints in the order they were found. */
  method FindClusters(entries: seq<Entry>, near: Nearness, usable: bool, minimum: int)
    returns (result: seq<Hint>, ghost sorted: seq<Entry>, ghost found: seq<Hint>)
    ensures multiset(sorted) == multiset(entries)
    ensures forall i, j :: 0 <= i < j < |sorted| ==> StringLe(sorted[i].jobId, sorted[j].jobId)
    ensures multiset(result) == multiset(found) && Apart(result)
    ensures forall i, j :: 0 <= i < j < |result| ==>
      |result[i].ids| >= |result[j].ids|
      && (|result[i].ids| == |result[j].ids| ==> StringLe(JoinWith(result[i].ids, ","), JoinWith(result[j].ids, ",")))
    ensures !usable || minimum < 2 ==> result == []
    ensures usable && minimum >= 2 ==> IsClustering(found, sorted, near, minimum)
  {
    ByJobIdOrder();
    var values := Sort(entries, ByJobId);
    sorted, found := values, [];
    if !usable || minimum < 2 {
      return [], sorted, found;
    }
    var hints := CollectClusters(values, near, minimum);
    HintLeOrder();
    result := Sort(hints, HintLe);
    found := hints;
    SortingKeepsApart(result, found, values, near, minimum);
  }
}
