/** The resolver: schedule entries become ordered layers, the layers are painted and the fragments merged. */
module Resolving {
  import opened Options
  import opened Ordering
  import opened Calendar
  import opened Durations
  import opened Painting
  import opened Merging
  import opened Availability

  function Clipped(interval: Interval, from: int, to: int): Interval {
    var left := if interval.startsAt < from then interval.(startsAt := from) else interval;
    if left.endsAt > to then left.(endsAt := to) else left
  }

  function AppendLayer(layers: seq<Interval>, layer: Interval): seq<Interval> {
    if layer.endsAt <= layer.startsAt then layers else layers + [layer]
  }

  ghost function ClippedAll(raws: seq<Interval>, from: int, to: int): seq<Interval> {
    if raws == [] then []
    else AppendLayer(ClippedAll(raws[..|raws| - 1], from, to), Clipped(raws[|raws| - 1], from, to))
  }

  /** Clipping to the range and dropping empty layers changes no label inside the range. */
  lemma {:induction false} ClippingKeepsLabels(fallback: Label, raws: seq<Interval>, from: int, to: int, t: int)
    requires from <= t < to
    ensures LabelAt(fallback, ClippedAll(raws, from, to), t) == LabelAt(fallback, raws, t)
  {
    if raws != [] {
      var n := |raws| - 1;
      var under, layer := ClippedAll(raws[..n], from, to), Clipped(raws[n], from, to);
      ClippingKeepsLabels(fallback, raws[..n], from, to, t);
      assert Covers(layer, t) <==> Covers(raws[n], t);
      assert LabelAt(fallback, raws, t) == if Covers(raws[n], t) then raws[n].tag else LabelAt(fallback, raws[..n], t);
      assert (under + [layer])[..|under|] == under;
    }
  }

  lemma {:induction false} ClippedWithin(raws: seq<Interval>, base: Interval)
    ensures forall l :: l in ClippedAll(raws, base.startsAt, base.endsAt) ==> Within(base, l)
  {
    if raws != [] {
      ClippedWithin(raws[..|raws| - 1], base);
    }
  }

  lemma ClippedAllAppend(raws: seq<Interval>, raw: Interval, from: int, to: int)
    ensures ClippedAll(raws + [raw], from, to) == AppendLayer(ClippedAll(raws, from, to), Clipped(raw, from, to))
  {
    assert (raws + [raw])[..|raws|] == raws;
  }

  lemma ClippedAllAppendAfter(first: seq<Interval>, raws: seq<Interval>, raw: Interval, from: int, to: int)
    ensures ClippedAll(first + (raws + [raw]), from, to) ==
            AppendLayer(ClippedAll(first + raws, from, to), Clipped(raw, from, to))
  {
    assert first + (raws + [raw]) == (first + raws) + [raw];
    ClippedAllAppend(first + raws, raw, from, to);
  }

  // ---------- Layers of the weekly rules ----------

  /** Where a raw rule layer comes from. */
  datatype Origin = Origin(day: int, index: nat)

  ghost predicate TracesRule(zone: Zone, rules: seq<Rule>, first: int, day: int, index: int, raw: Interval, o: Origin) {
    && o.index < |rules| && first <= o.day && Before(o.day, o.index, day, index)
    && RuleApplies(rules[o.index], o.day) && RuleRange(zone, rules[o.index], o.day) == Some(raw)
  }

  /** The raw layers are those of the rules that apply before (`day`, `index`), in application order. */
  ghost predicate RuleTrace(zone: Zone, rules: seq<Rule>, first: int, day: int, index: int, raws: seq<Interval>, origins: seq<Origin>) {
    && |raws| == |origins|
    && (forall k :: 0 <= k < |origins| ==> TracesRule(zone, rules, first, day, index, raws[k], origins[k]))
    && (forall k, l :: 0 <= k < l < |origins| ==>
          Before(origins[k].day, origins[k].index, origins[l].day, origins[l].index))
    && (forall d, i: nat :: first <= d && i < |rules| && Before(d, i, day, index) && RuleApplies(rules[i], d) ==>
          Origin(d, i) in origins)
  }

  lemma RuleTraceSkips(zone: Zone, rules: seq<Rule>, first: int, day: int, index: nat, raws: seq<Interval>, origins: seq<Origin>)
    requires RuleTrace(zone, rules, first, day, index, raws, origins)
    requires index < |rules| && !RuleApplies(rules[index], day)
    ensures RuleTrace(zone, rules, first, day, index + 1, raws, origins)
  {
    forall k | 0 <= k < |origins| ensures TracesRule(zone, rules, first, day, index + 1, raws[k], origins[k]) {
      assert TracesRule(zone, rules, first, day, index, raws[k], origins[k]);
    }
  }

  lemma RuleTraceAdds(zone: Zone, rules: seq<Rule>, first: int, day: int, index: nat, raws: seq<Interval>, origins: seq<Origin>, raw: Interval)
    requires RuleTrace(zone, rules, first, day, index, raws, origins)
    requires index < |rules| && first <= day && RuleApplies(rules[index], day) && RuleRange(zone, rules[index], day) == Some(raw)
    ensures RuleTrace(zone, rules, first, day, index + 1, raws + [raw], origins + [Origin(day, index)])
  {
    var all := origins + [Origin(day, index)];
    forall k | 0 <= k < |all| ensures TracesRule(zone, rules, first, day, index + 1, (raws + [raw])[k], all[k]) {
      if k < |origins| { assert TracesRule(zone, rules, first, day, index, raws[k], origins[k]); }
    }
    forall k, l | 0 <= k < l < |all| ensures Before(all[k].day, all[k].index, all[l].day, all[l].index) {
      assert TracesRule(zone, rules, first, day, index, raws[k], origins[k]);
    }
    forall d, i: nat | first <= d && i < |rules| && Before(d, i, day, index + 1) && RuleApplies(rules[i], d)
      ensures Origin(d, i) in all
    {
      if d == day && i == index { assert all[|origins|] == Origin(d, i); } else { assert Origin(d, i) in origins; }
    }
  }

  lemma RuleTraceNextDay(zone: Zone, rules: seq<Rule>, first: int, day: int, raws: seq<Interval>, origins: seq<Origin>)
    requires RuleTrace(zone, rules, first, day, |rules|, raws, origins)
    ensures RuleTrace(zone, rules, first, day + 1, 0, raws, origins)
  {
    forall k | 0 <= k < |origins| ensures TracesRule(zone, rules, first, day + 1, 0, raws[k], origins[k]) {
      assert TracesRule(zone, rules, first, day, |rules|, raws[k], origins[k]);
    }
  }

  /** A rule that applies on a day where one of its clock times is skipped or repeated. */
  ghost predicate BlamedRule(zone: Zone, rules: seq<Rule>, day: int, index: nat, ruleId: string) {
    && index < |rules| && rules[index].id == ruleId
    && RuleApplies(rules[index], day) && RuleRange(zone, rules[index], day).None?
  }

  datatype RuleLayersResult = Layers(layers: seq<Interval>) | NoInstant(ruleId: string)

  /** Both instants of a rule on a local day. */
  method PlaceRule(zone: Zone, rule: Rule, date: int) returns (raw: Option<Interval>)
    requires OneOrTwoHours(zone)
    ensures raw == RuleRange(zone, rule, date)
  {
    var start := StrictLocal(zone, date, rule.startMinute);
    if start.None? {
      return None;
    }
    var end := StrictLocal(zone, date, rule.endMinute);
    if end.None? {
      return None;
    }
    raw := Some(Interval(start.value, end.value, RuleLabel(rule)));
  }

  /** The layers of one local day, appended to those of the days before it. */
  method DayLayers(zone: Zone, rules: seq<Rule>, first: int, date: int, from: int, to: int, before: seq<Interval>,
      ghost rawsBefore: seq<Interval>, ghost originsBefore: seq<Origin>)
    returns (result: RuleLayersResult, ghost raws: seq<Interval>, ghost origins: seq<Origin>)
    requires OneOrTwoHours(zone) && first <= date
    requires before == ClippedAll(rawsBefore, from, to) && RuleTrace(zone, rules, first, date, 0, rawsBefore, originsBefore)
    ensures result.Layers? ==> result.layers == ClippedAll(raws, from, to)
    ensures result.Layers? ==> RuleTrace(zone, rules, first, date, |rules|, raws, origins)
    ensures result.NoInstant? ==> exists i: nat :: BlamedRule(zone, rules, date, i, result.ruleId)
  {
    var layers := before;
    raws, origins := rawsBefore, originsBefore;
    for index := 0 to |rules|
      invariant layers == ClippedAll(raws, from, to)
      invariant RuleTrace(zone, rules, first, date, index, raws, origins)
    {
      var rule := rules[index];
      if rule.weekday != IsoWeekday(date) || date < rule.validFrom || (rule.validUntil.Some? && date > rule.validUntil.value) {
        RuleTraceSkips(zone, rules, first, date, index, raws, origins);
        continue;
      }
      var raw := PlaceRule(zone, rule, date);
      if raw.None? {
        assert BlamedRule(zone, rules, date, index, rule.id);
        return NoInstant(rule.id), raws, origins;
      }
      RuleTraceAdds(zone, rules, first, date, index, raws, origins, raw.value);
      ClippedAllAppend(raws, raw.value, from, to);
      layers := AppendLayer(layers, Clipped(raw.value, from, to));
      raws, origins := raws + [raw.value], origins + [Origin(date, index)];
    }
    result := Layers(layers);
  }

  /** One layer for each rule and each local day on which it applies. */
  method RuleLayers(zone: Zone, rules: seq<Rule>, first: int, last: int, from: int, to: int)
    returns (result: RuleLayersResult, ghost raws: seq<Interval>, ghost origins: seq<Origin>)
    requires OneOrTwoHours(zone)
    ensures result.Layers? ==> result.layers == ClippedAll(raws, from, to)
    ensures result.Layers? ==> RuleTrace(zone, rules, first, if first <= last then last + 1 else first, 0, raws, origins)
    ensures result.NoInstant? ==> exists d, i: nat :: first <= d <= last && BlamedRule(zone, rules, d, i, result.ruleId)
  {
    result, raws, origins := Layers([]), [], [];
    var date := first;
    while date <= last
      invariant first <= date && (first <= last ==> date <= last + 1) && (first > last ==> date == first)
      invariant result.Layers? && result.layers == ClippedAll(raws, from, to)
      invariant RuleTrace(zone, rules, first, date, 0, raws, origins)
      decreases last - date
    {
      result, raws, origins := DayLayers(zone, rules, first, date, from, to, result.layers, raws, origins);
      if result.NoInstant? {
        return;
      }
      RuleTraceNextDay(zone, rules, first, date, raws, origins);
      date := date + 1;
    }
  }

  // ---------- Layers of the exceptions ----------

  ghost predicate TracesException(zone: Zone, policy: Policy, sorted: seq<Exception>, upto: nat, raw: Interval, p: int) {
    0 <= p < upto <= |sorted| && ExceptionCounts(policy, sorted[p]) && ExceptionRange(zone, sorted[p]) == Some(raw)
  }

  /** The raw layers are those of the first `upto` sorted exceptions that count, in that order. */
  ghost predicate ExceptionTrace(zone: Zone, policy: Policy, sorted: seq<Exception>, upto: nat, raws: seq<Interval>, origins: seq<int>) {
    && upto <= |sorted| && |raws| == |origins|
    && (forall k :: 0 <= k < |origins| ==> TracesException(zone, policy, sorted, upto, raws[k], origins[k]))
    && (forall k, l :: 0 <= k < l < |origins| ==> origins[k] < origins[l])
    && (forall p :: 0 <= p < upto && ExceptionCounts(policy, sorted[p]) ==> p in origins)
  }

  lemma ExceptionTraceSkips(zone: Zone, policy: Policy, sorted: seq<Exception>, p: nat, raws: seq<Interval>, origins: seq<int>)
    requires ExceptionTrace(zone, policy, sorted, p, raws, origins) && p < |sorted| && !ExceptionCounts(policy, sorted[p])
    ensures ExceptionTrace(zone, policy, sorted, p + 1, raws, origins)
  {
    forall k | 0 <= k < |origins| ensures TracesException(zone, policy, sorted, p + 1, raws[k], origins[k]) {
      assert TracesException(zone, policy, sorted, p, raws[k], origins[k]);
    }
  }

  lemma ExceptionTraceAdds(zone: Zone, policy: Policy, sorted: seq<Exception>, p: nat, raws: seq<Interval>, origins: seq<int>, raw: Interval)
    requires ExceptionTrace(zone, policy, sorted, p, raws, origins) && p < |sorted|
    requires ExceptionCounts(policy, sorted[p]) && ExceptionRange(zone, sorted[p]) == Some(raw)
    ensures ExceptionTrace(zone, policy, sorted, p + 1, raws + [raw], origins + [p])
  {
    var all := origins + [p];
    forall k | 0 <= k < |all| ensures TracesException(zone, policy, sorted, p + 1, (raws + [raw])[k], all[k]) {
      if k < |origins| { assert TracesException(zone, policy, sorted, p, raws[k], origins[k]); }
    }
    forall k, l | 0 <= k < l < |all| ensures all[k] < all[l] {
      assert TracesException(zone, policy, sorted, p, raws[k], origins[k]);
    }
    assert all[|origins|] == p;
  }

  method ExceptionLayers(zone: Zone, policy: Policy, sorted: seq<Exception>, ruleLayers: seq<Interval>, ghost ruleRaws: seq<Interval>, from: int, to: int)
    returns (result: Option<seq<Interval>>, ghost raws: seq<Interval>, ghost origins: seq<int>)
    requires ruleLayers == ClippedAll(ruleRaws, from, to)
    ensures result.Some? ==> result.value == ClippedAll(ruleRaws + raws, from, to)
    ensures result.Some? ==> ExceptionTrace(zone, policy, sorted, |sorted|, raws, origins)
    ensures result.None? ==> exists e :: e in sorted && ExceptionCounts(policy, e) && ExceptionRange(zone, e).None?
  {
    var layers := ruleLayers;
    raws, origins := [], [];
    assert ruleRaws + [] == ruleRaws;
    for p := 0 to |sorted|
      invariant layers == ClippedAll(ruleRaws + raws, from, to)
      invariant ExceptionTrace(zone, policy, sorted, p, raws, origins)
    {
      var exception := sorted[p];
      if policy == ExplicitDates && exception.kind != AvailableOverride {
        ExceptionTraceSkips(zone, policy, sorted, p, raws, origins);
        continue;
      }
      var raw := ExceptionRange(zone, exception);
      if raw.None? {
        return None, raws, origins;
      }
      ExceptionTraceAdds(zone, policy, sorted, p, raws, origins, raw.value);
      ClippedAllAppendAfter(ruleRaws, raws, raw.value, from, to);
      layers := AppendLayer(layers, Clipped(raw.value, from, to));
      raws, origins := raws + [raw.value], origins + [p];
    }
    result := Some(layers);
  }

  // ---------- The resolver ----------

  ghost predicate IsResolution(data: Schedule, zone: Zone, from: int, to: int, intervals: seq<Interval>) {
    && Tiles(intervals, from, to) && NoTouchingEqual(intervals)
    && (forall t, tag :: from <= t < to && Says(intervals, t, tag) ==> Explains(data, zone, from, to, t, tag))
  }

  /** What is said at each instant is what the kinds of the entries in force call for. */
  ghost predicate IsToldByKind(data: Schedule, zone: Zone, from: int, to: int, intervals: seq<Interval>) {
    forall t, tag :: from <= t < to && Says(intervals, t, tag) ==> ToldByKind(data, zone, from, to, t, tag)
  }

  lemma ResolutionIsToldByKind(data: Schedule, zone: Zone, from: int, to: int, intervals: seq<Interval>)
    requires IsResolution(data, zone, from, to, intervals)
    ensures IsToldByKind(data, zone, from, to, intervals)
  {
    forall t, tag | from <= t < to && Says(intervals, t, tag) ensures ToldByKind(data, zone, from, to, t, tag) {
      ExplanationIsToldByKind(data, zone, from, to, t, tag);
    }
  }

  lemma UniformIsResolution(data: Schedule, zone: Zone, from: int, to: int, whole: Interval)
    requires from < to && whole.startsAt == from && whole.endsAt == to
    requires forall t :: Explains(data, zone, from, to, t, whole.tag)
    ensures IsResolution(data, zone, from, to, [whole]) && IsToldByKind(data, zone, from, to, [whole])
  {
    ResolutionIsToldByKind(data, zone, from, to, [whole]);
  }

  /** The error names an entry that cannot be placed. */
  ghost predicate Blames(data: Schedule, zone: Zone, from: int, to: int, error: ResolveError) {
    match error
    case RuleHasNoInstant(id) =>
      exists d, i: nat :: RuleInRange(data, zone, from, to, d, i) && BlamedRule(zone, data.rules, d, i, id)
    case BadExceptionDate =>
      exists e :: e in data.exceptions && ExceptionCounts(data.policy, e) && ExceptionRange(zone, e).None?
    case BadRange => false
  }

  /** What the loop over the rules leaves behind. */
  ghost predicate RulesTraced(data: Schedule, zone: Zone, from: int, to: int, raws: seq<Interval>, origins: seq<Origin>) {
    var first, last := LocalDay(zone, from), if data.policy == ExplicitDates then LocalDay(zone, from) - 1 else LocalDay(zone, to - NANOSECOND);
    RuleTrace(zone, data.rules, first, if first <= last then last + 1 else first, 0, raws, origins)
  }

  /** What the loop over the sorted exceptions leaves behind. */
  ghost predicate ExceptionsTraced(data: Schedule, zone: Zone, sorted: seq<Exception>, raws: seq<Interval>, origins: seq<int>) {
    && ExceptionTrace(zone, data.policy, sorted, |sorted|, raws, origins)
    && (forall e :: e in sorted <==> e in data.exceptions)
    && SortedBy(sorted, AppliedNoLater)
  }

  /** The raw layer of a rule on a day of the range. */
  lemma RuleRaw(data: Schedule, zone: Zone, from: int, to: int, raws: seq<Interval>, origins: seq<Origin>, d: int, i: nat) returns (k: nat)
    requires RulesTraced(data, zone, from, to, raws, origins)
    requires RuleInRange(data, zone, from, to, d, i) && RuleApplies(data.rules[i], d)
    ensures k < |raws| == |origins| && origins[k] == Origin(d, i)
    ensures RuleRange(zone, data.rules[i], d) == Some(raws[k])
  {
    assert Origin(d, i) in origins;
    k :| 0 <= k < |origins| && origins[k] == Origin(d, i);
    var first, last := LocalDay(zone, from), LocalDay(zone, to - NANOSECOND);
    assert TracesRule(zone, data.rules, first, last + 1, 0, raws[k], origins[k]);
  }

  /** The raw layer of an exception that counts. */
  lemma ExceptionRaw(data: Schedule, zone: Zone, sorted: seq<Exception>, raws: seq<Interval>, origins: seq<int>, e: Exception) returns (k: nat)
    requires ExceptionsTraced(data, zone, sorted, raws, origins)
    requires e in data.exceptions && ExceptionCounts(data.policy, e)
    ensures k < |raws| == |origins| && 0 <= origins[k] < |sorted| && sorted[origins[k]] == e
    ensures ExceptionRange(zone, e) == Some(raws[k])
  {
    assert e in sorted;
    var p :| 0 <= p < |sorted| && sorted[p] == e;
    assert p in origins;
    k :| 0 <= k < |origins| && origins[k] == p;
    assert TracesException(zone, data.policy, sorted, |sorted|, raws[k], origins[k]);
  }

  lemma TracesAreResolvable(data: Schedule, zone: Zone, from: int, to: int, sorted: seq<Exception>,
      ruleRaws: seq<Interval>, ruleOrigins: seq<Origin>, raws: seq<Interval>, origins: seq<int>)
    requires RulesTraced(data, zone, from, to, ruleRaws, ruleOrigins) && ExceptionsTraced(data, zone, sorted, raws, origins)
    ensures Resolvable(data, zone, from, to)
  {
    forall d, i | RuleInRange(data, zone, from, to, d, i) && RuleApplies(data.rules[i], d)
      ensures RuleRange(zone, data.rules[i], d).Some?
    {
      var k := RuleRaw(data, zone, from, to, ruleRaws, ruleOrigins, d, i);
    }
    forall e | e in data.exceptions && ExceptionCounts(data.policy, e) ensures ExceptionRange(zone, e).Some? {
      var k := ExceptionRaw(data, zone, sorted, raws, origins, e);
    }
  }

  lemma {:induction false} WinnerConcat(a: seq<Interval>, b: seq<Interval>, t: int)
    ensures Winner(a + b, t) == if Winner(b, t) >= 0 then |a| + Winner(b, t) else Winner(a, t)
  {
    if b == [] {
      assert a + b == a;
    } else {
      assert (a + b)[..|a + b| - 1] == a + b[..|b| - 1];
      WinnerConcat(a, b[..|b| - 1], t);
    }
  }

  lemma LabelConcat(fallback: Label, a: seq<Interval>, b: seq<Interval>, t: int)
    ensures LabelAt(fallback, a + b, t) == if Winner(b, t) >= 0 then b[Winner(b, t)].tag else LabelAt(fallback, a, t)
  {
    WinnerConcat(a, b, t);
    var w := Winner(b, t);
    if w >= 0 { assert (a + b)[|a| + w] == b[w]; }
  }

  lemma ExceptionLayerOnTop(data: Schedule, zone: Zone, sorted: seq<Exception>, raws: seq<Interval>, origins: seq<int>, t: int)
    requires ExceptionsTraced(data, zone, sorted, raws, origins)
    ensures SomeExceptionCovers(data, zone, t) <==> Winner(raws, t) >= 0
    ensures Winner(raws, t) >= 0 ==> exists e :: TopException(data, zone, t, e) && raws[Winner(raws, t)].tag == ExceptionLabel(e)
  {
    var w := Winner(raws, t);
    if w >= 0 {
      assert TracesException(zone, data.policy, sorted, |sorted|, raws[w], origins[w]);
      var e := sorted[origins[w]];
      assert e in sorted && ExceptionCovers(zone, data.policy, e, t);
      forall f | f in data.exceptions && ExceptionCovers(zone, data.policy, f, t) ensures AppliedNoLater(f, e) {
        var k := ExceptionRaw(data, zone, sorted, raws, origins, f);
        assert Covers(raws[k], t);
        assert k == w || origins[k] < origins[w];
        if k == w { StringLeTotal(e.id, e.id); }
      }
      assert TopException(data, zone, t, e);
    } else {
      forall f | f in data.exceptions ensures !ExceptionCovers(zone, data.policy, f, t) {
        if ExceptionCounts(data.policy, f) {
          var k := ExceptionRaw(data, zone, sorted, raws, origins, f);
          assert !Covers(raws[k], t);
        }
      }
    }
  }

  lemma RuleLayerOnTop(data: Schedule, zone: Zone, from: int, to: int, raws: seq<Interval>, origins: seq<Origin>, t: int)
    requires RulesTraced(data, zone, from, to, raws, origins)
    ensures SomeRuleCovers(data, zone, from, to, t) <==> Winner(raws, t) >= 0
    ensures Winner(raws, t) >= 0 ==>
      exists d, i :: TopRule(data, zone, from, to, t, d, i) && raws[Winner(raws, t)].tag == RuleLabel(data.rules[i])
  {
    var w := Winner(raws, t);
    forall d, i | RuleInRange(data, zone, from, to, d, i) && RuleCovers(zone, data.rules[i], d, t)
      ensures 0 <= w < |origins| && !Before(origins[w].day, origins[w].index, d, i)
    {
      var k := RuleRaw(data, zone, from, to, raws, origins, d, i);
      assert Covers(raws[k], t);
      assert k == w || Before(origins[k].day, origins[k].index, origins[w].day, origins[w].index);
    }
    if w >= 0 {
      var o := origins[w];
      var first, last := LocalDay(zone, from), if data.policy == ExplicitDates then LocalDay(zone, from) - 1 else LocalDay(zone, to - NANOSECOND);
      assert TracesRule(zone, data.rules, first, if first <= last then last + 1 else first, 0, raws[w], o);
      assert RuleInRange(data, zone, from, to, o.day, o.index) && RuleCovers(zone, data.rules[o.index], o.day, t);
      assert TopRule(data, zone, from, to, t, o.day, o.index);
    }
  }

  lemma LabelExplained(data: Schedule, zone: Zone, from: int, to: int, sorted: seq<Exception>,
      ruleRaws: seq<Interval>, ruleOrigins: seq<Origin>, raws: seq<Interval>, origins: seq<int>, t: int)
    requires RulesTraced(data, zone, from, to, ruleRaws, ruleOrigins) && ExceptionsTraced(data, zone, sorted, raws, origins)
    requires data.isActive && data.policy != AssumedAvailable
    ensures Explains(data, zone, from, to, t, LabelAt(NO_ENTRY, ruleRaws + raws, t))
  {
    LabelConcat(NO_ENTRY, ruleRaws, raws, t);
    ExceptionLayerOnTop(data, zone, sorted, raws, origins, t);
    RuleLayerOnTop(data, zone, from, to, ruleRaws, ruleOrigins, t);
  }

  method Resolve(data: Schedule, zone: Zone, from: int, to: int) returns (result: Result<seq<Interval>>)
    requires OneOrTwoHours(zone) && from < to
    ensures result.Ok? <==> Resolvable(data, zone, from, to)
    ensures result.Err? ==> Blames(data, zone, from, to, result.error)
    ensures result.Ok? ==> IsResolution(data, zone, from, to, result.value)
    ensures result.Ok? ==> IsToldByKind(data, zone, from, to, result.value)
  {
    var base := Interval(from, to, NO_ENTRY);
    if !data.isActive {
      UniformIsResolution(data, zone, from, to, base.(tag := INACTIVE));
      return Ok([base.(tag := INACTIVE)]);
    }
    if data.policy == AssumedAvailable {
      UniformIsResolution(data, zone, from, to, base.(tag := ASSUMED));
      return Ok([base.(tag := ASSUMED)]);
    }
    var first, last := LocalDay(zone, from), LocalDay(zone, to - NANOSECOND);
    if data.policy == ExplicitDates {
      last := first - 1;
    }
    var ruleResult;
    ghost var ruleRaws, ruleOrigins;
    ruleResult, ruleRaws, ruleOrigins := RuleLayers(zone, data.rules, first, last, from, to);
    if ruleResult.NoInstant? {
      ghost var d, i: nat :| first <= d <= last && BlamedRule(zone, data.rules, d, i, ruleResult.ruleId);
      assert RuleInRange(data, zone, from, to, d, i);
      return Err(RuleHasNoInstant(ruleResult.ruleId));
    }
    AppliedOrder();
    var sorted := Sort(data.exceptions, AppliedNoLater);
    var layers;
    ghost var raws, origins;
    layers, raws, origins := ExceptionLayers(zone, data.policy, sorted, ruleResult.layers, ruleRaws, from, to);
    if layers.None? {
      return Err(BadExceptionDate);
    }
    TracesAreResolvable(data, zone, from, to, sorted, ruleRaws, ruleOrigins, raws, origins);
    ClippedWithin(ruleRaws + raws, base);
    var painted := Paint(base, layers.value);
    var merged := Merge(painted);
    forall t, tag | from <= t < to && Says(merged, t, tag) ensures Explains(data, zone, from, to, t, tag) {
      assert Says(painted, t, tag);
      PaintingSays(NO_ENTRY, layers.value, from, to, painted, t, tag);
      ClippingKeepsLabels(NO_ENTRY, ruleRaws + raws, from, to, t);
      LabelExplained(data, zone, from, to, sorted, ruleRaws, ruleOrigins, raws, origins, t);
    }
    ResolutionIsToldByKind(data, zone, from, to, merged);
    result := Ok(merged);
  }

  // ---------- Evaluation ----------

  /** The reasons in the order of their first appearance. */
  ghost function FirstReasons(intervals: seq<Interval>): (reasons: seq<string>)
    ensures Distinct(reasons) && forall r :: r in reasons <==> exists i :: i in intervals && i.tag.reason == r
  {
    if intervals == [] then []
    else
      var last := intervals[|intervals| - 1];
      var front := FirstReasons(intervals[..|intervals| - 1]);
      assert intervals == intervals[..|intervals| - 1] + [last];
      if last.tag.reason in front then front else front + [last.tag.reason]
  }

  /** The worst status of the intervals. */
  method AvailabilityStatus(intervals: seq<Interval>) returns (status: Status, reasons: seq<string>)
    ensures status == Unavailable <==> exists i :: i in intervals && i.tag.status == Unavailable
    ensures status == Available <==> forall i :: i in intervals ==> i.tag.status == Available
    ensures reasons == FirstReasons(intervals)
  {
    status, reasons := Available, [];
    for k := 0 to |intervals|
      invariant status == Unavailable <==> exists i :: i in intervals[..k] && i.tag.status == Unavailable
      invariant status == Available <==> forall i :: i in intervals[..k] ==> i.tag.status == Available
      invariant reasons == FirstReasons(intervals[..k])
    {
      var interval := intervals[k];
      assert intervals[..k + 1] == intervals[..k] + [interval];
      assert intervals[..k + 1][..k] == intervals[..k];
      if interval.tag.status == Unavailable {
        status := Unavailable;
      } else if interval.tag.status == Limited && status == Available {
        status := Limited;
      }
      if interval.tag.reason !in reasons {
        reasons := reasons + [interval.tag.reason];
      }
    }
    assert intervals[..|intervals|] == intervals;
  }

  /** The driver is unavailable at some instant of the range; available at every instant of it. */
  ghost predicate UnavailableSomewhere(data: Schedule, zone: Zone, from: int, to: int) {
    exists t, tag :: from <= t < to && Explains(data, zone, from, to, t, tag) && tag.status == Unavailable
  }

  ghost predicate AvailableThroughout(data: Schedule, zone: Zone, from: int, to: int) {
    forall t, tag :: from <= t < to && Explains(data, zone, from, to, t, tag) ==> tag.status == Available
  }

  ghost predicate ReasonAppears(data: Schedule, zone: Zone, from: int, to: int, reason: string) {
    exists t, tag :: from <= t < to && Explains(data, zone, from, to, t, tag) && tag.reason == reason
  }

  /** Every reason that explains some instant of the range, once, in the order of time. */
  ghost predicate TellsReasons(data: Schedule, zone: Zone, from: int, to: int, reasons: seq<string>) {
    && Distinct(reasons) && (forall reason :: reason in reasons ==> ReasonAppears(data, zone, from, to, reason))
    && (DistinctIds(data.exceptions) ==> forall reason :: ReasonAppears(data, zone, from, to, reason) ==> reason in reasons)
    && exists intervals :: IsResolution(data, zone, from, to, intervals) && reasons == FirstReasons(intervals)
  }

  datatype Verdict = Verdict(status: Status, reasons: seq<string>) | Invalid(error: ResolveError)

  lemma PieceInRange(intervals: seq<Interval>, from: int, to: int, k: nat)
    requires Tiles(intervals, from, to) && k < |intervals|
    ensures from <= intervals[k].startsAt < intervals[k].endsAt <= to
  {
    if k > 0 { ChainedIncreases(intervals, 0, k); }
    if k < |intervals| - 1 { ChainedIncreases(intervals, k, |intervals| - 1); }
  }

  lemma PieceExplains(data: Schedule, zone: Zone, from: int, to: int, intervals: seq<Interval>, k: nat)
    requires IsResolution(data, zone, from, to, intervals) && from < to && k < |intervals|
    ensures from <= intervals[k].startsAt < to
    ensures Explains(data, zone, from, to, intervals[k].startsAt, intervals[k].tag)
  {
    PieceInRange(intervals, from, to, k);
    assert Covers(intervals[k], intervals[k].startsAt);
    assert Says(intervals, intervals[k].startsAt, intervals[k].tag);
  }

  /** Each interval has an instant and each instant has an interval, so the worst interval is the worst instant. */
  lemma StatusOfRange(data: Schedule, zone: Zone, from: int, to: int, intervals: seq<Interval>)
    requires IsResolution(data, zone, from, to, intervals) && from < to
    ensures UnavailableSomewhere(data, zone, from, to) <==> exists i :: i in intervals && i.tag.status == Unavailable
    ensures AvailableThroughout(data, zone, from, to) <==> forall i :: i in intervals ==> i.tag.status == Available
  {
    forall k | 0 <= k < |intervals|
      ensures from <= intervals[k].startsAt < to
      ensures Explains(data, zone, from, to, intervals[k].startsAt, intervals[k].tag)
    {
      PieceExplains(data, zone, from, to, intervals, k);
    }
    forall t, tag | from <= t < to && Explains(data, zone, from, to, t, tag)
      ensures exists i :: i in intervals && i.tag.status == tag.status
    {
      var k := TileCovers(intervals, from, to, t);
      assert Says(intervals, t, intervals[k].tag);
      ExplanationIsUnique(data, zone, from, to, t, tag, intervals[k].tag);
      assert intervals[k] in intervals;
    }
  }

  lemma ReasonsOfRange(data: Schedule, zone: Zone, from: int, to: int, intervals: seq<Interval>)
    requires IsResolution(data, zone, from, to, intervals) && from < to
    ensures TellsReasons(data, zone, from, to, FirstReasons(intervals))
  {
    var reasons := FirstReasons(intervals);
    forall reason | reason in reasons ensures ReasonAppears(data, zone, from, to, reason) {
      var k :| 0 <= k < |intervals| && intervals[k].tag.reason == reason;
      PieceExplains(data, zone, from, to, intervals, k);
    }
    forall reason | DistinctIds(data.exceptions) && ReasonAppears(data, zone, from, to, reason) ensures reason in reasons {
      var t, tag :| from <= t < to && Explains(data, zone, from, to, t, tag) && tag.reason == reason;
      var k := TileCovers(intervals, from, to, t);
      assert Says(intervals, t, intervals[k].tag);
      ExplanationIsUnique(data, zone, from, to, t, tag, intervals[k].tag);
      assert intervals[k] in intervals;
    }
  }

  method EvaluateAvailability(data: Schedule, from: int, to: int, location: Option<Zone>) returns (verdict: Verdict)
    requires location.Some? ==> OneOrTwoHours(location.value)
    ensures verdict == Invalid(BadRange) <==> location.None? || to <= from || to - from > 90 * 24 * 3_600_000_000_000
    ensures verdict.Verdict? ==> location.Some? && Resolvable(data, location.value, from, to)
    ensures verdict.Verdict? ==> (verdict.status == Unavailable <==> UnavailableSomewhere(data, location.value, from, to))
    ensures verdict.Verdict? ==> (verdict.status == Available <==> AvailableThroughout(data, location.value, from, to))
    ensures verdict.Verdict? ==> TellsReasons(data, location.value, from, to, verdict.reasons)
    ensures verdict.Invalid? && verdict != Invalid(BadRange) ==>
      !Resolvable(data, location.value, from, to) && Blames(data, location.value, from, to, verdict.error)
  {
    if location.None? || to <= from || to - from > MAX_RESOLVE_DAYS * DAY {
      return Invalid(BadRange);
    }
    var resolved := Resolve(data, location.value, from, to);
    if resolved.Err? {
      return Invalid(resolved.error);
    }
    var status, reasons := AvailabilityStatus(resolved.value);
    StatusOfRange(data, location.value, from, to, resolved.value);
    ReasonsOfRange(data, location.value, from, to, resolved.value);
    verdict := Verdict(status, reasons);
  }
}
