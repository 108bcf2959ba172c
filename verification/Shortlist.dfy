/** Ranking of feasible suggestions and the short list shown: the best ones, without near duplicates. */
module Shortlist {
  import opened Durations
  import opened Ordering
  import opened Feasibility
  import opened Suggestions

  const MOST_SUGGESTIONS := 3

  /** Score and preference stand for the rounded figures, of which only the order matters. */
  datatype Score = Score(value: int, preference: int, seconds: int)

  datatype Candidate = Candidate(driver: Driver, choice: Choice, starts: int, ends: int)

  datatype Suggestion = Suggestion(candidate: Candidate, score: Score)

  predicate NamesLe(a: Candidate, b: Candidate) {
    if a.driver.id != b.driver.id then StringLe(a.driver.id, b.driver.id)
    else StringLe(JoinWith(a.choice.ids, ","), JoinWith(b.choice.ids, ","))
  }

  predicate TimesLe(a: Suggestion, b: Suggestion) {
    if a.score.seconds != b.score.seconds then a.score.seconds < b.score.seconds
    else if a.candidate.starts != b.candidate.starts then a.candidate.starts < b.candidate.starts
    else NamesLe(a.candidate, b.candidate)
  }

  /** Higher score, then preference; then less travel, an earlier start, driver and resources by identifier. */
  predicate NoWorse(a: Suggestion, b: Suggestion) {
    if a.score.value != b.score.value then a.score.value > b.score.value
    else if a.score.preference != b.score.preference then a.score.preference > b.score.preference
    else TimesLe(a, b)
  }

  lemma NamesLeOrder()
    ensures TotalPreorder(NamesLe)
  {
    StringLeOrder();
  }

  lemma NoWorseOrder()
    ensures TotalPreorder(NoWorse)
  {
    NamesLeOrder();
    forall a, b, c | NoWorse(a, b) && NoWorse(b, c) ensures NoWorse(a, c) {
      assert NamesLe(a.candidate, b.candidate) && NamesLe(b.candidate, c.candidate) ==> NamesLe(a.candidate, c.candidate);
    }
    forall a, b ensures NoWorse(a, b) || NoWorse(b, a) {
      assert NamesLe(a.candidate, b.candidate) || NamesLe(b.candidate, a.candidate);
    }
  }

  // ---------- Near duplicates ----------

  predicate Near(a: int, b: int) {
    -2 * HOUR < a - b < 2 * HOUR
  }

  /** The same driver within two hours. */
  predicate Clash(a: Suggestion, b: Suggestion) {
    a.candidate.driver.id == b.candidate.driver.id && Near(a.candidate.starts, b.candidate.starts)
  }

  ghost predicate Rising(picks: seq<nat>, n: nat) {
    (forall i :: 0 <= i < |picks| ==> picks[i] < n) && (forall i, j :: 0 <= i < j < |picks| ==> picks[i] < picks[j])
  }

  ghost predicate ClashesWithPick(values: seq<Suggestion>, picks: seq<nat>, i: nat)
    requires i < |values| && Rising(picks, |values|)
  {
    exists k :: 0 <= k < |picks| && picks[k] < i && Clash(values[picks[k]], values[i])
  }

  /** The list was full before position `i`. */
  ghost predicate FullBefore(picks: seq<nat>, limit: nat, i: nat) {
    0 < limit <= |picks| && picks[limit - 1] < i
  }

  /** Just those are picked that come while there is room and clash with no earlier pick. */
  ghost predicate IsGreedySelection(values: seq<Suggestion>, picks: seq<nat>, limit: nat, n: nat)
    requires n <= |values|
  {
    Rising(picks, n) && |picks| <= limit
    && forall i :: 0 <= i < n ==> (i in picks <==> !FullBefore(picks, limit, i) && !ClashesWithPick(values, picks, i))
  }

  ghost function At(values: seq<Suggestion>, picks: seq<nat>): (r: seq<Suggestion>)
    requires Rising(picks, |values|)
    ensures |r| == |picks| && forall k :: 0 <= k < |picks| ==> r[k] == values[picks[k]]
  {
    seq(|picks|, k requires 0 <= k < |picks| => values[picks[k]])
  }

  lemma PickStep(values: seq<Suggestion>, picks: seq<nat>, limit: nat, n: nat)
    requires n < |values| && IsGreedySelection(values, picks, limit, n) && |picks| < limit
    ensures !ClashesWithPick(values, picks, n) ==> IsGreedySelection(values, picks + [n], limit, n + 1)
    ensures ClashesWithPick(values, picks, n) ==> IsGreedySelection(values, picks, limit, n + 1)
  {
    if !ClashesWithPick(values, picks, n) {
      var more := picks + [n];
      forall i | 0 <= i < n + 1 ensures i in more <==> !FullBefore(more, limit, i) && !ClashesWithPick(values, more, i) {
        assert i in more <==> i in picks || i == n;
        assert ClashesWithPick(values, more, i) <==> ClashesWithPick(values, picks, i) by {
          if ClashesWithPick(values, picks, i) {
            var k :| 0 <= k < |picks| && picks[k] < i && Clash(values[picks[k]], values[i]);
            assert more[k] == picks[k];
          }
        }
      }
    }
  }

  lemma FullSelection(values: seq<Suggestion>, picks: seq<nat>, limit: nat, n: nat)
    requires n <= |values| && IsGreedySelection(values, picks, limit, n) && |picks| == limit > 0
    ensures IsGreedySelection(values, picks, limit, |values|)
  {
    assert picks[limit - 1] < n;
    forall i | 0 <= i < |values| ensures i in picks <==> !FullBefore(picks, limit, i) && !ClashesWithPick(values, picks, i) {
    }
  }

  method Deduplicate(values: seq<Suggestion>, limit: nat) returns (result: seq<Suggestion>, ghost picks: seq<nat>)
    requires limit > 0
    ensures IsGreedySelection(values, picks, limit, |values|) && result == At(values, picks)
  {
    result, picks := [], [];
    for n := 0 to |values|
      invariant IsGreedySelection(values, picks, limit, n) && result == At(values, picks) && |result| < limit
    {
      var duplicate := exists k | 0 <= k < |result| :: Clash(result[k], values[n]);
      PickStep(values, picks, limit, n);
      if !duplicate {
        result, picks := result + [values[n]], picks + [n];
        if |result| == limit {
          FullSelection(values, picks, limit, n + 1);
          return;
        }
      }
    }
  }

  // ---------- What a short list promises ----------

  // What a list promises is said on the figures shown, not by the comparison the program sorts with.

  ghost predicate NamesComeFirst(a: Candidate, b: Candidate) {
    && StringLe(a.driver.id, b.driver.id)
    && (a.driver.id == b.driver.id ==> StringLe(JoinWith(a.choice.ids, ","), JoinWith(b.choice.ids, ",")))
  }

  /** A higher score comes first; of equal scores the higher preference, then the shorter travel, then the earlier start,
      then the smaller driver identifier, then the smaller list of resources. */
  ghost predicate ComesFirst(a: Suggestion, b: Suggestion) {
    && a.score.value >= b.score.value
    && (a.score.value == b.score.value ==>
          && a.score.preference >= b.score.preference
          && (a.score.preference == b.score.preference ==>
                && a.score.seconds <= b.score.seconds
                && (a.score.seconds == b.score.seconds ==>
                      && a.candidate.starts <= b.candidate.starts
                      && (a.candidate.starts == b.candidate.starts ==> NamesComeFirst(a.candidate, b.candidate)))))
  }

  /** One driver within two hours, told in nanoseconds. */
  ghost predicate TooClose(a: Suggestion, b: Suggestion) {
    && a.candidate.driver.id == b.candidate.driver.id
    && a.candidate.starts - b.candidate.starts < 7_200_000_000_000
    && b.candidate.starts - a.candidate.starts < 7_200_000_000_000
  }

  lemma NoWorseComesFirst(a: Suggestion, b: Suggestion)
    ensures NoWorse(a, b) <==> ComesFirst(a, b)
    ensures Clash(a, b) <==> TooClose(a, b)
  {
    StringLeTotal(a.candidate.driver.id, b.candidate.driver.id);
  }

  /** No more than three, best first; no two for the same driver within two hours. */
  ghost predicate IsShortlist(result: seq<Suggestion>, values: seq<Suggestion>) {
    && |result| <= 3 && (forall s :: s in result ==> s in values)
    && (forall i, j :: 0 <= i < j < |result| ==> ComesFirst(result[i], result[j]) && !TooClose(result[i], result[j]))
  }

  /** A suggestion is left out only for one that comes first and is close to it, or for a full list of ones that come first. */
  ghost predicate IsJustified(result: seq<Suggestion>, s: Suggestion) {
    || s in result
    || (exists k :: 0 <= k < |result| && TooClose(result[k], s) && ComesFirst(result[k], s))
    || (|result| == 3 && forall k :: 0 <= k < |result| ==> ComesFirst(result[k], s))
  }

  ghost predicate IsBestShortlist(result: seq<Suggestion>, values: seq<Suggestion>) {
    && IsShortlist(result, values) && (forall s :: s in values ==> IsJustified(result, s))
    && (values != [] ==> result != [] && forall s :: s in values ==> ComesFirst(result[0], s))
  }

  lemma GreedySelectionIsShortlist(values: seq<Suggestion>, picks: seq<nat>)
    requires SortedBy(values, NoWorse) && IsGreedySelection(values, picks, MOST_SUGGESTIONS, |values|)
    ensures IsShortlist(At(values, picks), values)
  {
    var result := At(values, picks);
    forall i, j | 0 <= i < j < |result| ensures ComesFirst(result[i], result[j]) && !TooClose(result[i], result[j]) {
      assert picks[j] in picks;
      NoWorseComesFirst(result[i], result[j]);
    }
  }

  lemma LeftOutIsJustified(values: seq<Suggestion>, picks: seq<nat>, i: nat)
    requires SortedBy(values, NoWorse) && IsGreedySelection(values, picks, MOST_SUGGESTIONS, |values|) && i < |values|
    ensures IsJustified(At(values, picks), values[i])
  {
    var result := At(values, picks);
    if i in picks {
      var k :| 0 <= k < |picks| && picks[k] == i;
      assert result[k] == values[i];
    } else if ClashesWithPick(values, picks, i) {
      var k :| 0 <= k < |picks| && picks[k] < i && Clash(values[picks[k]], values[i]);
      NoWorseComesFirst(result[k], values[i]);
      assert TooClose(result[k], values[i]) && ComesFirst(result[k], values[i]);
    } else {
      assert FullBefore(picks, MOST_SUGGESTIONS, i);
      forall k | 0 <= k < |result| ensures ComesFirst(result[k], values[i]) {
        assert picks[k] <= picks[MOST_SUGGESTIONS - 1];
        NoWorseComesFirst(result[k], values[i]);
      }
    }
  }

  lemma FirstIsPicked(values: seq<Suggestion>, picks: seq<nat>)
    requires SortedBy(values, NoWorse) && IsGreedySelection(values, picks, MOST_SUGGESTIONS, |values|) && values != []
    ensures picks != [] && picks[0] == 0
    ensures forall s :: s in values ==> ComesFirst(values[0], s)
  {
    assert !FullBefore(picks, MOST_SUGGESTIONS, 0) && !ClashesWithPick(values, picks, 0);
    assert 0 in picks;
    NoWorseOrder();
    forall s | s in values ensures ComesFirst(values[0], s) {
      var i :| 0 <= i < |values| && values[i] == s;
      NoWorseComesFirst(values[0], s);
      if i == 0 { assert NoWorse(s, s); }
    }
  }

  lemma GreedySelectionIsBest(values: seq<Suggestion>, picks: seq<nat>)
    requires SortedBy(values, NoWorse) && IsGreedySelection(values, picks, MOST_SUGGESTIONS, |values|)
    ensures IsBestShortlist(At(values, picks), values)
  {
    GreedySelectionIsShortlist(values, picks);
    forall s | s in values ensures IsJustified(At(values, picks), s) {
      var i :| 0 <= i < |values| && values[i] == s;
      LeftOutIsJustified(values, picks, i);
    }
    if values != [] { FirstIsPicked(values, picks); }
  }

  /** Ranks all suggestions and keeps the short list; the rank shown is the position, counted from 1. */
  method RankAndShorten(found: seq<Suggestion>) returns (result: seq<Suggestion>)
    ensures IsBestShortlist(result, found)
  {
    NoWorseOrder();
    var sorted := Sort(found, NoWorse);
    ghost var picks;
    result, picks := Deduplicate(sorted, MOST_SUGGESTIONS);
    GreedySelectionIsBest(sorted, picks);
    assert forall s :: s in sorted <==> s in found;
    assert sorted == [] <==> found == [];
  }
}
