/** Coalescing of touching equal intervals, its canonical form, and the quadratic overlay it is compared with. */
module Merging {
  import opened Ordering
  import opened Painting

  /** Some piece covers `t` and says `tag`. */
  ghost predicate Says(pieces: seq<Interval>, t: int, tag: Label) {
    exists i :: 0 <= i < |pieces| && Covers(pieces[i], t) && pieces[i].tag == tag
  }

  ghost predicate SayTheSame(a: seq<Interval>, b: seq<Interval>) {
    forall t, tag :: Says(a, t, tag) <==> Says(b, t, tag)
  }

  ghost predicate NoTouchingEqual(pieces: seq<Interval>) {
    forall i, j :: 0 <= i && j == i + 1 && j < |pieces| ==>
      pieces[i].endsAt != pieces[j].startsAt || pieces[i].tag != pieces[j].tag
  }

  /** Each nonempty, each starting where the previous one ends. */
  ghost predicate Chained(pieces: seq<Interval>) {
    && (forall i :: 0 <= i < |pieces| ==> pieces[i].startsAt < pieces[i].endsAt)
    && (forall i, j :: 0 <= i && j == i + 1 && j < |pieces| ==> pieces[i].endsAt == pieces[j].startsAt)
  }

  ghost predicate IsMergeOf(intervals: seq<Interval>, result: seq<Interval>) {
    && SayTheSame(intervals, result)
    && NoTouchingEqual(result)
    && (forall from, to :: Tiles(intervals, from, to) ==> Tiles(result, from, to))
  }

  predicate StartsNoLater(a: Interval, b: Interval) {
    a.startsAt <= b.startsAt
  }

  lemma {:induction false} ChainedIncreases(pieces: seq<Interval>, i: nat, j: nat)
    requires Chained(pieces) && i < j < |pieces|
    ensures pieces[i].endsAt <= pieces[j].startsAt
  {
    if i + 1 < j {
      ChainedIncreases(pieces, i, j - 1);
    }
  }

  lemma FrontsAgree(a: seq<Interval>, b: seq<Interval>)
    requires |a| == |b| > 0 && multiset(a) == multiset(b) && a[|a| - 1] == b[|b| - 1]
    ensures multiset(a[..|a| - 1]) == multiset(b[..|b| - 1])
  {
    var n := |a| - 1;
    assert a == a[..n] + [a[n]] && b == b[..n] + [b[n]];
    assert multiset(a[..n]) == multiset(a) - multiset{a[n]};
  }

  lemma LastIsLast(a: seq<Interval>, b: seq<Interval>)
    requires SortedBy(a, StartsNoLater) && Chained(b) && |a| == |b| > 0
    requires forall x :: x in a <==> x in b
    ensures a[|a| - 1] == b[|b| - 1]
  {
    var n := |b| - 1;
    assert b[n] in a && a[n] in b;
    var i :| 0 <= i < |a| && a[i] == b[n];
    var j :| 0 <= j < |b| && b[j] == a[n];
    assert i == n || StartsNoLater(a[i], a[n]);
    if j < n {
      ChainedIncreases(b, j, n);
    }
  }

  /** Sorting pieces that are already in strictly increasing order changes nothing. */
  lemma {:induction false} SortedChainIsFixed(a: seq<Interval>, b: seq<Interval>)
    requires SortedBy(a, StartsNoLater) && multiset(a) == multiset(b) && Chained(b)
    ensures a == b
  {
    SameElements(a, b);
    if b != [] {
      var n := |b| - 1;
      LastIsLast(a, b);
      FrontsAgree(a, b);
      SortedChainIsFixed(a[..n], b[..n]);
      assert a == a[..n] + [a[n]] && b == b[..n] + [b[n]];
    }
  }

  lemma SaysAppend(pieces: seq<Interval>, x: Interval)
    ensures forall t, tag :: Says(pieces + [x], t, tag) <==> Says(pieces, t, tag) || (Covers(x, t) && x.tag == tag)
  {
    forall t, tag ensures Says(pieces + [x], t, tag) <==> Says(pieces, t, tag) || (Covers(x, t) && x.tag == tag) {
      var all := pieces + [x];
      if Says(all, t, tag) {
        var i :| 0 <= i < |all| && Covers(all[i], t) && all[i].tag == tag;
        if i < |pieces| { assert pieces[i] == all[i]; }
      }
      if Says(pieces, t, tag) {
        var i :| 0 <= i < |pieces| && Covers(pieces[i], t) && pieces[i].tag == tag;
        assert all[i] == pieces[i];
      }
      if Covers(x, t) && x.tag == tag { assert all[|pieces|] == x; }
    }
  }

  lemma SaysExtended(pieces: seq<Interval>, x: Interval, y: Interval)
    requires x.startsAt < x.endsAt == y.startsAt < y.endsAt && x.tag == y.tag
    ensures SayTheSame(pieces + [x] + [y], pieces + [x.(endsAt := y.endsAt)])
  {
    SaysAppend(pieces + [x], y);
    SaysAppend(pieces, x);
    SaysAppend(pieces, x.(endsAt := y.endsAt));
  }

  lemma MergeExtends(done: seq<Interval>, x: Interval, merged: seq<Interval>, result: seq<Interval>)
    requires SayTheSame(done, merged) && NoTouchingEqual(merged) && merged != []
    requires merged[|merged| - 1].startsAt < merged[|merged| - 1].endsAt == x.startsAt < x.endsAt
    requires merged[|merged| - 1].tag == x.tag
    requires result == merged[|merged| - 1 := merged[|merged| - 1].(endsAt := x.endsAt)]
    ensures SayTheSame(done + [x], result) && NoTouchingEqual(result)
  {
    var front, last := merged[..|merged| - 1], merged[|merged| - 1];
    assert merged == front + [last];
    assert result == front + [last.(endsAt := x.endsAt)];
    SaysExtended(front, last, x);
    SaysAppend(merged, x);
    SaysAppend(done, x);
    forall t, tag ensures Says(done + [x], t, tag) <==> Says(result, t, tag) {
      assert Says(merged + [x], t, tag) <==> Says(result, t, tag);
    }
  }

  lemma MergeAppends(done: seq<Interval>, x: Interval, merged: seq<Interval>, result: seq<Interval>)
    requires SayTheSame(done, merged) && NoTouchingEqual(merged) && x.startsAt < x.endsAt
    requires merged != [] ==> merged[|merged| - 1].endsAt != x.startsAt || merged[|merged| - 1].tag != x.tag
    requires result == merged + [x]
    ensures SayTheSame(done + [x], result) && NoTouchingEqual(result)
  {
    SaysAppend(merged, x);
    SaysAppend(done, x);
  }

  lemma OrderIsTotal()
    ensures TotalPreorder(StartsNoLater)
  {
  }

  lemma PermutationSaysTheSame(a: seq<Interval>, b: seq<Interval>)
    requires forall x :: x in a <==> x in b
    ensures SayTheSame(a, b)
  {
    forall t, tag ensures Says(a, t, tag) <==> Says(b, t, tag) {
      if Says(a, t, tag) {
        var i :| 0 <= i < |a| && Covers(a[i], t) && a[i].tag == tag;
        assert a[i] in b;
      }
      if Says(b, t, tag) {
        var i :| 0 <= i < |b| && Covers(b[i], t) && b[i].tag == tag;
        assert b[i] in a;
      }
    }
  }

  ghost predicate MergedSoFar(done: seq<Interval>, result: seq<Interval>) {
    && Chained(result)
    && (done == [] <==> result == [])
    && (done != [] ==> result[0].startsAt == done[0].startsAt && result[|result| - 1].endsAt == done[|done| - 1].endsAt)
  }

  method Merge(intervals: seq<Interval>) returns (result: seq<Interval>)
    ensures IsMergeOf(intervals, result)
    ensures forall i :: 0 <= i < |result| ==> result[i].startsAt < result[i].endsAt
  {
    OrderIsTotal();
    var sorted := Sort(intervals, StartsNoLater);
    result := [];
    for k := 0 to |sorted|
      invariant forall i :: 0 <= i < |result| ==> result[i].startsAt < result[i].endsAt
      invariant NoTouchingEqual(result)
      invariant SayTheSame(sorted[..k], result)
      invariant Chained(sorted) ==> MergedSoFar(sorted[..k], result)
    {
      var interval := sorted[k];
      TakeOneMore(sorted, k);
      ghost var merged := result;
      if interval.startsAt < interval.endsAt {
        if |result| > 0 && result[|result| - 1].endsAt == interval.startsAt && result[|result| - 1].tag == interval.tag {
          result := result[|result| - 1 := result[|result| - 1].(endsAt := interval.endsAt)];
          MergeExtends(sorted[..k], interval, merged, result);
        } else {
          result := result + [interval];
          MergeAppends(sorted[..k], interval, merged, result);
        }
      } else {
        SaysAppend(sorted[..k], interval);
      }
    }
    assert sorted[..|sorted|] == sorted;
    SameElements(sorted, intervals);
    PermutationSaysTheSame(sorted, intervals);
    forall from, to | Tiles(intervals, from, to) ensures Tiles(result, from, to) {
      SortedChainIsFixed(sorted, intervals);
    }
  }

  // ---------- Canonical form ----------

  lemma TileCoverIsUnique(pieces: seq<Interval>, i: nat, j: nat, t: int)
    requires Chained(pieces) && i < |pieces| && j < |pieces| && Covers(pieces[i], t) && Covers(pieces[j], t)
    ensures i == j
  {
    if i < j { ChainedIncreases(pieces, i, j); }
    if j < i { ChainedIncreases(pieces, j, i); }
  }

  lemma TailTiles(pieces: seq<Interval>, from: int, to: int)
    requires Tiles(pieces, from, to) && pieces != []
    ensures Tiles(pieces[1..], pieces[0].endsAt, to) && pieces[0].endsAt <= to
  {
    if |pieces| > 1 {
      ChainedIncreases(pieces, 0, |pieces| - 1);
    }
  }

  lemma {:induction false} TileCovers(pieces: seq<Interval>, from: int, to: int, t: int) returns (i: nat)
    requires Tiles(pieces, from, to) && from <= t < to
    ensures i < |pieces| && Covers(pieces[i], t)
  {
    if t < pieces[0].endsAt {
      i := 0;
    } else {
      TailTiles(pieces, from, to);
      i := TileCovers(pieces[1..], pieces[0].endsAt, to, t);
      i := i + 1;
    }
  }

  lemma TileSaysOne(pieces: seq<Interval>, from: int, to: int, i: nat, t: int, tag: Label)
    requires Tiles(pieces, from, to) && i < |pieces| && Covers(pieces[i], t) && Says(pieces, t, tag)
    ensures tag == pieces[i].tag
  {
    var j :| 0 <= j < |pieces| && Covers(pieces[j], t) && pieces[j].tag == tag;
    TileCoverIsUnique(pieces, i, j, t);
  }

  lemma FirstPieceNotShorter(a: seq<Interval>, b: seq<Interval>, from: int, to: int)
    requires Tiles(a, from, to) && Tiles(b, from, to) && a != [] && b != []
    requires NoTouchingEqual(a) && a[0].tag == b[0].tag
    requires forall t, tag :: from <= t < to ==> (Says(a, t, tag) <==> Says(b, t, tag))
    ensures a[0].endsAt >= b[0].endsAt
  {
    var t := a[0].endsAt;
    if t < b[0].endsAt {
      TailTiles(b, from, to);
      assert |a| > 1 && Covers(a[1], t) && Covers(b[0], t);
      assert Says(b, t, b[0].tag);
      TileSaysOne(a, from, to, 1, t, b[0].tag);
      assert false;
    }
  }

  lemma FirstPiecesAgree(a: seq<Interval>, b: seq<Interval>, from: int, to: int)
    requires Tiles(a, from, to) && Tiles(b, from, to) && a != [] && b != []
    requires NoTouchingEqual(a) && NoTouchingEqual(b)
    requires forall t, tag :: from <= t < to ==> (Says(a, t, tag) <==> Says(b, t, tag))
    ensures a[0] == b[0]
  {
    TailTiles(a, from, to);
    assert Covers(a[0], from) && Covers(b[0], from);
    assert Says(a, from, a[0].tag);
    TileSaysOne(b, from, to, 0, from, a[0].tag);
    FirstPieceNotShorter(a, b, from, to);
    FirstPieceNotShorter(b, a, from, to);
  }

  lemma SaysTail(a: seq<Interval>, from: int, to: int, t: int, tag: Label)
    requires Tiles(a, from, to) && a != [] && a[0].endsAt <= t
    ensures Says(a, t, tag) <==> Says(a[1..], t, tag)
  {
    if Says(a, t, tag) {
      var i :| 0 <= i < |a| && Covers(a[i], t) && a[i].tag == tag;
      assert a[1..][i - 1] == a[i];
    }
    if Says(a[1..], t, tag) {
      var i :| 0 <= i < |a[1..]| && Covers(a[1..][i], t) && a[1..][i].tag == tag;
      assert a[i + 1] == a[1..][i];
    }
  }

  lemma TailsSayTheSame(a: seq<Interval>, b: seq<Interval>, from: int, to: int)
    requires Tiles(a, from, to) && Tiles(b, from, to) && a != [] && b != [] && a[0].endsAt == b[0].endsAt
    requires forall t, tag :: from <= t < to ==> (Says(a, t, tag) <==> Says(b, t, tag))
    ensures forall t, tag :: a[0].endsAt <= t < to ==> (Says(a[1..], t, tag) <==> Says(b[1..], t, tag))
  {
    forall t, tag | a[0].endsAt <= t < to ensures Says(a[1..], t, tag) <==> Says(b[1..], t, tag) {
      SaysTail(a, from, to, t, tag);
      SaysTail(b, from, to, t, tag);
    }
  }

  /** A merged tiling is determined by its range and by what it says at every instant. */
  lemma {:induction false} CanonicalFormIsUnique(a: seq<Interval>, b: seq<Interval>, from: int, to: int)
    requires Tiles(a, from, to) && Tiles(b, from, to)
    requires NoTouchingEqual(a) && NoTouchingEqual(b)
    requires forall t, tag :: from <= t < to ==> (Says(a, t, tag) <==> Says(b, t, tag))
    ensures a == b
  {
    if a == [] || b == [] {
      if a != [] { TailTiles(a, from, to); }
      if b != [] { TailTiles(b, from, to); }
    } else {
      TailTiles(a, from, to);
      TailTiles(b, from, to);
      FirstPiecesAgree(a, b, from, to);
      TailsSayTheSame(a, b, from, to);
      CanonicalFormIsUnique(a[1..], b[1..], a[0].endsAt, to);
      SameHeadSameTail(a, b);
    }
  }

  // ---------- The quadratic overlay ----------

  /** Replaces the part of `current` that `applied` overlaps. */
  function OverlayOne(current: Interval, applied: Interval): seq<Interval> {
    if current.endsAt <= applied.startsAt || applied.endsAt <= current.startsAt then [current]
    else
      (if current.startsAt < applied.startsAt then [current.(endsAt := applied.startsAt)] else [])
      + [applied.(startsAt := if applied.startsAt < current.startsAt then current.startsAt else applied.startsAt,
                  endsAt := if applied.endsAt > current.endsAt then current.endsAt else applied.endsAt)]
      + (if current.endsAt > applied.endsAt then [current.(startsAt := applied.endsAt)] else [])
  }

  function OverlayEach(intervals: seq<Interval>, applied: Interval): seq<Interval> {
    if intervals == [] then []
    else OverlayEach(intervals[..|intervals| - 1], applied) + OverlayOne(intervals[|intervals| - 1], applied)
  }

  function Overlay(intervals: seq<Interval>, applied: Interval): seq<Interval> {
    if applied.endsAt <= applied.startsAt then intervals else OverlayEach(intervals, applied)
  }

  ghost function OverlayAll(base: Interval, layers: seq<Interval>): seq<Interval> {
    if layers == [] then [base] else Overlay(OverlayAll(base, layers[..|layers| - 1]), layers[|layers| - 1])
  }

  lemma SaysConcat(a: seq<Interval>, b: seq<Interval>, t: int, tag: Label)
    ensures Says(a + b, t, tag) <==> Says(a, t, tag) || Says(b, t, tag)
  {
    var all := a + b;
    if Says(all, t, tag) {
      var i :| 0 <= i < |all| && Covers(all[i], t) && all[i].tag == tag;
      if i < |a| { assert a[i] == all[i]; } else { assert b[i - |a|] == all[i]; }
    }
    if Says(a, t, tag) {
      var i :| 0 <= i < |a| && Covers(a[i], t) && a[i].tag == tag;
      assert all[i] == a[i];
    }
    if Says(b, t, tag) {
      var i :| 0 <= i < |b| && Covers(b[i], t) && b[i].tag == tag;
      assert all[|a| + i] == b[i];
    }
  }

  lemma TilesConcat(a: seq<Interval>, b: seq<Interval>, from: int, mid: int, to: int)
    requires Tiles(a, from, mid) && Tiles(b, mid, to)
    ensures Tiles(a + b, from, to)
  {
  }

  lemma OverlayOneTiles(current: Interval, applied: Interval)
    requires current.startsAt < current.endsAt && applied.startsAt < applied.endsAt
    ensures Tiles(OverlayOne(current, applied), current.startsAt, current.endsAt)
  {
  }

  lemma OverlayOneSays(current: Interval, applied: Interval, t: int, tag: Label)
    requires current.startsAt < current.endsAt && applied.startsAt < applied.endsAt
    ensures Says(OverlayOne(current, applied), t, tag) <==>
            Covers(current, t) && tag == (if Covers(applied, t) then applied.tag else current.tag)
  {
    var r := OverlayOne(current, applied);
    assert |r| <= 3;
    assert Says(r, t, tag) <==>
      (|r| > 0 && Covers(r[0], t) && r[0].tag == tag) || (|r| > 1 && Covers(r[1], t) && r[1].tag == tag)
      || (|r| > 2 && Covers(r[2], t) && r[2].tag == tag);
  }

  lemma OverlayEachSays(front: seq<Interval>, last: Interval, applied: Interval, t: int, tag: Label)
    requires last.startsAt < last.endsAt && applied.startsAt < applied.endsAt
    requires Says(OverlayEach(front, applied), t, tag) <==>
             exists was :: Says(front, t, was) && tag == (if Covers(applied, t) then applied.tag else was)
    ensures Says(OverlayEach(front, applied) + OverlayOne(last, applied), t, tag) <==>
            exists was :: Says(front + [last], t, was) && tag == (if Covers(applied, t) then applied.tag else was)
  {
    OverlayOneSays(last, applied, t, tag);
    SaysConcat(OverlayEach(front, applied), OverlayOne(last, applied), t, tag);
    SaysAppend(front, last);
    if Covers(last, t) { assert Says(front + [last], t, last.tag); }
  }

  lemma {:induction false} OverlayEachPoints(intervals: seq<Interval>, applied: Interval, from: int, to: int, t: int, tag: Label)
    requires Tiles(intervals, from, to) && applied.startsAt < applied.endsAt
    ensures Tiles(OverlayEach(intervals, applied), from, to)
    ensures Says(OverlayEach(intervals, applied), t, tag) <==>
            exists was :: Says(intervals, t, was) && tag == (if Covers(applied, t) then applied.tag else was)
  {
    if intervals != [] {
      var n := |intervals| - 1;
      var front, last := intervals[..n], intervals[n];
      assert intervals == front + [last];
      var under, over := OverlayEach(front, applied), OverlayOne(last, applied);
      OverlayEachPoints(front, applied, from, last.startsAt, t, tag);
      OverlayOneTiles(last, applied);
      TilesConcat(under, over, from, last.startsAt, to);
      assert OverlayEach(intervals, applied) == under + over;
      OverlayEachSays(front, last, applied, t, tag);
    }
  }

  lemma {:induction false} OverlayAllPoints(base: Interval, layers: seq<Interval>, t: int, tag: Label)
    requires base.startsAt < base.endsAt
    ensures Tiles(OverlayAll(base, layers), base.startsAt, base.endsAt)
    ensures Says(OverlayAll(base, layers), t, tag) <==> Covers(base, t) && tag == LabelAt(base.tag, layers, t)
  {
    if layers == [] {
      assert OverlayAll(base, layers)[0] == base;
    } else {
      var n := |layers| - 1;
      var under := OverlayAll(base, layers[..n]);
      OverlayAllPoints(base, layers[..n], t, tag);
      assert LabelAt(base.tag, layers, t) == if Covers(layers[n], t) then layers[n].tag else LabelAt(base.tag, layers[..n], t);
      if layers[n].startsAt < layers[n].endsAt {
        forall was ensures Says(under, t, was) <==> Covers(base, t) && was == LabelAt(base.tag, layers[..n], t) {
          OverlayAllPoints(base, layers[..n], t, was);
        }
        OverlayEachPoints(under, layers[n], base.startsAt, base.endsAt, t, tag);
        if Covers(base, t) { assert Says(under, t, LabelAt(base.tag, layers[..n], t)); }
      }
    }
  }

  lemma PaintingSays(fallback: Label, layers: seq<Interval>, from: int, to: int, pieces: seq<Interval>, t: int, tag: Label)
    requires IsPainting(fallback, layers, from, to, pieces) && from <= t < to
    ensures Says(pieces, t, tag) <==> tag == LabelAt(fallback, layers, t)
  {
    var i := TileCovers(pieces, from, to, t);
    assert Faithful(fallback, layers, pieces[i]);
    assert Says(pieces, t, pieces[i].tag);
    if Says(pieces, t, tag) {
      TileSaysOne(pieces, from, to, i, t, tag);
    }
  }

  /** The boundary sweep and the overlay of one layer after the other merge to the same intervals. */
  lemma SweepRefinesOverlay(base: Interval, layers: seq<Interval>, painted: seq<Interval>, fast: seq<Interval>, slow: seq<Interval>)
    requires base.startsAt < base.endsAt
    requires IsPainting(base.tag, layers, base.startsAt, base.endsAt, painted)
    requires IsMergeOf(painted, fast) && IsMergeOf(OverlayAll(base, layers), slow)
    ensures fast == slow
  {
    var from, to := base.startsAt, base.endsAt;
    OverlayAllPoints(base, layers, from, base.tag);
    forall t, tag | from <= t < to ensures Says(fast, t, tag) <==> Says(slow, t, tag) {
      PaintingSays(base.tag, layers, from, to, painted, t, tag);
      OverlayAllPoints(base, layers, t, tag);
      assert Says(painted, t, tag) <==> Says(fast, t, tag);
      assert Says(OverlayAll(base, layers), t, tag) <==> Says(slow, t, tag);
    }
    CanonicalFormIsUnique(fast, slow, from, to);
  }

  lemma TailPainted(fallback: Label, layers: seq<Interval>, from: int, to: int, a: seq<Interval>)
    requires IsPainting(fallback, layers, from, to, a) && a != []
    ensures IsPainting(fallback, layers, a[0].endsAt, to, a[1..])
    ensures a[0].startsAt == from && a[0].tag == LabelAt(fallback, layers, from)
  {
    TailTiles(a, from, to);
    assert Faithful(fallback, layers, a[0]);
  }

  lemma PaintedPieceNotShorter(fallback: Label, layers: seq<Interval>, from: int, to: int, a: seq<Interval>, b: seq<Interval>)
    requires IsPainting(fallback, layers, from, to, a) && IsPainting(fallback, layers, from, to, b)
    requires a != [] && b != []
    ensures a[0].endsAt >= b[0].endsAt
  {
    TailTiles(a, from, to);
    TailTiles(b, from, to);
    if |a| > 1 && Covers(b[0], a[1].startsAt) {
      assert Faithful(fallback, layers, b[0]);
    }
  }

  /** There is only one painting: the contract of Paint leaves no freedom. */
  lemma {:induction false} PaintingIsUnique(fallback: Label, layers: seq<Interval>, from: int, to: int, a: seq<Interval>, b: seq<Interval>)
    requires IsPainting(fallback, layers, from, to, a) && IsPainting(fallback, layers, from, to, b)
    ensures a == b
    decreases |a|
  {
    if a == [] || b == [] {
      if a != [] { TailTiles(a, from, to); }
      if b != [] { TailTiles(b, from, to); }
    } else {
      PaintedPieceNotShorter(fallback, layers, from, to, a, b);
      PaintedPieceNotShorter(fallback, layers, from, to, b, a);
      TailPainted(fallback, layers, from, to, a);
      TailPainted(fallback, layers, from, to, b);
      PaintingIsUnique(fallback, layers, a[0].endsAt, to, a[1..], b[1..]);
      SameHeadSameTail(a, b);
    }
  }
}
