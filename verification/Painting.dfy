/** Schedule intervals, the boundary sweep that paints layers, and the merge of its fragments. */
module Painting {
  import opened Ordering
  import opened LayerHeaps

  datatype Status = Available | Limited | Unavailable

  /** Everything an interval says besides its range. */
  datatype Label = Label(status: Status, source: string, sourceType: string, reason: string, internalNote: string)

  datatype Interval = Interval(startsAt: int, endsAt: int, tag: Label)

  ghost predicate Covers(layer: Interval, t: int) {
    layer.startsAt <= t < layer.endsAt
  }

  /** The highest index of a layer covering `t`, or -1: the layer applied last wins. */
  ghost function Winner(layers: seq<Interval>, t: int): (w: int)
    ensures -1 <= w < |layers|
    ensures w >= 0 ==> Covers(layers[w], t)
    ensures forall k :: w < k < |layers| ==> !Covers(layers[k], t)
  {
    if layers == [] then -1
    else if Covers(layers[|layers| - 1], t) then |layers| - 1
    else Winner(layers[..|layers| - 1], t)
  }

  ghost function LabelAt(fallback: Label, layers: seq<Interval>, t: int): Label {
    var w := Winner(layers, t);
    if w < 0 then fallback else layers[w].tag
  }

  /** Nonempty pieces that follow each other without gap or overlap from `from` to `to`. */
  ghost predicate Tiles(pieces: seq<Interval>, from: int, to: int) {
    && (pieces == [] ==> from == to)
    && (pieces != [] ==> pieces[0].startsAt == from && pieces[|pieces| - 1].endsAt == to)
    && (forall i :: 0 <= i < |pieces| ==> pieces[i].startsAt < pieces[i].endsAt)
    && (forall i, j :: 0 <= i && j == i + 1 && j < |pieces| ==> pieces[i].endsAt == pieces[j].startsAt)
  }

  /** One layer wins on the whole piece, and the piece carries that layer's label. */
  ghost predicate Faithful(fallback: Label, layers: seq<Interval>, piece: Interval) {
    && piece.tag == LabelAt(fallback, layers, piece.startsAt)
    && (forall t :: Covers(piece, t) ==> Winner(layers, t) == Winner(layers, piece.startsAt))
  }

  ghost predicate IsPainting(fallback: Label, layers: seq<Interval>, from: int, to: int, pieces: seq<Interval>) {
    && Tiles(pieces, from, to)
    && (forall i :: 0 <= i < |pieces| ==> Faithful(fallback, layers, pieces[i]))
    && (forall i, j :: 0 <= i && j == i + 1 && j < |pieces| ==>
          Winner(layers, pieces[i].startsAt) != Winner(layers, pieces[j].startsAt))
  }

  ghost predicate Within(base: Interval, layer: Interval) {
    base.startsAt <= layer.startsAt <= base.endsAt && base.startsAt <= layer.endsAt <= base.endsAt
  }

  ghost predicate StrictlyIncreasing(s: seq<int>) {
    forall i, j :: 0 <= i < j < |s| ==> s[i] < s[j]
  }

  ghost predicate IsBoundary(base: Interval, layers: seq<Interval>, t: int) {
    t == base.startsAt || t == base.endsAt || exists l :: l in layers && (t == l.startsAt || t == l.endsAt)
  }

  /** Collects, sorts and deduplicates the end points of the base and of every layer. */
  method Boundaries(base: Interval, layers: seq<Interval>) returns (unique: seq<int>)
    requires base.startsAt < base.endsAt && forall l :: l in layers ==> Within(base, l)
    ensures |unique| >= 2 && StrictlyIncreasing(unique)
    ensures forall t :: t in unique <==> IsBoundary(base, layers, t)
    ensures unique[0] == base.startsAt && unique[|unique| - 1] == base.endsAt
  {
    var boundaries := [base.startsAt, base.endsAt];
    for index := 0 to |layers|
      invariant forall t :: t in boundaries <==> IsBoundary(base, layers[..index], t)
    {
      assert layers[..index + 1] == layers[..index] + [layers[index]];
      boundaries := boundaries + [layers[index].startsAt, layers[index].endsAt];
    }
    assert layers[..|layers|] == layers;
    var sorted := Sort(boundaries, (a: int, b: int) => a <= b);
    assert base.startsAt in sorted;
    unique := sorted[..1];
    for i := 1 to |sorted|
      invariant |unique| >= 1 && StrictlyIncreasing(unique)
      invariant unique[|unique| - 1] == sorted[i - 1]
      invariant forall t :: t in unique <==> t in sorted[..i]
    {
      if sorted[i] != unique[|unique| - 1] {
        unique := unique + [sorted[i]];
      }
    }
    assert sorted[..|sorted|] == sorted;
    assert base.startsAt in unique && base.endsAt in unique;
    assert unique[0] in unique && unique[|unique| - 1] in unique;
  }

  lemma SameCoverSameWinner(layers: seq<Interval>, t: int, u: int)
    requires forall k :: 0 <= k < |layers| ==> (Covers(layers[k], t) <==> Covers(layers[k], u))
    ensures Winner(layers, t) == Winner(layers, u)
  {
    var v, w := Winner(layers, t), Winner(layers, u);
    assert w >= 0 ==> Covers(layers[w], t);
    assert v >= 0 ==> Covers(layers[v], u);
  }

  /** No boundary lies strictly inside an elementary segment, so one layer wins on all of it. */
  lemma SegmentHasOneWinner(base: Interval, layers: seq<Interval>, unique: seq<int>, i: nat, t: int)
    requires StrictlyIncreasing(unique) && i + 1 < |unique| && unique[i] <= t < unique[i + 1]
    requires forall u :: u in unique <==> IsBoundary(base, layers, u)
    ensures Winner(layers, t) == Winner(layers, unique[i])
  {
    forall k | 0 <= k < |layers| ensures Covers(layers[k], t) <==> Covers(layers[k], unique[i]) {
      assert layers[k] in layers;
      assert layers[k].startsAt in unique && layers[k].endsAt in unique;
      var a :| 0 <= a < |unique| && unique[a] == layers[k].startsAt;
      var b :| 0 <= b < |unique| && unique[b] == layers[k].endsAt;
      assert a <= i <==> unique[a] <= t;
      assert b <= i <==> unique[b] <= t;
    }
    SameCoverSameWinner(layers, t, unique[i]);
  }

  function StartOf(layers: seq<Interval>, index: int): int {
    if 0 <= index < |layers| then layers[index].startsAt else 0
  }

  ghost predicate OrderedByStart(layers: seq<Interval>, byStart: seq<int>) {
    && (forall k :: 0 <= k < |layers| ==> k in byStart)
    && (forall i :: 0 <= i < |byStart| ==> 0 <= byStart[i] < |layers|)
    && (forall i, j :: 0 <= i < j < |byStart| ==> StartOf(layers, byStart[i]) <= StartOf(layers, byStart[j]))
  }

  /** Layer indices ordered by the start of their layer. */
  method IndicesByStart(layers: seq<Interval>) returns (byStart: seq<int>)
    ensures OrderedByStart(layers, byStart)
  {
    var indices := seq(|layers|, i => i);
    assert forall k :: 0 <= k < |layers| ==> indices[k] == k;
    byStart := Sort(indices, (i: int, j: int) => StartOf(layers, i) <= StartOf(layers, j));
    forall k | 0 <= k < |layers| ensures k in byStart {
      assert indices[k] in indices;
    }
    forall i | 0 <= i < |byStart| ensures 0 <= byStart[i] < |layers| {
      assert byStart[i] in indices;
    }
  }

  /** Among the layers taken so far, which started by `at`, each is on the heap or has expired by then. */
  ghost predicate Tracked(layers: seq<Interval>, byStart: seq<int>, next: nat, active: seq<int>, at: int) {
    && next <= |byStart|
    && (forall x :: x in active ==> x in byStart[..next])
    && (forall k :: 0 <= k < next ==> StartOf(layers, byStart[k]) <= at)
    && (forall k :: 0 <= k < next && 0 <= byStart[k] < |layers| ==>
          byStart[k] in active || layers[byStart[k]].endsAt <= at)
  }

  /** Reads the top of the heap; everything on it is a layer index. */
  function TopOf(layers: seq<Interval>, byStart: seq<int>, next: nat, active: seq<int>, at: int): (top: nat)
    requires active != [] && OrderedByStart(layers, byStart) && Tracked(layers, byStart, next, active, at)
    ensures top < |layers| && top == active[0]
  {
    assert active[0] in active;
    active[0]
  }

  lemma KeptAfterPush(layers: seq<Interval>, byStart: seq<int>, next: nat, held: seq<int>, now: seq<int>, at: int)
    requires next < |byStart| && Tracked(layers, byStart, next, held, at)
    requires StartOf(layers, byStart[next]) <= at
    requires multiset(now) == multiset(held) + multiset{byStart[next]}
    ensures Tracked(layers, byStart, next + 1, now, at)
  {
    forall x ensures x in now <==> x in held || x == byStart[next] {
      assert x in now <==> x in multiset(now);
      assert x in held <==> x in multiset(held);
    }
    assert byStart[..next + 1] == byStart[..next] + [byStart[next]];
  }

  lemma KeptAfterPop(layers: seq<Interval>, byStart: seq<int>, next: nat, held: seq<int>, now: seq<int>, popped: int, at: int)
    requires Tracked(layers, byStart, next, held, at)
    requires popped in held && multiset(now) == multiset(held) - multiset{popped}
    requires 0 <= popped < |layers| && layers[popped].endsAt <= at
    ensures Tracked(layers, byStart, next, now, at) && |now| < |held|
  {
    forall x ensures (x in now ==> x in held) && (x in held && x != popped ==> x in now) {
      assert x in now <==> x in multiset(now);
      assert x in held <==> x in multiset(held);
    }
    assert popped in multiset(held);
    assert |multiset(now)| == |now| && |multiset(held)| == |held|;
  }

  /** Once the top of the heap has not expired, it is the winner, whatever lies below it. */
  lemma TopWins(layers: seq<Interval>, byStart: seq<int>, next: nat, active: seq<int>, at: int, winner: int)
    requires OrderedByStart(layers, byStart) && Tracked(layers, byStart, next, active, at) && IsHeap(active)
    requires next < |byStart| ==> StartOf(layers, byStart[next]) > at
    requires active == [] ==> winner == -1
    requires active != [] ==> winner == active[0] && 0 <= winner < |layers| && layers[winner].endsAt > at
    ensures winner == Winner(layers, at)
  {
    var w := Winner(layers, at);
    if w >= 0 {
      assert w in byStart;
      var k :| 0 <= k < |byStart| && byStart[k] == w;
      assert StartOf(layers, byStart[k]) <= at;
      assert k < next;
      var i :| 0 <= i < |active| && active[i] == w;
      RootIsGreatest(active, i);
    }
    if winner >= 0 {
      assert winner in byStart[..next];
      assert Covers(layers[winner], at);
    }
  }

  /** Pushes the layers that have started by `at`, drops expired ones off the top, and reads the winner. */
  method Advance(layers: seq<Interval>, byStart: seq<int>, active: LayerHeap, start: nat, at: int)
    returns (next: nat, winner: int)
    requires OrderedByStart(layers, byStart) && active.Valid()
    requires Tracked(layers, byStart, start, active.items, at)
    modifies active
    ensures active.Valid() && Tracked(layers, byStart, next, active.items, at)
    ensures winner == Winner(layers, at)
  {
    next := start;
    while next < |byStart| && layers[byStart[next]].startsAt <= at
      invariant 0 <= next <= |byStart| && active.Valid()
      invariant Tracked(layers, byStart, next, active.items, at)
    {
      ghost var held := active.items;
      active.Push(byStart[next]);
      KeptAfterPush(layers, byStart, next, held, active.items, at);
      next := next + 1;
    }
    while |active.items| > 0 && layers[TopOf(layers, byStart, next, active.items, at)].endsAt <= at
      invariant active.Valid() && Tracked(layers, byStart, next, active.items, at)
      decreases |active.items|
    {
      ghost var held := active.items;
      var popped := active.Pop();
      KeptAfterPop(layers, byStart, next, held, active.items, popped, at);
    }
    winner := -1;
    if |active.items| > 0 {
      winner := active.items[0];
    }
    TopWins(layers, byStart, next, active.items, at, winner);
  }

  lemma PaintExtended(base: Interval, layers: seq<Interval>, unique: seq<int>, index: nat, painted: seq<Interval>, result: seq<Interval>)
    requires StrictlyIncreasing(unique) && index + 1 < |unique|
    requires forall u :: u in unique <==> IsBoundary(base, layers, u)
    requires painted != [] && IsPainting(base.tag, layers, base.startsAt, unique[index], painted)
    requires Winner(layers, unique[index]) == Winner(layers, painted[|painted| - 1].startsAt)
    requires result == painted[|painted| - 1 := painted[|painted| - 1].(endsAt := unique[index + 1])]
    ensures IsPainting(base.tag, layers, base.startsAt, unique[index + 1], result)
  {
    var old_, new_ := painted[|painted| - 1], result[|painted| - 1];
    assert Faithful(base.tag, layers, old_);
    forall t | Covers(new_, t) ensures Winner(layers, t) == Winner(layers, new_.startsAt) {
      if t >= unique[index] {
        SegmentHasOneWinner(base, layers, unique, index, t);
      } else {
        assert Covers(old_, t);
      }
    }
    assert Faithful(base.tag, layers, new_);
  }

  lemma PaintAppended(base: Interval, layers: seq<Interval>, unique: seq<int>, index: nat, painted: seq<Interval>, result: seq<Interval>)
    requires StrictlyIncreasing(unique) && index + 1 < |unique| && unique[0] == base.startsAt
    requires forall u :: u in unique <==> IsBoundary(base, layers, u)
    requires IsPainting(base.tag, layers, base.startsAt, unique[index], painted)
    requires index == 0 ==> painted == []
    requires painted != [] ==> Winner(layers, unique[index]) != Winner(layers, painted[|painted| - 1].startsAt)
    requires painted == [] ==> index == 0
    requires result == painted + [Interval(unique[index], unique[index + 1], LabelAt(base.tag, layers, unique[index]))]
    ensures IsPainting(base.tag, layers, base.startsAt, unique[index + 1], result)
  {
    var piece := result[|painted|];
    forall t | Covers(piece, t) ensures Winner(layers, t) == Winner(layers, piece.startsAt) {
      SegmentHasOneWinner(base, layers, unique, index, t);
    }
    assert Faithful(base.tag, layers, piece);
  }

  method Paint(base: Interval, layers: seq<Interval>) returns (result: seq<Interval>)
    requires forall l :: l in layers ==> Within(base, l)
    ensures base.endsAt <= base.startsAt ==> result == []
    ensures base.startsAt < base.endsAt ==> IsPainting(base.tag, layers, base.startsAt, base.endsAt, result)
  {
    if base.endsAt <= base.startsAt {
      return [];
    }
    var byStart := IndicesByStart(layers);
    var unique := Boundaries(base, layers);
    var active := new LayerHeap();
    result := [];
    var next := 0;
    var lastWinner := -2;
    for index := 0 to |unique| - 1
      invariant fresh(active) && active.Valid()
      invariant Tracked(layers, byStart, next, active.items, unique[index])
      invariant result == [] <==> index == 0
      invariant lastWinner == if index == 0 then -2 else Winner(layers, result[|result| - 1].startsAt)
      invariant IsPainting(base.tag, layers, base.startsAt, unique[index], result)
    {
      var at := unique[index];
      var winner;
      next, winner := Advance(layers, byStart, active, next, at);
      var segment := base;
      if winner >= 0 {
        segment := layers[winner];
      }
      ghost var painted := result;
      if winner == lastWinner {
        result := result[|result| - 1 := result[|result| - 1].(endsAt := unique[index + 1])];
        PaintExtended(base, layers, unique, index, painted, result);
      } else {
        result := result + [segment.(startsAt := at, endsAt := unique[index + 1])];
        PaintAppended(base, layers, unique, index, painted, result);
        lastWinner := winner;
      }
      assert Tracked(layers, byStart, next, active.items, unique[index + 1]);
    }
  }
}
