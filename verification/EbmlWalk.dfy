/** Walking nested EBML elements under one shared budget of items. */
module EbmlWalk {
  import opened Options
  import opened Bytes
  import opened ItemBudgets
  import opened Vint

  const CLUSTER := 0x1f43b675
  const TIMECODE := 0xe7

  datatype Element = Element(id: nat, dataOffset: nat, end: nat)

  /** An ID of at most four octets, a size of at most eight, and then the data inside the parent. */
  ghost predicate HeaderAt(data: seq<byte>, offset: nat, limit: nat, id: nat, idWidth: nat, size: nat, sizeWidth: nat) {
    && idWidth <= 4 && VintAt(data, offset, id, idWidth) && offset + idWidth < limit
    && VintAt(data, offset + idWidth, size, sizeWidth) && offset + idWidth + sizeWidth <= limit
  }

  ghost predicate UnknownSize(size: nat, width: nat)
    requires 1 <= width <= 8
  {
    size == Capacity(width) - 1
  }

  ghost predicate KnownElement(data: seq<byte>, offset: nat, limit: nat, id: nat, idWidth: nat, size: nat, sizeWidth: nat, e: Element) {
    && HeaderAt(data, offset, limit, id, idWidth, size, sizeWidth) && !UnknownSize(size, sizeWidth)
    && e == Element(Capacity(idWidth) + id, offset + idWidth + sizeWidth, offset + idWidth + sizeWidth + size)
    && e.end <= limit
  }

  ghost predicate OpenElement(data: seq<byte>, offset: nat, limit: nat, id: nat, idWidth: nat, size: nat, sizeWidth: nat, e: Element) {
    && HeaderAt(data, offset, limit, id, idWidth, size, sizeWidth) && UnknownSize(size, sizeWidth)
    && e == Element(Capacity(idWidth) + id, offset + idWidth + sizeWidth, limit)
  }

  /** The element that starts at `offset`; one of unknown size reaches to the end of its parent. */
  ghost predicate ElementAt(data: seq<byte>, offset: nat, limit: nat, allowUnknown: bool, e: Element) {
    exists id, idWidth, size, sizeWidth ::
      || KnownElement(data, offset, limit, id, idWidth, size, sizeWidth, e)
      || (allowUnknown && OpenElement(data, offset, limit, id, idWidth, size, sizeWidth, e))
  }

  lemma HeaderIsUnique(data: seq<byte>, offset: nat, limit: nat, a: nat, b: nat, c: nat, d: nat, a': nat, b': nat, c': nat, d': nat)
    requires HeaderAt(data, offset, limit, a, b, c, d) && HeaderAt(data, offset, limit, a', b', c', d')
    ensures a == a' && b == b' && c == c' && d == d'
  {
    VintIsUnique(data, offset, a, b, a', b');
    VintIsUnique(data, offset + b, c, d, c', d');
  }

  lemma ElementIsUnique(data: seq<byte>, offset: nat, limit: nat, allowUnknown: bool, e: Element, f: Element)
    requires ElementAt(data, offset, limit, allowUnknown, e) && ElementAt(data, offset, limit, allowUnknown, f)
    ensures e == f
  {
    var a, b, c, d :| KnownElement(data, offset, limit, a, b, c, d, e) || (allowUnknown && OpenElement(data, offset, limit, a, b, c, d, e));
    var a', b', c', d' :| KnownElement(data, offset, limit, a', b', c', d', f) || (allowUnknown && OpenElement(data, offset, limit, a', b', c', d', f));
    HeaderIsUnique(data, offset, limit, a, b, c, d, a', b', c', d');
  }

  /** Every element takes room and stays inside its parent. */
  lemma ElementAdvances(data: seq<byte>, offset: nat, limit: nat, allowUnknown: bool, e: Element)
    requires ElementAt(data, offset, limit, allowUnknown, e)
    ensures offset < e.dataOffset <= e.end <= limit
  {
  }

  lemma OnlyHeader(data: seq<byte>, offset: nat, limit: nat, p: nat, w: nat)
    requires VintAt(data, offset, p, w) && w <= 4
    ensures forall a, b, c, d :: HeaderAt(data, offset, limit, a, b, c, d) ==> a == p && b == w
  {
    forall a, b, c, d | HeaderAt(data, offset, limit, a, b, c, d) ensures a == p && b == w {
      VintIsUnique(data, offset, a, b, p, w);
    }
  }

  lemma OnlySize(data: seq<byte>, offset: nat, limit: nat, p: nat, w: nat, size: nat, sizeWidth: nat)
    requires VintAt(data, offset, p, w) && w <= 4 && VintAt(data, offset + w, size, sizeWidth)
    ensures forall a, b, c, d :: HeaderAt(data, offset, limit, a, b, c, d) ==> a == p && b == w && c == size && d == sizeWidth
  {
    forall a, b, c, d | HeaderAt(data, offset, limit, a, b, c, d) ensures a == p && b == w && c == size && d == sizeWidth {
      VintIsUnique(data, offset, a, b, p, w);
      VintIsUnique(data, offset + w, c, d, size, sizeWidth);
    }
  }

  /** The ID and the size at the start of an element, when both fit before the limit. */
  method ReadHead(data: seq<byte>, offset: nat, limit: nat) returns (result: Option<(Reading, Reading)>)
    requires offset < limit <= |data|
    ensures result.Some? ==>
      var (id, size) := result.value;
      && 1 <= id.width <= 4 && id.value >= Capacity(id.width) && 1 <= size.width <= 8
      && HeaderAt(data, offset, limit, id.value - Capacity(id.width), id.width, size.value, size.width)
      && (size.unknown <==> UnknownSize(size.value, size.width))
    ensures result.None? ==> forall a, b, c, d :: !HeaderAt(data, offset, limit, a, b, c, d)
  {
    var id := ReadVariable(data, offset, 4, false);
    if id.None? {
      return None;
    }

    ghost var payload := id.value.value - Capacity(id.value.width);
    OnlyHeader(data, offset, limit, payload, id.value.width);
    if offset + id.value.width >= limit {
      return None;
    }
    var size := ReadVariable(data, offset + id.value.width, 8, true);
    if size.None? {
      return None;
    }
    OnlySize(data, offset, limit, payload, id.value.width, size.value.value, size.value.width);
    if offset + id.value.width + size.value.width > limit {
      return None;
    }
    result := Some((id.value, size.value));
  }

  lemma OnlyHeaderThere(data: seq<byte>, offset: nat, limit: nat, p: nat, w: nat, size: nat, sizeWidth: nat)
    requires HeaderAt(data, offset, limit, p, w, size, sizeWidth)
    ensures forall a, b, c, d :: HeaderAt(data, offset, limit, a, b, c, d) ==> a == p && b == w && c == size && d == sizeWidth
  {
    forall a, b, c, d | HeaderAt(data, offset, limit, a, b, c, d) ensures a == p && b == w && c == size && d == sizeWidth {
      HeaderIsUnique(data, offset, limit, a, b, c, d, p, w, size, sizeWidth);
    }
  }

  method ReadElement(data: seq<byte>, offset: nat, limit: nat, allowUnknown: bool, budget: ItemBudget) returns (result: Option<Element>)
    requires |data| <= MAX_INT && budget.items <= MAXIMUM_ITEMS
    modifies budget
    ensures budget.items == old(budget.items) + (if offset < limit <= |data| && old(budget.items) < MAXIMUM_ITEMS then 1 else 0)
    ensures budget.items <= MAXIMUM_ITEMS
    ensures result.Some? ==> offset < limit <= |data| && budget.items == old(budget.items) + 1
    ensures result.Some? ==> ElementAt(data, offset, limit, allowUnknown, result.value)
    ensures result.None? && offset < limit <= |data| && old(budget.items) < MAXIMUM_ITEMS ==>
      forall e :: !ElementAt(data, offset, limit, allowUnknown, e)
  {
    if limit > |data| || offset >= limit {
      return None;
    }
    var ok := budget.Consume();
    if !ok {
      return None;
    }
    var head := ReadHead(data, offset, limit);
    if head.None? {
      return None;
    }
    var id, size := head.value.0, head.value.1;
    ghost var payload := id.value - Capacity(id.width);
    OnlyHeaderThere(data, offset, limit, payload, id.width, size.value, size.width);
    if size.unknown && !allowUnknown {
      return None;
    }
    var start := offset + id.width + size.width;
    var end := limit;
    if !size.unknown {
      if size.value > MAX_INT || size.value > limit - start {
        return None;
      }
      end := start + size.value;
      assert KnownElement(data, offset, limit, payload, id.width, size.value, size.width, Element(id.value, start, end));
    } else {
      assert OpenElement(data, offset, limit, payload, id.width, size.value, size.width, Element(id.value, start, end));
    }
    result := Some(Element(id.value, start, end));
  }

  // ---------- Children tile their parent ----------

  /** Children of known size, each starting where the one before ends, from `from` up to `to`. */
  ghost predicate ChildrenTile(data: seq<byte>, from: nat, to: nat, limit: nat, children: seq<Element>)
    decreases |children|
  {
    if children == [] then from == to
    else ElementAt(data, from, limit, false, children[0]) && ChildrenTile(data, children[0].end, to, limit, children[1..])
  }

  lemma {:induction false} ChildAdded(data: seq<byte>, from: nat, to: nat, limit: nat, children: seq<Element>, child: Element)
    requires ChildrenTile(data, from, to, limit, children) && ElementAt(data, to, limit, false, child)
    ensures ChildrenTile(data, from, child.end, limit, children + [child])
    decreases |children|
  {
    if children == [] {
      assert [child][1..] == [];
    } else {
      ChildAdded(data, children[0].end, to, limit, children[1..], child);
      assert (children + [child])[1..] == children[1..] + [child];
    }
  }

  lemma {:induction false} TilingAdvances(data: seq<byte>, from: nat, to: nat, limit: nat, children: seq<Element>)
    requires ChildrenTile(data, from, to, limit, children)
    ensures from + |children| <= to
    decreases |children|
  {
    if children != [] {
      ElementAdvances(data, from, limit, false, children[0]);
      TilingAdvances(data, children[0].end, to, limit, children[1..]);
    }
  }

  /** A parent can be tiled in one way only. */
  lemma {:induction false} TilingIsUnique(data: seq<byte>, from: nat, to: nat, limit: nat, a: seq<Element>, b: seq<Element>)
    requires ChildrenTile(data, from, to, limit, a) && ChildrenTile(data, from, to, limit, b)
    ensures a == b
    decreases |a|
  {
    TilingAdvances(data, from, to, limit, a);
    TilingAdvances(data, from, to, limit, b);
    if a != [] && b != [] {
      ElementIsUnique(data, from, limit, false, a[0], b[0]);
      TilingIsUnique(data, a[0].end, to, limit, a[1..], b[1..]);
      assert a == [a[0]] + a[1..] && b == [b[0]] + b[1..];
    }
  }

  // ---------- Segment children ----------

  predicate IsLevelOne(id: nat) {
    id in {0x114d9b74, 0x1549a966, 0x1f43b675, 0x1654ae6b, 0x1c53bb6b, 0x1941a469, 0x1043a770, 0x1254c367}
  }

  ghost predicate IdAt(data: seq<byte>, offset: nat, limit: nat, p: nat, w: nat) {
    w <= 4 && VintAt(data, offset, p, w) && offset + w <= limit
  }

  ghost predicate LevelOneIdAt(data: seq<byte>, offset: nat, limit: nat) {
    exists p, w :: IdAt(data, offset, limit, p, w) && IsLevelOne(Capacity(w) + p)
  }

  /** The extent of a cluster of unknown size: known-size children that are not level-one elements, up to the
      next level-one ID or the end of the segment. */
  ghost predicate ClusterExtent(data: seq<byte>, start: nat, end: nat, limit: nat, children: seq<Element>)
    decreases |children|
  {
    if children == [] then start == end && (end == limit || LevelOneIdAt(data, end, limit))
    else
      && ElementAt(data, start, limit, false, children[0]) && !LevelOneIdAt(data, start, limit)
      && ClusterExtent(data, children[0].end, end, limit, children[1..])
  }

  /** The same walk while it is still going on. */
  ghost predicate InsideCluster(data: seq<byte>, start: nat, end: nat, limit: nat, children: seq<Element>)
    decreases |children|
  {
    if children == [] then start == end
    else
      && ElementAt(data, start, limit, false, children[0]) && !LevelOneIdAt(data, start, limit)
      && InsideCluster(data, children[0].end, end, limit, children[1..])
  }

  lemma {:induction false} InsideClusterAdded(data: seq<byte>, start: nat, end: nat, limit: nat, children: seq<Element>, child: Element)
    requires InsideCluster(data, start, end, limit, children)
    requires ElementAt(data, end, limit, false, child) && !LevelOneIdAt(data, end, limit)
    ensures InsideCluster(data, start, child.end, limit, children + [child])
    decreases |children|
  {
    if children == [] {
      assert [child][1..] == [];
    } else {
      InsideClusterAdded(data, children[0].end, end, limit, children[1..], child);
      assert (children + [child])[1..] == children[1..] + [child];
    }
  }

  lemma {:induction false} ClusterEnds(data: seq<byte>, start: nat, end: nat, limit: nat, children: seq<Element>)
    requires InsideCluster(data, start, end, limit, children) && (end == limit || LevelOneIdAt(data, end, limit))
    ensures ClusterExtent(data, start, end, limit, children)
    decreases |children|
  {
    if children != [] {
      ClusterEnds(data, children[0].end, end, limit, children[1..]);
    }
  }

  /** A child of the segment and how many items it takes to read it. */
  datatype Visit = Visit(element: Element, items: nat)

  /** An element of known size takes one item; a cluster of unknown size takes one more for each of its children. */
  ghost predicate SegmentElementAt(data: seq<byte>, offset: nat, limit: nat, v: Visit) {
    || (ElementAt(data, offset, limit, false, v.element) && v.items == 1)
    || exists id, idWidth, size, sizeWidth, children ::
         && OpenElement(data, offset, limit, id, idWidth, size, sizeWidth, v.element.(end := limit))
         && v.element.id == CLUSTER && ClusterExtent(data, v.element.dataOffset, v.element.end, limit, children)
         && v.items == 1 + |children|
  }

  /** An element of the segment stands here and takes no more items than are left. */
  ghost predicate SegmentElementWithin(data: seq<byte>, offset: nat, limit: nat, left: nat) {
    exists v :: SegmentElementAt(data, offset, limit, v) && v.items <= left
  }

  lemma KnownIsFound(data: seq<byte>, offset: nat, limit: nat, e: Element, left: nat)
    requires ElementAt(data, offset, limit, false, e) && left >= 1
    ensures SegmentElementAt(data, offset, limit, Visit(e, 1)) && SegmentElementWithin(data, offset, limit, left)
    ensures offset < e.dataOffset <= e.end <= limit
  {
    assert SegmentElementAt(data, offset, limit, Visit(e, 1));
    ElementAdvances(data, offset, limit, false, e);
  }

  /** A cluster that starts here ends somewhere, with no more children than items are left. */
  ghost predicate HasExtent(data: seq<byte>, start: nat, limit: nat, left: int) {
    exists end, children :: ClusterExtent(data, start, end, limit, children) && |children| <= left
  }

  /** What stands behind a header is an element of its size, or an open cluster that ends somewhere. */
  ghost predicate StandsBehind(data: seq<byte>, offset: nat, limit: nat, unknown: bool, v: Visit) {
    && v.items >= 1
    && (unknown ==> v.element.id == CLUSTER && HasExtent(data, v.element.dataOffset, limit, v.items - 1))
    && (!unknown ==> ElementAt(data, offset, limit, false, v.element))
  }

  lemma Stands(data: seq<byte>, offset: nat, limit: nat, v: Visit, unknown: bool)
    requires v.items >= 1 && (!unknown ==> ElementAt(data, offset, limit, false, v.element))
    requires unknown ==> v.element.id == CLUSTER && exists children ::
      ClusterExtent(data, v.element.dataOffset, v.element.end, limit, children) && v.items == 1 + |children|
    ensures StandsBehind(data, offset, limit, unknown, v)
  {
  }

  lemma SegmentHeader(data: seq<byte>, offset: nat, limit: nat, v: Visit) returns (id: nat, idWidth: nat, size: nat, sizeWidth: nat)
    requires SegmentElementAt(data, offset, limit, v)
    ensures HeaderAt(data, offset, limit, id, idWidth, size, sizeWidth) && v.items >= 1
    ensures v.element.id == Capacity(idWidth) + id && v.element.dataOffset == offset + idWidth + sizeWidth
    ensures !UnknownSize(size, sizeWidth) ==>
      v.element.end == v.element.dataOffset + size && v.items == 1 && ElementAt(data, offset, limit, false, v.element)
    ensures UnknownSize(size, sizeWidth) ==> v.element.id == CLUSTER && exists children ::
      ClusterExtent(data, v.element.dataOffset, v.element.end, limit, children) && v.items == 1 + |children|
  {
    if ElementAt(data, offset, limit, false, v.element) && v.items == 1 {
      id, idWidth, size, sizeWidth :| KnownElement(data, offset, limit, id, idWidth, size, sizeWidth, v.element);
    } else {
      id, idWidth, size, sizeWidth :| OpenElement(data, offset, limit, id, idWidth, size, sizeWidth, v.element.(end := limit));
    }
  }

  lemma ElementOfHeader(data: seq<byte>, offset: nat, limit: nat, id: nat, idWidth: nat, size: nat, sizeWidth: nat, v: Visit)
    requires HeaderAt(data, offset, limit, id, idWidth, size, sizeWidth) && SegmentElementAt(data, offset, limit, v)
    ensures v.element.id == Capacity(idWidth) + id && v.element.dataOffset == offset + idWidth + sizeWidth
    ensures StandsBehind(data, offset, limit, UnknownSize(size, sizeWidth), v)
  {
    var a, b, c, d := SegmentHeader(data, offset, limit, v);
    Stands(data, offset, limit, v, UnknownSize(c, d));
    HeaderIsUnique(data, offset, limit, a, b, c, d, id, idWidth, size, sizeWidth);
  }

  lemma OnlyElementsOfHeader(data: seq<byte>, offset: nat, limit: nat, id: nat, idWidth: nat, size: nat, sizeWidth: nat)
    requires HeaderAt(data, offset, limit, id, idWidth, size, sizeWidth)
    ensures forall v :: SegmentElementAt(data, offset, limit, v) ==>
      && v.element.id == Capacity(idWidth) + id && v.element.dataOffset == offset + idWidth + sizeWidth
      && StandsBehind(data, offset, limit, UnknownSize(size, sizeWidth), v)
  {
    forall v | SegmentElementAt(data, offset, limit, v)
      ensures v.element.id == Capacity(idWidth) + id && v.element.dataOffset == offset + idWidth + sizeWidth
      ensures StandsBehind(data, offset, limit, UnknownSize(size, sizeWidth), v)
    {
      ElementOfHeader(data, offset, limit, id, idWidth, size, sizeWidth, v);
    }
  }

  lemma NoKnownIsFound(data: seq<byte>, offset: nat, limit: nat, id: nat, idWidth: nat, size: nat, sizeWidth: nat, left: nat)
    requires HeaderAt(data, offset, limit, id, idWidth, size, sizeWidth) && !UnknownSize(size, sizeWidth)
    requires left == 0 || forall e :: !ElementAt(data, offset, limit, false, e)
    ensures !SegmentElementWithin(data, offset, limit, left)
  {
    OnlyElementsOfHeader(data, offset, limit, id, idWidth, size, sizeWidth);
  }

  lemma ClusterIsFound(data: seq<byte>, offset: nat, limit: nat, id: nat, idWidth: nat, size: nat, sizeWidth: nat, e: Element,
                       items: nat, left: nat)
    requires OpenElement(data, offset, limit, id, idWidth, size, sizeWidth, e.(end := limit)) && e.id == CLUSTER
    requires exists children :: ClusterExtent(data, e.dataOffset, e.end, limit, children) && items == 1 + |children|
    requires items <= left
    ensures SegmentElementAt(data, offset, limit, Visit(e, items)) && SegmentElementWithin(data, offset, limit, left)
  {
    var v := Visit(e, items);
    var children :| ClusterExtent(data, e.dataOffset, e.end, limit, children) && items == 1 + |children|;
    assert OpenElement(data, offset, limit, id, idWidth, size, sizeWidth, v.element.(end := limit));
    assert SegmentElementAt(data, offset, limit, v);
  }

  /** No cluster that stands here could be read with these items. */
  ghost predicate NoCluster(data: seq<byte>, start: nat, limit: nat, id: nat, left: nat) {
    id != CLUSTER || left == 0 || !HasExtent(data, start, limit, left - 1)
  }

  lemma MoreIsLeft(data: seq<byte>, start: nat, limit: nat, some: int, more: int)
    requires HasExtent(data, start, limit, some) && some <= more
    ensures HasExtent(data, start, limit, more)
  {
  }

  lemma ExtentTakesMore(data: seq<byte>, offset: nat, v: Visit, limit: nat, start: nat, id: nat, left: nat)
    requires StandsBehind(data, offset, limit, true, v) && v.element.dataOffset == start && v.element.id == id
    requires NoCluster(data, start, limit, id, left)
    ensures v.items > left
  {
    if v.items <= left { MoreIsLeft(data, start, limit, v.items - 1, left - 1); }
  }

  lemma NoClusterIsFound(data: seq<byte>, offset: nat, limit: nat, id: nat, idWidth: nat, size: nat, sizeWidth: nat,
                         start: nat, elementId: nat, left: nat)
    requires HeaderAt(data, offset, limit, id, idWidth, size, sizeWidth) && UnknownSize(size, sizeWidth)
    requires start == offset + idWidth + sizeWidth && elementId == Capacity(idWidth) + id
    requires NoCluster(data, start, limit, elementId, left)
    ensures !SegmentElementWithin(data, offset, limit, left)
  {
    if SegmentElementWithin(data, offset, limit, left) {
      var v :| SegmentElementAt(data, offset, limit, v) && v.items <= left;
      ElementOfHeader(data, offset, limit, id, idWidth, size, sizeWidth, v);
      ExtentTakesMore(data, offset, v, limit, start, elementId, left);
    }
  }

  lemma NoHeaderNoElement(data: seq<byte>, offset: nat, limit: nat)
    requires forall a, b, c, d :: !HeaderAt(data, offset, limit, a, b, c, d)
    ensures forall v :: !SegmentElementAt(data, offset, limit, v)
  {
    forall v ensures !SegmentElementAt(data, offset, limit, v) {
      if SegmentElementAt(data, offset, limit, v) {
        var a, b, c, d := SegmentHeader(data, offset, limit, v);
      }
    }
  }

  lemma NoIdNoChild(data: seq<byte>, offset: nat, limit: nat, id: Option<Reading>)
    requires id.None? ==> forall p: nat, w: nat :: w <= 4 ==> !VintAt(data, offset, p, w)
    requires id.Some? ==>
      && 1 <= id.value.width <= 4 && id.value.value >= Capacity(id.value.width) && offset + id.value.width > limit
      && VintAt(data, offset, id.value.value - Capacity(id.value.width), id.value.width)
    ensures !LevelOneIdAt(data, offset, limit) && forall e :: !ElementAt(data, offset, limit, false, e)
  {
    forall p: nat, w: nat | w <= 4 && VintAt(data, offset, p, w) ensures offset + w > limit {
      VintIsUnique(data, offset, p, w, id.value.value - Capacity(id.value.width), id.value.width);
    }
  }

  lemma NoChildAtLimit(data: seq<byte>, offset: nat, limit: nat)
    ensures forall e :: ElementAt(data, offset, limit, false, e) ==> offset < limit
  {
  }

  /** The extent of a cluster goes on where a walk inside it has come to. */
  lemma {:induction false} ExtentContinues(data: seq<byte>, start: nat, mid: nat, end: nat, limit: nat, part: seq<Element>, all: seq<Element>)
    requires InsideCluster(data, start, mid, limit, part) && ClusterExtent(data, start, end, limit, all)
    ensures |part| <= |all| && ClusterExtent(data, mid, end, limit, all[|part|..])
    decreases |part|
  {
    if part == [] {
      assert all[0..] == all;
    } else {
      NoChildAtLimit(data, start, limit);
      ElementIsUnique(data, start, limit, false, part[0], all[0]);
      ExtentContinues(data, part[0].end, mid, end, limit, part[1..], all[1..]);
      assert all[1..][|part| - 1..] == all[|part|..];
    }
  }

  /** Where no level-one element stands a cluster needs another child to go on. */
  lemma ExtentStops(data: seq<byte>, start: nat, mid: nat, limit: nat, part: seq<Element>)
    requires InsideCluster(data, start, mid, limit, part) && mid < limit
    requires !LevelOneIdAt(data, mid, limit)
    ensures (forall e :: !ElementAt(data, mid, limit, false, e)) ==> forall left :: !HasExtent(data, start, limit, left)
    ensures !HasExtent(data, start, limit, |part|)
  {
    forall end, children | ClusterExtent(data, start, end, limit, children)
      ensures |children| > |part| && exists e :: ElementAt(data, mid, limit, false, e)
    {
      ExtentContinues(data, start, mid, end, limit, part, children);
      assert ClusterExtent(data, mid, end, limit, children[|part|..]);
    }
  }

  lemma LevelOneDecided(data: seq<byte>, offset: nat, limit: nat, p: nat, w: nat)
    requires IdAt(data, offset, limit, p, w)
    ensures LevelOneIdAt(data, offset, limit) <==> IsLevelOne(Capacity(w) + p)
  {
    if LevelOneIdAt(data, offset, limit) {
      var p', w' :| IdAt(data, offset, limit, p', w') && IsLevelOne(Capacity(w') + p');
      VintIsUnique(data, offset, p, w, p', w');
    }
  }

  /** Looks for the end of a cluster of unknown size, one child at a time. */
  method ReadOpenCluster(data: seq<byte>, start: nat, limit: nat, budget: ItemBudget) returns (result: Option<Element>)
    requires |data| <= MAX_INT && budget.items <= MAXIMUM_ITEMS && start <= limit <= |data|
    modifies budget
    ensures old(budget.items) <= budget.items <= MAXIMUM_ITEMS
    ensures result.Some? ==> result.value.id == CLUSTER && result.value.dataOffset == start <= result.value.end <= limit
    ensures result.Some? ==> exists children ::
      ClusterExtent(data, start, result.value.end, limit, children) && budget.items == old(budget.items) + |children|
    ensures result.None? ==> !HasExtent(data, start, limit, MAXIMUM_ITEMS - old(budget.items))
  {
    var childOffset := start;
    ghost var children: seq<Element> := [];
    while childOffset < limit
      invariant start <= childOffset <= limit && budget.items == old(budget.items) + |children| <= MAXIMUM_ITEMS
      invariant InsideCluster(data, start, childOffset, limit, children)
      decreases limit - childOffset
    {
      var childId := ReadVariable(data, childOffset, 4, false);
      if childId.None? || childOffset + childId.value.width > limit {
        NoIdNoChild(data, childOffset, limit, childId);
        ExtentStops(data, start, childOffset, limit, children);
        return None;
      }
      LevelOneDecided(data, childOffset, limit, childId.value.value - Capacity(childId.value.width), childId.value.width);
      if IsLevelOne(childId.value.value) {
        ClusterEnds(data, start, childOffset, limit, children);
        return Some(Element(CLUSTER, start, childOffset));
      }
      var child := ReadElement(data, childOffset, limit, false, budget);
      if child.None? {
        ExtentStops(data, start, childOffset, limit, children);
        return None;
      }
      InsideClusterAdded(data, start, childOffset, limit, children, child.value);
      children := children + [child.value];
      childOffset := child.value.end;
    }
    ClusterEnds(data, start, limit, limit, children);
    result := Some(Element(CLUSTER, start, limit));
  }

  method ReadSegmentElement(data: seq<byte>, offset: nat, limit: nat, budget: ItemBudget) returns (result: Option<Element>)
    requires |data| <= MAX_INT && budget.items <= MAXIMUM_ITEMS && offset < limit <= |data|
    modifies budget
    ensures old(budget.items) <= budget.items <= MAXIMUM_ITEMS
    ensures result.Some? <==> SegmentElementWithin(data, offset, limit, MAXIMUM_ITEMS - old(budget.items))
    ensures result.Some? ==>
      SegmentElementAt(data, offset, limit, Visit(result.value, budget.items - old(budget.items)))
    ensures result.Some? ==> offset < result.value.dataOffset <= result.value.end <= limit
  {
    ghost var left := MAXIMUM_ITEMS - budget.items;
    var head := ReadHead(data, offset, limit);
    if head.None? {
      NoHeaderNoElement(data, offset, limit);
      return None;
    }
    var id, size := head.value.0, head.value.1;
    ghost var payload := id.value - Capacity(id.width);
    var start := offset + id.width + size.width;
    if !size.unknown {
      result := ReadElement(data, offset, limit, false, budget);
      if result.Some? {
        KnownIsFound(data, offset, limit, result.value, left);
      } else {
        NoKnownIsFound(data, offset, limit, payload, id.width, size.value, size.width, left);
      }
      return;
    }
    if id.value != CLUSTER {
      NoClusterIsFound(data, offset, limit, payload, id.width, size.value, size.width, start, id.value, left);
      return None;
    }
    var ok := budget.Consume();
    if !ok {
      NoClusterIsFound(data, offset, limit, payload, id.width, size.value, size.width, start, id.value, left);
      return None;
    }
    result := ReadOpenCluster(data, start, limit, budget);
    if result.Some? {
      assert OpenElement(data, offset, limit, payload, id.width, size.value, size.width, Element(id.value, start, limit));
      ClusterIsFound(data, offset, limit, payload, id.width, size.value, size.width, result.value, budget.items - old(budget.items), left);
    } else {
      NoClusterIsFound(data, offset, limit, payload, id.width, size.value, size.width, start, id.value, left);
    }
  }

  /** An open cluster ends in one place only. */
  lemma {:induction false} ExtentIsUnique(data: seq<byte>, start: nat, end: nat, end': nat, limit: nat, a: seq<Element>, b: seq<Element>)
    requires ClusterExtent(data, start, end, limit, a) && ClusterExtent(data, start, end', limit, b)
    ensures a == b && end == end'
    decreases |a|
  {
    if a != [] && b != [] {
      ElementIsUnique(data, start, limit, false, a[0], b[0]);
      ExtentIsUnique(data, a[0].end, end, end', limit, a[1..], b[1..]);
      assert a == [a[0]] + a[1..] && b == [b[0]] + b[1..];
    } else {
      NoChildAtLimit(data, start, limit);
    }
  }

  // ---------- A whole cluster ----------

  function UnsignedValue(data: seq<byte>, e: Element): Option<nat>
    requires e.dataOffset <= e.end <= |data|
  {
    if 1 <= e.end - e.dataOffset <= 8 then Some(BigEndian(data[e.dataOffset..e.end])) else None
  }

  /** How many children carry the identifier. */
  ghost function CountId(children: seq<Element>, id: nat): nat {
    if children == [] then 0
    else CountId(children[..|children| - 1], id) + (if children[|children| - 1].id == id then 1 else 0)
  }

  lemma CountIdAdded(children: seq<Element>, child: Element, id: nat)
    ensures CountId(children + [child], id) == CountId(children, id) + (if child.id == id then 1 else 0)
  {
    assert (children + [child])[..|children|] == children;
  }

  ghost predicate IsTime(data: seq<byte>, child: Element, time: nat) {
    child.id == TIMECODE && child.dataOffset <= child.end <= |data| && UnsignedValue(data, child) == Some(time)
  }

  ghost predicate TimeAmong(data: seq<byte>, children: seq<Element>, time: nat) {
    exists k :: 0 <= k < |children| && IsTime(data, children[k], time)
  }

  /** The children tile the cluster, one of them is a time code, and this is its value. */
  ghost predicate HasTime(data: seq<byte>, cluster: Element, children: seq<Element>, time: nat)
    requires cluster.end <= |data|
  {
    && ChildrenTile(data, cluster.dataOffset, cluster.end, cluster.end, children) && CountId(children, TIMECODE) == 1
    && TimeAmong(data, children, time)
  }

  /** Any tiling of the cluster begins with the children seen so far. */
  lemma {:induction false} TilingContinues(data: seq<byte>, from: nat, mid: nat, limit: nat, part: seq<Element>, all: seq<Element>)
    requires ChildrenTile(data, from, mid, limit, part) && ChildrenTile(data, from, limit, limit, all) && mid <= limit
    ensures part <= all && ChildrenTile(data, mid, limit, limit, all[|part|..])
    decreases |part|
  {
    if part == [] {
      assert all[0..] == all;
    } else {
      TilingAdvances(data, from, mid, limit, part);
      ElementIsUnique(data, from, limit, false, part[0], all[0]);
      TilingContinues(data, part[0].end, mid, limit, part[1..], all[1..]);
      assert part == [part[0]] + part[1..] && all == [all[0]] + all[1..];
      assert all[1..][|part| - 1..] == all[|part|..];
    }
  }

  lemma {:induction false} CountIdPrefix(part: seq<Element>, all: seq<Element>, id: nat)
    requires part <= all
    ensures CountId(part, id) <= CountId(all, id)
    decreases |all|
  {
    if |part| == |all| {
      assert part == all;
    } else {
      CountIdPrefix(part, all[..|all| - 1], id);
    }
  }

  lemma {:induction false} IdIsCounted(children: seq<Element>, id: nat, i: nat)
    requires i < |children| && children[i].id == id
    ensures CountId(children, id) >= 1
    decreases |children|
  {
    if i < |children| - 1 { IdIsCounted(children[..|children| - 1], id, i); }
  }

  /** The one child with the identifier. */
  lemma {:induction false} OneOfId(children: seq<Element>, id: nat, i: nat, j: nat)
    requires CountId(children, id) <= 1 && i < |children| && j < |children| && children[i].id == id && children[j].id == id
    ensures i == j
    decreases |children|
  {
    var n := |children| - 1;
    if i < n && j < n {
      OneOfId(children[..n], id, i, j);
    } else if i < n {
      IdIsCounted(children[..n], id, i);
    } else if j < n {
      IdIsCounted(children[..n], id, j);
    }
  }

  lemma NoChildNoTime(data: seq<byte>, cluster: Element, offset: nat, children: seq<Element>)
    requires cluster.dataOffset <= offset < cluster.end <= |data|
    requires ChildrenTile(data, cluster.dataOffset, offset, cluster.end, children)
    requires forall e :: !ElementAt(data, offset, cluster.end, false, e)
    ensures forall all, time :: !HasTime(data, cluster, all, time)
  {
    forall all, time ensures !HasTime(data, cluster, all, time) {
      if HasTime(data, cluster, all, time) {
        TilingContinues(data, cluster.dataOffset, offset, cluster.end, children, all);
      }
    }
  }

  lemma TwoTimesNoTime(data: seq<byte>, cluster: Element, offset: nat, children: seq<Element>)
    requires cluster.dataOffset <= offset <= cluster.end <= |data|
    requires ChildrenTile(data, cluster.dataOffset, offset, cluster.end, children) && CountId(children, TIMECODE) > 1
    ensures forall all, time :: !HasTime(data, cluster, all, time)
  {
    forall all, time ensures !HasTime(data, cluster, all, time) {
      if HasTime(data, cluster, all, time) {
        TilingContinues(data, cluster.dataOffset, offset, cluster.end, children, all);
        CountIdPrefix(children, all, TIMECODE);
      }
    }
  }

  lemma BadTimeNoTime(data: seq<byte>, cluster: Element, offset: nat, children: seq<Element>, k: nat)
    requires cluster.dataOffset <= offset <= cluster.end <= |data| && k < |children|
    requires ChildrenTile(data, cluster.dataOffset, offset, cluster.end, children)
    requires children[k].id == TIMECODE && forall time :: !IsTime(data, children[k], time)
    ensures forall all, time :: !HasTime(data, cluster, all, time)
  {
    forall all, time ensures !HasTime(data, cluster, all, time) {
      if HasTime(data, cluster, all, time) {
        TilingContinues(data, cluster.dataOffset, offset, cluster.end, children, all);
        var j :| 0 <= j < |all| && IsTime(data, all[j], time);
        OneOfId(all, TIMECODE, k, j);
      }
    }
  }

  lemma NoTimeAtAll(data: seq<byte>, cluster: Element, children: seq<Element>)
    requires cluster.dataOffset <= cluster.end <= |data| && CountId(children, TIMECODE) == 0
    requires ChildrenTile(data, cluster.dataOffset, cluster.end, cluster.end, children)
    ensures forall all, time :: !HasTime(data, cluster, all, time)
  {
    forall all, time ensures !HasTime(data, cluster, all, time) {
      if HasTime(data, cluster, all, time) {
        TilingIsUnique(data, cluster.dataOffset, cluster.end, cluster.end, children, all);
      }
    }
  }

  lemma TimeStays(data: seq<byte>, children: seq<Element>, child: Element, time: nat)
    ensures TimeAmong(data, children, time) ==> TimeAmong(data, children + [child], time)
    ensures IsTime(data, child, time) ==> TimeAmong(data, children + [child], time)
  {
    var all := children + [child];
    assert all[|children|] == child;
    if TimeAmong(data, children, time) {
      var k :| 0 <= k < |children| && IsTime(data, children[k], time);
      assert IsTime(data, all[k], time);
    }
  }

  /** The cluster has its time code and no more children than items are left. */
  ghost predicate HasTimeWithin(data: seq<byte>, cluster: Element, left: int)
    requires cluster.end <= |data|
  {
    exists children, time :: HasTime(data, cluster, children, time) && |children| <= left
  }

  /** A cluster that goes on has more children than were seen so far. */
  lemma MoreChildrenToCome(data: seq<byte>, cluster: Element, offset: nat, children: seq<Element>)
    requires cluster.dataOffset <= offset < cluster.end <= |data|
    requires ChildrenTile(data, cluster.dataOffset, offset, cluster.end, children)
    ensures !HasTimeWithin(data, cluster, |children|)
  {
    forall all, time | HasTime(data, cluster, all, time) ensures |all| > |children| {
      TilingContinues(data, cluster.dataOffset, offset, cluster.end, children, all);
    }
  }

  /** The value of the cluster's one time code, every child of the cluster having been visited. */
  method ClusterTime(data: seq<byte>, cluster: Element, budget: ItemBudget) returns (result: Option<nat>, ghost children: seq<Element>)
    requires |data| <= MAX_INT && budget.items <= MAXIMUM_ITEMS && cluster.dataOffset <= cluster.end <= |data|
    modifies budget
    ensures budget.items <= MAXIMUM_ITEMS
    ensures result.Some? ==> HasTime(data, cluster, children, result.value) && budget.items == old(budget.items) + |children|
    ensures result.None? ==> !HasTimeWithin(data, cluster, MAXIMUM_ITEMS - old(budget.items))
  {
    var offset := cluster.dataOffset;
    result, children := None, [];
    while offset < cluster.end
      invariant cluster.dataOffset <= offset <= cluster.end
      invariant budget.items == old(budget.items) + |children| <= MAXIMUM_ITEMS
      invariant ChildrenTile(data, cluster.dataOffset, offset, cluster.end, children)
      invariant CountId(children, TIMECODE) == if result.Some? then 1 else 0
      invariant result.Some? ==> TimeAmong(data, children, result.value)
      decreases cluster.end - offset
    {
      ghost var before := budget.items;
      var child := ReadElement(data, offset, cluster.end, false, budget);
      if child.None? {
        MoreChildrenToCome(data, cluster, offset, children);
        if before < MAXIMUM_ITEMS { NoChildNoTime(data, cluster, offset, children); }
        return None, children;
      }
      ElementAdvances(data, offset, cluster.end, false, child.value);
      ChildAdded(data, cluster.dataOffset, offset, cluster.end, children, child.value);
      CountIdAdded(children, child.value, TIMECODE);
      if result.Some? { TimeStays(data, children, child.value, result.value); }
      children := children + [child.value];
      offset := child.value.end;
      if child.value.id == TIMECODE {
        if result.Some? {
          TwoTimesNoTime(data, cluster, offset, children);
          return None, children;
        }
        result := UnsignedValue(data, child.value);
        if result.None? {
          BadTimeNoTime(data, cluster, offset, children, |children| - 1);
          return;
        }
        TimeStays(data, children[..|children| - 1], child.value, result.value);
      }
    }
    if result.None? { NoTimeAtAll(data, cluster, children); }
  }

  // ---------- A whole segment ----------

  ghost predicate SegmentTiled(data: seq<byte>, from: nat, to: nat, limit: nat, visits: seq<Visit>)
    decreases |visits|
  {
    if visits == [] then from == to
    else SegmentElementAt(data, from, limit, visits[0]) && SegmentTiled(data, visits[0].element.end, to, limit, visits[1..])
  }

  ghost function TotalItems(visits: seq<Visit>): nat {
    if visits == [] then 0 else TotalItems(visits[..|visits| - 1]) + visits[|visits| - 1].items
  }

  ghost predicate WalksSegment(data: seq<byte>, segment: Element, visits: seq<Visit>, left: int) {
    SegmentTiled(data, segment.dataOffset, segment.end, segment.end, visits) && TotalItems(visits) <= left
  }

  ghost predicate CanWalkSegment(data: seq<byte>, segment: Element, left: int) {
    exists visits :: WalksSegment(data, segment, visits, left)
  }

  lemma {:induction false} SegmentChildAdded(data: seq<byte>, from: nat, to: nat, limit: nat, visits: seq<Visit>, v: Visit)
    requires SegmentTiled(data, from, to, limit, visits) && SegmentElementAt(data, to, limit, v)
    ensures SegmentTiled(data, from, v.element.end, limit, visits + [v])
    decreases |visits|
  {
    if visits == [] {
      assert [v][1..] == [];
    } else {
      SegmentChildAdded(data, visits[0].element.end, to, limit, visits[1..], v);
      assert (visits + [v])[1..] == visits[1..] + [v];
    }
  }

  lemma ItemsAdded(visits: seq<Visit>, v: Visit)
    ensures TotalItems(visits + [v]) == TotalItems(visits) + v.items
  {
    assert (visits + [v])[..|visits|] == visits;
  }

  lemma {:induction false} ItemsOfPart(part: seq<Visit>, all: seq<Visit>)
    requires part <= all
    ensures TotalItems(part) <= TotalItems(all)
    ensures |part| < |all| ==> TotalItems(part) + all[|part|].items <= TotalItems(all)
    decreases |all|
  {
    if |part| < |all| {
      ItemsOfPart(part, all[..|all| - 1]);
    } else {
      assert part == all;
    }
  }

  lemma SameHead(part: seq<Visit>, all: seq<Visit>)
    requires part != [] && all != [] && part[0] == all[0] && part[1..] <= all[1..]
    ensures part <= all && all[1..][|part| - 1..] == all[|part|..]
  {
    assert part == [part[0]] + part[1..] && all == [all[0]] + all[1..];
  }

  lemma {:induction false} ExtentAdvances(data: seq<byte>, start: nat, end: nat, limit: nat, children: seq<Element>)
    requires ClusterExtent(data, start, end, limit, children)
    ensures start <= end
    decreases |children|
  {
    if children != [] {
      ElementAdvances(data, start, limit, false, children[0]);
      ExtentAdvances(data, children[0].end, end, limit, children[1..]);
    }
  }

  lemma SegmentElementAdvances(data: seq<byte>, offset: nat, limit: nat, v: Visit)
    requires SegmentElementAt(data, offset, limit, v)
    ensures offset < v.element.dataOffset <= v.element.end
  {
    var a, b, c, d := SegmentHeader(data, offset, limit, v);
    if UnknownSize(c, d) {
      var children :| ClusterExtent(data, v.element.dataOffset, v.element.end, limit, children);
      ExtentAdvances(data, v.element.dataOffset, v.element.end, limit, children);
    }
  }

  lemma {:induction false} SegmentTilingAdvances(data: seq<byte>, from: nat, to: nat, limit: nat, visits: seq<Visit>)
    requires SegmentTiled(data, from, to, limit, visits)
    ensures from <= to && (visits != [] ==> from < to)
    decreases |visits|
  {
    if visits != [] {
      SegmentElementAdvances(data, from, limit, visits[0]);
      SegmentTilingAdvances(data, visits[0].element.end, to, limit, visits[1..]);
    }
  }

  lemma SegmentElementIsUnique(data: seq<byte>, offset: nat, limit: nat, v: Visit, u: Visit)
    requires SegmentElementAt(data, offset, limit, v) && SegmentElementAt(data, offset, limit, u)
    ensures v == u
  {
    var a, b, c, d := SegmentHeader(data, offset, limit, v);
    var a', b', c', d' := SegmentHeader(data, offset, limit, u);
    HeaderIsUnique(data, offset, limit, a, b, c, d, a', b', c', d');
    if UnknownSize(c, d) {
      var m :| ClusterExtent(data, v.element.dataOffset, v.element.end, limit, m) && v.items == 1 + |m|;
      var n :| ClusterExtent(data, u.element.dataOffset, u.element.end, limit, n) && u.items == 1 + |n|;
      ExtentIsUnique(data, v.element.dataOffset, v.element.end, u.element.end, limit, m, n);
    }
  }

  lemma {:induction false} SegmentContinues(data: seq<byte>, from: nat, mid: nat, limit: nat, part: seq<Visit>, all: seq<Visit>)
    requires SegmentTiled(data, from, mid, limit, part) && SegmentTiled(data, from, limit, limit, all) && mid <= limit
    ensures part <= all && SegmentTiled(data, mid, limit, limit, all[|part|..])
    decreases |part|
  {
    if part == [] {
      assert all[0..] == all;
    } else {
      SegmentTilingAdvances(data, from, mid, limit, part);
      SegmentElementIsUnique(data, from, limit, part[0], all[0]);
      SegmentContinues(data, part[0].element.end, mid, limit, part[1..], all[1..]);
      SameHead(part, all);
    }
  }

  /** A walk that comes to a halt halfway says that no walk reaches the end with the items there are. */
  lemma SegmentStops(data: seq<byte>, segment: Element, mid: nat, part: seq<Visit>, left: nat)
    requires SegmentTiled(data, segment.dataOffset, mid, segment.end, part) && mid < segment.end && TotalItems(part) <= left
    requires !SegmentElementWithin(data, mid, segment.end, left - TotalItems(part))
    ensures !CanWalkSegment(data, segment, left)
  {
    forall all ensures !WalksSegment(data, segment, all, left) {
      if WalksSegment(data, segment, all, left) {
        SegmentContinues(data, segment.dataOffset, mid, segment.end, part, all);
        assert SegmentElementAt(data, mid, segment.end, all[|part|..][0]);
        ItemsOfPart(part, all);
      }
    }
  }

  /** One step of the walk; `left` is what there was to spend when it began. */
  method VisitChild(data: seq<byte>, segment: Element, offset: nat, ghost visits: seq<Visit>, budget: ItemBudget, ghost left: nat)
    returns (v: Option<Visit>)
    requires |data| <= MAX_INT && offset < segment.end <= |data|
    requires budget.items <= MAXIMUM_ITEMS && TotalItems(visits) <= left && MAXIMUM_ITEMS - budget.items == left - TotalItems(visits)
    requires SegmentTiled(data, segment.dataOffset, offset, segment.end, visits)
    modifies budget
    ensures old(budget.items) <= budget.items <= MAXIMUM_ITEMS
    ensures v.None? ==> !CanWalkSegment(data, segment, left)
    ensures v.Some? ==> offset < v.value.element.end <= segment.end && budget.items == old(budget.items) + v.value.items
    ensures v.Some? ==> SegmentTiled(data, segment.dataOffset, v.value.element.end, segment.end, visits + [v.value])
    ensures v.Some? ==> TotalItems(visits + [v.value]) == TotalItems(visits) + v.value.items
  {
    var before := budget.items;
    var element := ReadSegmentElement(data, offset, segment.end, budget);
    if element.None? {
      SegmentStops(data, segment, offset, visits, left);
      return None;
    }
    v := Some(Visit(element.value, budget.items - before));
    SegmentChildAdded(data, segment.dataOffset, offset, segment.end, visits, v.value);
    ItemsAdded(visits, v.value);
  }

  /** The walk over the segment: each step reads one child and goes on behind it. It reaches the end exactly when the
      children tile the segment and all of them together take no more items than are left. */
  method SegmentWalk(data: seq<byte>, segment: Element, budget: ItemBudget) returns (result: Option<seq<Visit>>)
    requires |data| <= MAX_INT && budget.items <= MAXIMUM_ITEMS && segment.dataOffset <= segment.end <= |data|
    modifies budget
    ensures old(budget.items) <= budget.items <= MAXIMUM_ITEMS
    ensures result.Some? <==> CanWalkSegment(data, segment, MAXIMUM_ITEMS - old(budget.items))
    ensures result.Some? ==> WalksSegment(data, segment, result.value, MAXIMUM_ITEMS - old(budget.items))
    ensures result.Some? ==> budget.items == old(budget.items) + TotalItems(result.value)
  {
    var offset := segment.dataOffset;
    var visits: seq<Visit> := [];
    while offset < segment.end
      invariant offset <= segment.end && budget.items == old(budget.items) + TotalItems(visits) <= MAXIMUM_ITEMS
      invariant SegmentTiled(data, segment.dataOffset, offset, segment.end, visits)
      decreases segment.end - offset
    {
      var v := VisitChild(data, segment, offset, visits, budget, MAXIMUM_ITEMS - old(budget.items));
      if v.None? {
        return None;
      }
      visits := visits + [v.value];
      offset := v.value.element.end;
    }
    assert WalksSegment(data, segment, visits, MAXIMUM_ITEMS - old(budget.items));
    result := Some(visits);
  }

  /** Two walks over a segment see the same children and take as many items. */
  lemma {:induction false} SegmentTilingIsUnique(data: seq<byte>, from: nat, limit: nat, a: seq<Visit>, b: seq<Visit>)
    requires SegmentTiled(data, from, limit, limit, a) && SegmentTiled(data, from, limit, limit, b)
    ensures a == b
    decreases |a|
  {
    if a != [] && b != [] {
      SegmentElementIsUnique(data, from, limit, a[0], b[0]);
      SegmentTilingIsUnique(data, a[0].element.end, limit, a[1..], b[1..]);
      assert a == [a[0]] + a[1..] && b == [b[0]] + b[1..];
    }
  }
}
