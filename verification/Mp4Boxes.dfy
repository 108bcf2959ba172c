/** Walking MP4 boxes (section 4.2 of ISO/IEC 14496-12): they tile their parent. */
module Mp4Boxes {
  import opened Options
  import opened Bytes
  import opened ItemBudgets

  datatype Box = Box(kind: seq<byte>, dataOffset: nat, end: nat)

  /** The 32-bit size field; 1 announces a 64-bit size, 0 means up to the end of the parent. */
  function RawSize(data: seq<byte>, offset: nat): nat
    requires offset + 4 <= |data|
  {
    BigEndian(data[offset..offset + 4])
  }

  /** Size and header length of the box that starts at `offset`, when its header fits. */
  function Extent(data: seq<byte>, offset: nat, limit: nat): Option<(nat, nat)>
    requires limit <= |data|
  {
    if offset + 8 > limit then None
    else if RawSize(data, offset) == 1 then
      if offset + 16 > limit then None else Some((BigEndian(data[offset + 8..offset + 16]), 16))
    else if RawSize(data, offset) == 0 then Some((limit - offset, 8))
    else Some((RawSize(data, offset), 8))
  }

  /** The box that starts at `offset` inside a parent that ends at `limit`. */
  ghost predicate BoxAt(data: seq<byte>, offset: nat, limit: nat, box: Box) {
    && limit <= |data| && Extent(data, offset, limit).Some?
    && var (size, header) := Extent(data, offset, limit).value;
       header <= size && offset + size <= limit
       && box == Box(data[offset + 4..offset + 8], offset + header, offset + size)
  }

  lemma BoxAdvances(data: seq<byte>, offset: nat, limit: nat, box: Box)
    requires BoxAt(data, offset, limit, box)
    ensures offset + 8 <= box.dataOffset <= box.end <= limit
  {
  }

  /** The boxes follow one another from `offset` to `to` without a gap. */
  ghost predicate Tiles(data: seq<byte>, offset: nat, to: nat, limit: nat, boxes: seq<Box>)
    decreases |boxes|
  {
    if boxes == [] then offset == to
    else BoxAt(data, offset, limit, boxes[0]) && Tiles(data, boxes[0].end, to, limit, boxes[1..])
  }

  lemma {:induction false} TilesAppend(data: seq<byte>, offset: nat, to: nat, limit: nat, boxes: seq<Box>, box: Box)
    requires Tiles(data, offset, to, limit, boxes) && BoxAt(data, to, limit, box)
    ensures Tiles(data, offset, box.end, limit, boxes + [box])
    decreases |boxes|
  {
    if boxes == [] {
      assert ([] + [box])[1..] == [];
    } else {
      TilesAppend(data, boxes[0].end, to, limit, boxes[1..], box);
      assert (boxes + [box])[1..] == boxes[1..] + [box];
    }
  }

  lemma {:induction false} TilesForward(data: seq<byte>, offset: nat, to: nat, limit: nat, boxes: seq<Box>)
    requires Tiles(data, offset, to, limit, boxes)
    ensures offset <= to && (boxes != [] ==> offset < to <= limit)
    decreases |boxes|
  {
    if boxes != [] {
      BoxAdvances(data, offset, limit, boxes[0]);
      TilesForward(data, boxes[0].end, to, limit, boxes[1..]);
    }
  }

  /** A tiling of the whole parent begins with any tiling of its beginning, so there is at most one. */
  lemma {:induction false} TilingContinues(data: seq<byte>, offset: nat, to: nat, limit: nat, part: seq<Box>, all: seq<Box>)
    requires Tiles(data, offset, to, limit, part) && Tiles(data, offset, limit, limit, all) && to <= limit
    ensures part <= all && Tiles(data, to, limit, limit, all[|part|..])
    decreases |part|
  {
    if part == [] {
      assert all[0..] == all;
    } else {
      TilesForward(data, part[0].end, to, limit, part[1..]);
      BoxAdvances(data, offset, limit, part[0]);
      assert all != [];
      TilingContinues(data, part[0].end, to, limit, part[1..], all[1..]);
      assert part == [part[0]] + part[1..] && all == [all[0]] + all[1..];
      assert all[1..][|part| - 1..] == all[|part|..];
    }
  }

  lemma TilingIsUnique(data: seq<byte>, offset: nat, limit: nat, a: seq<Box>, b: seq<Box>)
    requires Tiles(data, offset, limit, limit, a) && Tiles(data, offset, limit, limit, b)
    ensures a == b
  {
    TilingContinues(data, offset, limit, limit, a, b);
    TilingContinues(data, offset, limit, limit, b, a);
  }

  /** The `k`-th box, header included, takes this octet. */
  ghost predicate Inside(data: seq<byte>, offset: nat, boxes: seq<Box>, k: nat, at: nat)
    requires k < |boxes|
  {
    (if k == 0 then offset else boxes[k - 1].end) <= at < boxes[k].end
  }

  /** Every octet of the range belongs to a box. */
  lemma {:induction false} EveryOctetIsInABox(data: seq<byte>, offset: nat, to: nat, limit: nat, boxes: seq<Box>, at: nat)
    requires Tiles(data, offset, to, limit, boxes) && offset <= at < to
    ensures exists k: nat :: k < |boxes| && Inside(data, offset, boxes, k, at)
    decreases |boxes|
  {
    if at < boxes[0].end {
      assert Inside(data, offset, boxes, 0, at);
    } else {
      EveryOctetIsInABox(data, boxes[0].end, to, limit, boxes[1..], at);
      var k: nat :| k < |boxes| - 1 && Inside(data, boxes[0].end, boxes[1..], k, at);
      assert Inside(data, offset, boxes, k + 1, at);
    }
  }

  // ---------- The walk ----------

  ghost predicate Walks(data: seq<byte>, start: int, end: int, left: int, boxes: seq<Box>) {
    0 <= start <= end <= |data| && Tiles(data, start, end, end, boxes) && |boxes| <= left
  }

  ghost predicate Walkable(data: seq<byte>, start: int, end: int, left: int) {
    exists boxes :: Walks(data, start, end, left, boxes)
  }

  method ReadBox(data: seq<byte>, offset: nat, limit: nat) returns (result: Option<Box>)
    requires offset < limit <= |data| <= MAX_INT
    ensures result.Some? ==> BoxAt(data, offset, limit, result.value)
    ensures result.None? ==> forall box :: !BoxAt(data, offset, limit, box)
  {
    var extent := Extent(data, offset, limit);
    if extent.None? {
      return None;
    }
    var size, header := extent.value.0, extent.value.1;
    if size > MAX_INT || size < header || size > limit - offset {
      return None;
    }
    result := Some(Box(data[offset + 4..offset + 8], offset + header, offset + size));
  }

  lemma NoneLeft(data: seq<byte>, start: nat, offset: nat, end: nat, boxes: seq<Box>)
    requires offset < end && Tiles(data, start, offset, end, boxes)
    ensures forall all :: Tiles(data, start, end, end, all) ==> |all| > |boxes|
  {
    forall all | Tiles(data, start, end, end, all) ensures |all| > |boxes| {
      TilingContinues(data, start, offset, end, boxes, all);
    }
  }

  lemma NoBox(data: seq<byte>, start: nat, offset: nat, end: nat, boxes: seq<Box>)
    requires offset < end && Tiles(data, start, offset, end, boxes) && forall box :: !BoxAt(data, offset, end, box)
    ensures forall all :: !Tiles(data, start, end, end, all)
  {
    forall all ensures !Tiles(data, start, end, end, all) {
      if Tiles(data, start, end, end, all) { TilingContinues(data, start, offset, end, boxes, all); }
    }
  }

  /** The boxes between `start` and `end`; nothing when they do not tile the range or the budget does not suffice. */
  method ReadBoxes(data: seq<byte>, start: int, end: int, budget: ItemBudget) returns (result: Option<seq<Box>>)
    requires |data| <= MAX_INT && budget.items <= MAXIMUM_ITEMS
    modifies budget
    ensures old(budget.items) <= budget.items <= MAXIMUM_ITEMS
    ensures result.Some? ==> Walks(data, start, end, MAXIMUM_ITEMS - old(budget.items), result.value)
    ensures result.Some? ==> budget.items == old(budget.items) + |result.value|
    ensures result.Some? <==> Walkable(data, start, end, MAXIMUM_ITEMS - old(budget.items))
  {
    if start < 0 || end > |data| || start > end {
      return None;
    }
    var boxes: seq<Box> := [];
    var offset: nat := start;
    while offset < end
      invariant start <= offset <= end && Tiles(data, start, offset, end, boxes)
      invariant budget.items == old(budget.items) + |boxes| <= MAXIMUM_ITEMS
      decreases end - offset
    {
      var ok := budget.Consume();
      if !ok {
        NoneLeft(data, start, offset, end, boxes);
        return None;
      }
      var box := ReadBox(data, offset, end);
      if box.None? {
        NoBox(data, start, offset, end, boxes);
        return None;
      }
      TilesAppend(data, start, offset, end, boxes, box.value);
      BoxAdvances(data, offset, end, box.value);
      boxes, offset := boxes + [box.value], box.value.end;
    }
    assert Walks(data, start, end, MAXIMUM_ITEMS - old(budget.items), boxes);
    result := Some(boxes);
  }

  // ---------- Written boxes are read ----------

  ghost function EncodedBox(kind: seq<byte>, payload: seq<byte>): seq<byte> {
    BigEndianBytes(8 + |payload|, 4) + kind + payload
  }

  /** A box written with a 32-bit size is read where it stands, whatever comes before and after. */
  lemma EncodedBoxIsRead(before: seq<byte>, kind: seq<byte>, payload: seq<byte>, after: seq<byte>)
    requires |kind| == 4 && 8 + |payload| < Pow256(4)
    ensures var data := before + EncodedBox(kind, payload) + after;
            var box := Box(kind, |before| + 8, |before| + 8 + |payload|);
            BoxAt(data, |before|, |data|, box) && data[box.dataOffset..box.end] == payload
  {
    var data := before + EncodedBox(kind, payload) + after;
    var o := |before|;
    assert data[o..o + 4] == BigEndianBytes(8 + |payload|, 4);
    BigEndianInverts(8 + |payload|, 4);
    assert data[o + 4..o + 8] == kind;
    assert data[o + 8..o + 8 + |payload|] == payload;
  }
}
