/** The block splitter: which payloads are accepted, and as which frames. */
module LacingSplit {
  import opened Options
  import opened Arithmetic
  import opened Bytes
  import opened Vint
  import opened Lacing

  /** How many sizes the reader takes from the table: all but the last, but with EBML lacing at least one. */
  function FieldCount(lacing: int, frames: nat): nat
    requires frames >= 1
  {
    if lacing == EBML && frames == 1 then 1 else frames - 1
  }

  /** The payload is the frame count less one, the size table and the frames end to end. */
  ghost predicate IsTabled(payload: seq<byte>, lacing: int, frames: seq<seq<byte>>, fields: seq<nat>, widths: seq<nat>) {
    && 1 <= |frames| <= 256 && Nonempty(frames)
    && |fields| == FieldCount(lacing, |frames|) && AllEncodable(lacing, fields, widths)
    && (|frames| > 1 ==> fields == Sizes(frames)[..|frames| - 1])
    && payload == [|frames| - 1] + (Table(lacing, fields, widths) + Concat(frames))
  }

  ghost predicate IsLaced(payload: seq<byte>, lacing: int, frames: seq<seq<byte>>) {
    if lacing == NO_LACING then payload != [] && frames == [payload]
    else if lacing == FIXED then
      && 1 <= |frames| <= 256 && Nonempty(frames)
      && (forall k :: 0 <= k < |frames| ==> |frames[k]| == |frames[0]|)
      && payload == [|frames| - 1] + Concat(frames)
    else exists fields, widths :: IsTabled(payload, lacing, frames, fields, widths)
  }

  // ---------- Reading the tables ----------

  /** `payload` encodes a size exactly when `rest` encodes what `size` leaves of it. */
  ghost predicate SameSizes(payload: seq<byte>, size: nat, rest: seq<byte>) {
    && (forall n: nat, tail :: rest == XiphSize(n) + tail ==> payload == XiphSize(size + n) + tail)
    && (forall n: nat, tail :: payload == XiphSize(n) + tail ==> n >= size && rest == XiphSize(n - size) + tail)
  }

  lemma NothingLeft(payload: seq<byte>, size: nat)
    requires SameSizes(payload, size, [])
    ensures forall n: nat, tail :: payload != XiphSize(n) + tail
  {
    forall n: nat, tail: seq<byte> ensures XiphSize(n) + tail != [] {
      assert |XiphSize(n) + tail| >= 1;
    }
    forall n: nat, tail: seq<byte> ensures payload != XiphSize(n) + tail {
      assert n < size || XiphSize(n - size) + tail != [];
    }
  }

  lemma XiphShorter(n: nat, tail: seq<byte>, before: seq<byte>, rest: seq<byte>)
    requires before == XiphSize(n) + tail && before[0] == 255 && before[1..] == rest
    ensures n >= 255 && rest == XiphSize(n - 255) + tail
  {
    assert (XiphSize(n) + tail)[0] == XiphSize(n)[0];
    assert (XiphSize(n) + tail)[1..] == XiphSize(n)[1..] + tail;
  }

  lemma SkipFullOctet(payload: seq<byte>, size: nat, before: seq<byte>, rest: seq<byte>)
    requires SameSizes(payload, size, before) && before != [] && before[0] == 255 && before[1..] == rest
    ensures SameSizes(payload, size + 255, rest)
  {
    forall n: nat, tail | rest == XiphSize(n) + tail ensures payload == XiphSize(size + 255 + n) + tail {
      assert before == [255] + rest;
      Regroup([255], XiphSize(n), tail);
      assert before == XiphSize(n + 255) + tail;
      assert size + (n + 255) == size + 255 + n;
    }
    forall n: nat, tail | payload == XiphSize(n) + tail
      ensures n >= size + 255 && rest == XiphSize(n - (size + 255)) + tail
    {
      XiphShorter(n - size, tail, before, rest);
    }
  }

  /** Adds up 255s until a smaller octet ends the size. */
  method ReadXiphSize(payload: seq<byte>) returns (result: Option<(nat, seq<byte>)>)
    ensures result.Some? ==> payload == XiphSize(result.value.0) + result.value.1
    ensures result.None? ==> forall n: nat, tail :: payload != XiphSize(n) + tail
  {
    var rest: seq<byte> := payload;
    var size: nat := 0;
    while true
      invariant SameSizes(payload, size, rest)
      decreases |rest|
    {
      if rest == [] {
        NothingLeft(payload, size);
        return None;
      }
      var value: nat := rest[0];
      ghost var before := rest;
      rest := rest[1..];
      if value != 255 {
        assert before == XiphSize(value) + rest;
        return Some((size + value, rest));
      }
      SkipFullOctet(payload, size, before, rest);
      size := size + value;
    }
  }

  /** A size written as a signed difference from the previous one. */
  ghost predicate SignedSizeAt(payload: seq<byte>, previous: nat, size: nat, width: nat) {
    && 1 <= width <= 8 && 0 <= size - previous + Bias(width) < Capacity(width)
    && VintAt(payload, 0, size - previous + Bias(width), width)
  }

  ghost predicate NoSignedSize(payload: seq<byte>, previous: nat) {
    forall size: nat, width: nat :: SignedSizeAt(payload, previous, size, width) ==> size > MAX_INT
  }

  /** Applies a signed difference to the previous size. */
  method ReadSignedSize(payload: seq<byte>, previous: nat) returns (result: Option<(nat, nat)>)
    requires previous <= MAX_INT
    ensures result.Some? ==> result.value.0 <= MAX_INT && SignedSizeAt(payload, previous, result.value.0, result.value.1)
    ensures result.None? ==> NoSignedSize(payload, previous)
  {
    var reading := ReadVariable(payload, 0, 8, true);
    if reading.None? {
      return None;
    }
    var encoded, width := reading.value.value, reading.value.width;
    var bias := Bias(width);
    forall s: nat, w: nat | SignedSizeAt(payload, previous, s, w) ensures s == previous + encoded - bias && w == width {
      VintIsUnique(payload, 0, s - previous + Bias(w), w, encoded, width);
    }
    var size;
    if encoded >= bias {
      var increase := encoded - bias;
      if increase > MAX_INT - previous {
        return None;
      }
      size := previous + increase;
    } else {
      var decrease := bias - encoded;
      if decrease > previous {
        return None;
      }
      size := previous - decrease;
    }
    result := Some((size, width));
  }

  /** The payload starts with these size fields and goes on with `rest`. */
  ghost predicate StartsWithTable(payload: seq<byte>, lacing: int, fields: seq<nat>, widths: seq<nat>, rest: seq<byte>) {
    AllEncodable(lacing, fields, widths) && payload == Table(lacing, fields, widths) + rest
  }

  ghost predicate NoTable(payload: seq<byte>, lacing: int, count: nat) {
    forall fields, widths, rest :: |fields| == count && (forall s :: s in fields ==> s <= MAX_INT) ==>
      !StartsWithTable(payload, lacing, fields, widths, rest)
  }

  lemma FieldIsReadable(rest: seq<byte>, fields: seq<nat>, widths: seq<nat>, k: nat, after: seq<byte>)
    requires k < |fields| == |widths| && Encodable(EBML, fields, widths, k)
    requires rest == Field(EBML, fields, widths, k) + after
    ensures widths[k] <= 8 && VintAt(rest, 0, FieldPayload(fields, widths, k), widths[k])
    ensures k > 0 ==> SignedSizeAt(rest, fields[k - 1], fields[k], widths[k])
  {
    VintStandsAtItsStart(FieldPayload(fields, widths, k), widths[k], [], after);
    assert [] + Field(EBML, fields, widths, k) + after == rest;
  }

  lemma StuckTable(payload: seq<byte>, lacing: int, count: nat, fields: seq<nat>, widths: seq<nat>, rest: seq<byte>)
    requires StartsWithTable(payload, lacing, fields, widths, rest) && |fields| < count
    requires lacing == XIPH ==> forall n: nat, tail :: rest != XiphSize(n) + tail
    requires lacing == EBML && fields == [] ==> forall p: nat, w: nat :: w <= 8 ==> !VintAt(rest, 0, p, w)
    requires lacing == EBML && fields != [] ==> NoSignedSize(rest, fields[|fields| - 1])
    requires lacing == XIPH || lacing == EBML
    ensures NoTable(payload, lacing, count)
  {
    forall fields', widths', rest' | |fields'| == count && (forall s :: s in fields' ==> s <= MAX_INT)
      ensures !StartsWithTable(payload, lacing, fields', widths', rest')
    {
      if StartsWithTable(payload, lacing, fields', widths', rest') {
        var n := |fields|;
        var after := NextField(lacing, fields, widths, rest, fields', widths', rest');
        assert fields'[n] in fields';
        if lacing == EBML {
          assert n > 0 ==> fields'[n - 1] == fields'[..n][n - 1] == fields[n - 1];
          FieldIsReadable(rest, fields', widths', n, after);
        }
      }
    }
  }

  method ReadXiphTable(payload: seq<byte>, count: nat) returns (result: Option<(seq<nat>, seq<byte>)>, ghost widths: seq<nat>)
    ensures result.Some? ==> |result.value.0| == count && StartsWithTable(payload, XIPH, result.value.0, widths, result.value.1)
    ensures result.None? ==> NoTable(payload, XIPH, count)
  {
    var sizes: seq<nat>, rest := [], payload;
    widths := [];
    assert [] + payload == payload;
    for index := 0 to count
      invariant |sizes| == index && StartsWithTable(payload, XIPH, sizes, widths, rest)
    {
      var read := ReadXiphSize(rest);
      if read.None? {
        StuckTable(payload, XIPH, count, sizes, widths, rest);
        return None, [];
      }
      AddField(XIPH, sizes, widths, read.value.0, 1);
      Regroup(Table(XIPH, sizes, widths), XiphSize(read.value.0), read.value.1);
      sizes, widths, rest := sizes + [read.value.0], widths + [1], read.value.1;
    }
    result := Some((sizes, rest));
  }

  lemma VintEndsField(rest: seq<byte>, payload: nat, width: nat)
    requires VintAt(rest, 0, payload, width)
    ensures width <= |rest| && rest == VintBytes(payload, width) + rest[width..]
  {
    assert rest == rest[0..width] + rest[width..];
  }

  lemma AddSignedField(payload: seq<byte>, sizes: seq<nat>, widths: seq<nat>, rest: seq<byte>, size: nat, width: nat)
    requires StartsWithTable(payload, EBML, sizes, widths, rest) && sizes != []
    requires SignedSizeAt(rest, sizes[|sizes| - 1], size, width)
    ensures width <= |rest| && StartsWithTable(payload, EBML, sizes + [size], widths + [width], rest[width..])
  {
    var encoded := size - sizes[|sizes| - 1] + Bias(width);
    AddField(EBML, sizes, widths, size, width);
    VintEndsField(rest, encoded, width);
    Regroup(Table(EBML, sizes, widths), VintBytes(encoded, width), rest[width..]);
  }

  method ReadEbmlTable(payload: seq<byte>, count: nat) returns (result: Option<(seq<nat>, seq<byte>)>, ghost widths: seq<nat>)
    requires count >= 1
    ensures result.Some? ==> |result.value.0| == count && StartsWithTable(payload, EBML, result.value.0, widths, result.value.1)
    ensures result.None? ==> NoTable(payload, EBML, count)
  {
    widths := [];
    assert [] + payload == payload;
    assert StartsWithTable(payload, EBML, [], [], payload);
    var first := ReadVariable(payload, 0, 8, true);
    if first.None? || first.value.value > MAX_INT {
      StuckTable(payload, EBML, count, [], [], payload);
      return None, [];
    }
    var size, width := first.value.value, first.value.width;
    AddField(EBML, [], [], size, width);
    VintEndsField(payload, size, width);
    Regroup([], VintBytes(size, width), payload[width..]);
    assert [] + [size] == [size] && [] + [width] == [width];
    var sizes: seq<nat>, rest := [size], payload[width..];
    widths := [width];
    for index := 1 to count
      invariant |sizes| == index && sizes[index - 1] <= MAX_INT && StartsWithTable(payload, EBML, sizes, widths, rest)
    {
      var previous := sizes[index - 1];
      var read := ReadSignedSize(rest, previous);
      if read.None? {
        StuckTable(payload, EBML, count, sizes, widths, rest);
        return None, [];
      }
      size, width := read.value.0, read.value.1;
      AddSignedField(payload, sizes, widths, rest, size, width);
      sizes, widths, rest := sizes + [size], widths + [width], rest[width..];
    }
    result := Some((sizes, rest));
  }

  // ---------- The splitter ----------

  /** The frames cut from what follows the table, all sizes but the last being known. */
  ghost predicate TakenFrom(tail: seq<byte>, known: seq<nat>, count: nat, frames: seq<seq<byte>>) {
    |frames| == count == |known| + 1 && Sizes(frames)[..count - 1] == known && Nonempty(frames) && Concat(frames) == tail
  }

  lemma LastTakenSize(tail: seq<byte>, known: seq<nat>, count: nat, last: nat, frames: seq<seq<byte>>)
    requires |known| + 1 == count && Sum(known) + last == |tail| && TakenFrom(tail, known, count, frames)
    ensures Sizes(frames) == known + [last]
  {
    ConcatLength(frames);
    var sizes := Sizes(frames);
    SumAppend(known, sizes[count - 1]);
    assert sizes == sizes[..count - 1] + [sizes[count - 1]];
  }

  lemma LastSizeForced(tail: seq<byte>, known: seq<nat>, count: nat, last: nat, frames: seq<seq<byte>>)
    requires |known| + 1 == count && Sum(known) + last == |tail|
    ensures Cuts(tail, known + [last], frames) <==> TakenFrom(tail, known, count, frames)
  {
    if TakenFrom(tail, known, count, frames) {
      LastTakenSize(tail, known, count, last, frames);
    }
    if Cuts(tail, known + [last], frames) {
      assert |Sizes(frames)| == count && (known + [last])[..count - 1] == known;
    }
  }

  method TakeFrames(tail: seq<byte>, known: seq<nat>, count: nat) returns (result: Option<seq<seq<byte>>>)
    requires |known| + 1 == count
    ensures forall frames :: result == Some(frames) <==> TakenFrom(tail, known, count, frames)
  {
    var last := SizeOfLast(tail, known);
    if last.None? {
      forall frames ensures !TakenFrom(tail, known, count, frames) {
        if TakenFrom(tail, known, count, frames) {
          ConcatLength(frames);
          SumPrefix(Sizes(frames), count - 1);
        }
      }
      return None;
    }
    forall frames ensures Cuts(tail, known + [last.value], frames) <==> TakenFrom(tail, known, count, frames) {
      LastSizeForced(tail, known, count, last.value, frames);
    }
    result := CutFrames(tail, known + [last.value]);
  }

  lemma NothingBefore(tail: seq<byte>, end: seq<byte>)
    requires tail == Concat([]) + end
    ensures tail == end
  {
  }

  lemma HeadAgrees(payload: seq<byte>, lacing: int, frames: seq<seq<byte>>, fields: seq<nat>, widths: seq<nat>, count: nat, rest: seq<byte>)
    requires 1 <= count <= 256 && payload == [count - 1] + rest && IsTabled(payload, lacing, frames, fields, widths)
    ensures |frames| == count && rest == Table(lacing, fields, widths) + Concat(frames)
  {
    assert payload[0] == |frames| - 1;
    assert payload[1..] == rest;
    assert payload[1..] == Table(lacing, fields, widths) + Concat(frames);
  }

  /** Frames are laced in the payload exactly when they are taken from behind the table that was read. */
  lemma TabledFrames(payload: seq<byte>, lacing: int, count: nat, rest: seq<byte>, fields: seq<nat>, widths: seq<nat>, tail: seq<byte>)
    requires (lacing == XIPH || lacing == EBML) && 1 <= count <= 256 && payload == [count - 1] + rest
    requires StartsWithTable(rest, lacing, fields, widths, tail) && |fields| == FieldCount(lacing, count)
    ensures forall frames: seq<seq<byte>> :: IsLaced(payload, lacing, frames) <==> TakenFrom(tail, fields[..count - 1], count, frames)
  {
    forall frames: seq<seq<byte>> ensures IsLaced(payload, lacing, frames) <==> TakenFrom(tail, fields[..count - 1], count, frames) {
      if IsLaced(payload, lacing, frames) {
        var fields', widths' :| IsTabled(payload, lacing, frames, fields', widths');
        HeadAgrees(payload, lacing, frames, fields', widths', count, rest);
        TablesAgree(lacing, fields, widths, tail, fields', widths', Concat(frames));
        assert Fields(lacing, fields', widths')[|fields|..] == [];
        NothingBefore(tail, Concat(frames));
        assert fields'[..|fields|] == fields';
        assert count > 1 ==> fields[..count - 1] == fields;
        assert count == 1 ==> Sizes(frames)[..0] == fields[..0];
      }
      if TakenFrom(tail, fields[..count - 1], count, frames) {
        assert count > 1 ==> fields[..count - 1] == fields;
        assert IsTabled(payload, lacing, frames, fields, widths);
      }
    }
  }

  lemma FrameWithinAll(frames: seq<seq<byte>>, k: nat)
    requires k < |frames|
    ensures Sizes(frames)[k] <= |Concat(frames)|
  {
    var sizes := Sizes(frames);
    assert sizes[..k + 1] == sizes[..k] + [sizes[k]];
    SumAppend(sizes[..k], sizes[k]);
    SumPrefix(sizes, k + 1);
    ConcatLength(frames);
  }

  lemma FieldWithinInt(payload: seq<byte>, lacing: int, frames: seq<seq<byte>>, fields: seq<nat>, widths: seq<nat>, s: nat)
    requires (lacing == XIPH || lacing == EBML) && |payload| <= MAX_INT && IsTabled(payload, lacing, frames, fields, widths) && s in fields
    ensures s <= MAX_INT
  {
    if |frames| > 1 {
      var k :| 0 <= k < |fields| && fields[k] == s;
      FrameWithinAll(frames, k);
    } else {
      assert fields == [s] && Encodable(lacing, fields, widths, 0);
    }
  }

  lemma NoTableNoFrames(payload: seq<byte>, lacing: int, count: nat, rest: seq<byte>)
    requires (lacing == XIPH || lacing == EBML) && 1 <= count <= 256 && payload == [count - 1] + rest && |payload| <= MAX_INT
    requires NoTable(rest, lacing, FieldCount(lacing, count))
    ensures forall frames :: !IsLaced(payload, lacing, frames)
  {
    forall frames ensures !IsLaced(payload, lacing, frames) {
      if IsLaced(payload, lacing, frames) {
        var fields, widths :| IsTabled(payload, lacing, frames, fields, widths);
        HeadAgrees(payload, lacing, frames, fields, widths, count, rest);
        forall s | s in fields ensures s <= MAX_INT {
          FieldWithinInt(payload, lacing, frames, fields, widths, s);
        }
        assert StartsWithTable(rest, lacing, fields, widths, Concat(frames));
      }
    }
  }

  method SplitTabled(rest: seq<byte>, lacing: int, count: nat, ghost payload: seq<byte>) returns (result: Option<seq<seq<byte>>>)
    requires (lacing == XIPH || lacing == EBML) && 1 <= count <= 256 && |payload| <= MAX_INT
    requires payload == [count - 1] + rest
    ensures forall frames :: result == Some(frames) <==> IsLaced(payload, lacing, frames)
  {
    var read;
    ghost var widths;
    if lacing == XIPH {
      read, widths := ReadXiphTable(rest, count - 1);
    } else {
      read, widths := ReadEbmlTable(rest, FieldCount(EBML, count));
    }
    if read.None? {
      NoTableNoFrames(payload, lacing, count, rest);
      return None;
    }
    var fields, tail := read.value.0, read.value.1;
    TabledFrames(payload, lacing, count, rest, fields, widths, tail);
    result := TakeFrames(tail, fields[..count - 1], count);
  }

  lemma FixedSizesForced(payload: seq<byte>, count: nat, rest: seq<byte>, frames: seq<seq<byte>>)
    requires 1 <= count <= 256 && payload == [count - 1] + rest && IsLaced(payload, FIXED, frames)
    ensures |rest| % count == 0 && Cuts(rest, seq(count, i => |rest| / count), frames)
  {
    assert payload[0] == |frames| - 1 && payload[1..] == rest && payload[1..] == Concat(frames);
    var c := |frames[0]|;
    SumOfEqual(Sizes(frames), c);
    ConcatLength(frames);
    ExactQuotient(count, c);
    assert Sizes(frames) == seq(count, i => |rest| / count);
  }

  method SplitFixed(rest: seq<byte>, count: nat, ghost payload: seq<byte>) returns (result: Option<seq<seq<byte>>>)
    requires 1 <= count <= 256 && payload == [count - 1] + rest && rest != []
    ensures forall frames :: result == Some(frames) <==> IsLaced(payload, FIXED, frames)
  {
    forall frames | IsLaced(payload, FIXED, frames)
      ensures |rest| % count == 0 && Cuts(rest, seq(count, i => |rest| / count), frames)
    {
      FixedSizesForced(payload, count, rest, frames);
    }
    if |rest| % count != 0 {
      return None;
    }
    var sizes := seq(count, i => |rest| / count);
    result := CutFrames(rest, sizes);
    forall frames | Cuts(rest, sizes, frames) ensures IsLaced(payload, FIXED, frames) {
      assert |frames| == |Sizes(frames)| == count;
      forall k | 0 <= k < |frames| ensures |frames[k]| == |rest| / count {
        assert |frames[k]| == Sizes(frames)[k];
      }
    }
  }

  lemma LacedIsLong(payload: seq<byte>, lacing: int, frames: seq<seq<byte>>)
    requires NO_LACING < lacing <= EBML && IsLaced(payload, lacing, frames)
    ensures |payload| >= 2
  {
    assert frames[|frames| - 1] != [];
  }

  /** Splits a block payload: the frames are exactly those that were laced into it. */
  method Split(payload: seq<byte>, lacing: int) returns (result: Option<seq<seq<byte>>>)
    requires NO_LACING <= lacing <= EBML && |payload| <= MAX_INT
    ensures forall frames :: result == Some(frames) <==> IsLaced(payload, lacing, frames)
  {
    if lacing == NO_LACING {
      return if payload == [] then None else Some([payload]);
    }
    if |payload| < 2 {
      forall frames ensures !IsLaced(payload, lacing, frames) {
        if IsLaced(payload, lacing, frames) { LacedIsLong(payload, lacing, frames); }
      }
      return None;
    }
    var count := 1 + payload[0] as nat;
    assert payload == [count - 1] + payload[1..];
    if lacing == FIXED {
      result := SplitFixed(payload[1..], count, payload);
    } else {
      result := SplitTabled(payload[1..], lacing, count, payload);
    }
  }

  // ---------- The encoders of the standard ----------

  ghost predicate Laceable(frames: seq<seq<byte>>) {
    1 <= |frames| <= 256 && Nonempty(frames)
  }

  ghost function EncodeXiph(frames: seq<seq<byte>>): seq<byte>
    requires Laceable(frames)
  {
    var sizes := Sizes(frames)[..|frames| - 1];
    [|frames| - 1] + (Table(XIPH, sizes, sizes) + Concat(frames))
  }

  /** Every choice of widths the sizes fit in is a valid encoding; one frame has no size field. */
  ghost function EncodeEbml(frames: seq<seq<byte>>, widths: seq<nat>): seq<byte>
    requires Laceable(frames) && AllEncodable(EBML, Sizes(frames)[..|frames| - 1], widths)
  {
    [|frames| - 1] + (Table(EBML, Sizes(frames)[..|frames| - 1], widths) + Concat(frames))
  }

  lemma XiphIsInverted(frames: seq<seq<byte>>)
    requires Laceable(frames)
    ensures IsLaced(EncodeXiph(frames), XIPH, frames)
  {
    var sizes := Sizes(frames)[..|frames| - 1];
    assert IsTabled(EncodeXiph(frames), XIPH, frames, sizes, sizes);
  }

  lemma OneFieldTakesRoom(fields: seq<nat>, widths: seq<nat>)
    requires |fields| == 1 && AllEncodable(EBML, fields, widths)
    ensures |Table(EBML, fields, widths)| >= 1
  {
    assert Encodable(EBML, fields, widths, 0);
    assert Fields(EBML, fields, widths)[0] == Field(EBML, fields, widths, 0);
    ConcatFrom(Fields(EBML, fields, widths), 0);
    assert Fields(EBML, fields, widths)[0..] == Fields(EBML, fields, widths);
  }

  /** The splitter undoes EBML lacing exactly when there are two or more frames: with a single frame it still
      takes a size field from the payload, which the encoding does not have. */
  lemma EbmlIsInvertedFromTwoFrames(frames: seq<seq<byte>>, widths: seq<nat>)
    requires Laceable(frames) && AllEncodable(EBML, Sizes(frames)[..|frames| - 1], widths)
    ensures IsLaced(EncodeEbml(frames, widths), EBML, frames) <==> |frames| >= 2
  {
    var payload, sizes := EncodeEbml(frames, widths), Sizes(frames)[..|frames| - 1];
    if |frames| >= 2 {
      assert IsTabled(payload, EBML, frames, sizes, widths);
    } else {
      assert Table(EBML, sizes, widths) == [];
      forall f, w ensures !IsTabled(payload, EBML, frames, f, w) {
        if IsTabled(payload, EBML, frames, f, w) { OneFieldTakesRoom(f, w); }
      }
    }
  }

  /** A single frame in EBML lacing loses its first octet when that octet reads as a one-octet size. */
  lemma SingleEbmlFrameIsCut()
    ensures IsLaced([0, 0x81, 7], EBML, [[7]]) && !IsLaced([0, 0x81, 7], EBML, [[0x81, 7]])
  {
    var payload: seq<byte> := [0, 0x81, 7];
    assert AllEncodable(EBML, [1], [1]) by { assert Encodable(EBML, [1], [1], 0); }
    assert VintBytes(1, 1) == [0x81] by {
      assert Pow256(1) == 256;
      assert BigEndianBytes(0x81, 1) == BigEndianBytes(0, 0) + [0x81];
    }
    assert Fields(EBML, [1], [1]) == [[0x81]];
    ConcatOne([0x81 as byte]);
    assert Table(EBML, [1], [1]) == [0x81];
    assert Concat([[7 as byte]]) == [7];
    assert payload == [0] + ([0x81] + [7]);
    assert IsTabled(payload, EBML, [[7]], [1], [1]);
    var frames: seq<seq<byte>> := [[0x81, 7]];
    assert Sizes(frames)[..0] == [];
    assert Nonempty(frames);
    EbmlIsInvertedFromTwoFrames(frames, []);
    assert Concat(frames) == [0x81, 7];
    assert EncodeEbml(frames, []) == [0] + (Table(EBML, [], []) + [0x81, 7]) == payload;
  }
}
