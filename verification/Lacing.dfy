/** Several frames in one block: Xiph, fixed-size and EBML lacing (section 10.3 of RFC 9559). */
module Lacing {
  import opened Options
  import opened Arithmetic
  import opened Bytes
  import opened Vint

  const NO_LACING := 0
  const XIPH := 1
  const FIXED := 2
  const EBML := 3

  // ---------- Size fields ----------

  /** A size as a run of 255s and a final smaller octet. */
  ghost function XiphSize(n: nat): (s: seq<byte>)
    ensures |s| >= 1
  {
    if n < 255 then [n] else [255] + XiphSize(n - 255)
  }

  /** Signed differences are shifted by half the capacity of their width. */
  function Bias(width: nat): nat
    requires 1 <= width <= 8
  {
    Capacity(width) / 2 - 1
  }

  /** As far down as up, and every value of the width is used but the one kept for a size not known. */
  lemma BiasIsBalanced(width: nat)
    requires 1 <= width <= 8
    ensures Bias(width) + 1 + Bias(width) == Capacity(width) - 1
  {
  }

  ghost function FieldPayload(sizes: seq<nat>, widths: seq<nat>, k: nat): int
    requires k < |sizes| == |widths| && 1 <= widths[k] <= 8
  {
    if k == 0 then sizes[0] else sizes[k] - sizes[k - 1] + Bias(widths[k])
  }

  /** Size `k` can be written in its width: the first as it is, each further one as a difference. */
  ghost predicate Encodable(kind: int, sizes: seq<nat>, widths: seq<nat>, k: nat)
    requires k < |sizes| == |widths|
  {
    kind == XIPH ||
    (&& 1 <= widths[k] <= 8
     && 0 <= FieldPayload(sizes, widths, k) < Capacity(widths[k]))
  }

  ghost predicate AllEncodable(kind: int, sizes: seq<nat>, widths: seq<nat>) {
    |sizes| == |widths| && forall k :: 0 <= k < |sizes| ==> Encodable(kind, sizes, widths, k)
  }

  ghost function Field(kind: int, sizes: seq<nat>, widths: seq<nat>, k: nat): seq<byte>
    requires k < |sizes| == |widths| && Encodable(kind, sizes, widths, k)
  {
    if kind == XIPH then XiphSize(sizes[k]) else VintBytes(FieldPayload(sizes, widths, k), widths[k])
  }

  ghost function Fields(kind: int, sizes: seq<nat>, widths: seq<nat>): (f: seq<seq<byte>>)
    requires AllEncodable(kind, sizes, widths)
    ensures |f| == |sizes|
  {
    seq(|sizes|, k requires 0 <= k < |sizes| && |sizes| == |widths| && Encodable(kind, sizes, widths, k) =>
          Field(kind, sizes, widths, k))
  }

  /** The size table: all fields end to end. */
  ghost function Table(kind: int, sizes: seq<nat>, widths: seq<nat>): seq<byte>
    requires AllEncodable(kind, sizes, widths)
  {
    Concat(Fields(kind, sizes, widths))
  }

  lemma AddField(kind: int, sizes: seq<nat>, widths: seq<nat>, size: nat, width: nat)
    requires AllEncodable(kind, sizes, widths)
    requires Encodable(kind, sizes + [size], widths + [width], |sizes|)
    ensures AllEncodable(kind, sizes + [size], widths + [width])
    ensures Table(kind, sizes + [size], widths + [width]) ==
            Table(kind, sizes, widths) + Field(kind, sizes + [size], widths + [width], |sizes|)
  {
    var sizes', widths' := sizes + [size], widths + [width];
    forall k | 0 <= k < |sizes'| ensures Encodable(kind, sizes', widths', k) {
      if k < |sizes| { assert Encodable(kind, sizes, widths, k); }
    }
    assert Fields(kind, sizes', widths')[..|sizes|] == Fields(kind, sizes, widths);
  }

  // ---------- Tables are read in one way only ----------

  ghost predicate PrefixFree(a: seq<byte>, b: seq<byte>) {
    forall x, y :: a + x == b + y ==> a == b && x == y
  }

  lemma {:induction false} XiphSizeIsUnique(a: nat, tailA: seq<byte>, b: nat, tailB: seq<byte>)
    requires XiphSize(a) + tailA == XiphSize(b) + tailB
    ensures a == b && tailA == tailB
  {
    assert (XiphSize(a) + tailA)[0] == (XiphSize(b) + tailB)[0];
    if a >= 255 {
      assert (XiphSize(a) + tailA)[1..] == XiphSize(a - 255) + tailA;
      assert (XiphSize(b) + tailB)[1..] == XiphSize(b - 255) + tailB;
      XiphSizeIsUnique(a - 255, tailA, b - 255, tailB);
    } else {
      assert (XiphSize(a) + tailA)[1..] == tailA;
      assert (XiphSize(b) + tailB)[1..] == tailB;
    }
  }

  lemma VintFieldIsUnique(p: nat, w: nat, tail: seq<byte>, p': nat, w': nat, tail': seq<byte>)
    requires 1 <= w <= 8 && p < Capacity(w) && 1 <= w' <= 8 && p' < Capacity(w')
    requires VintBytes(p, w) + tail == VintBytes(p', w') + tail'
    ensures p == p' && w == w' && tail == tail'
  {
    var data := VintBytes(p, w) + tail;
    assert data[0..w] == VintBytes(p, w) && data[0..w'] == VintBytes(p', w');
    VintIsUnique(data, 0, p, w, p', w');
    assert data[w..] == tail && data[w'..] == tail';
  }

  lemma FieldsPrefixFree(kind: int, sizes: seq<nat>, widths: seq<nat>, sizes': seq<nat>, widths': seq<nat>, k: nat)
    requires k < |sizes| == |widths| && Encodable(kind, sizes, widths, k)
    requires k < |sizes'| == |widths'| && Encodable(kind, sizes', widths', k)
    ensures PrefixFree(Field(kind, sizes, widths, k), Field(kind, sizes', widths', k))
  {
    forall x, y | Field(kind, sizes, widths, k) + x == Field(kind, sizes', widths', k) + y
      ensures Field(kind, sizes, widths, k) == Field(kind, sizes', widths', k) && x == y
    {
      if kind == XIPH {
        XiphSizeIsUnique(sizes[k], x, sizes'[k], y);
      } else {
        VintFieldIsUnique(FieldPayload(sizes, widths, k), widths[k], x, FieldPayload(sizes', widths', k), widths'[k], y);
      }
    }
  }

  /** Equal fields after equal sizes mean equal sizes. */
  lemma FieldGivesSize(kind: int, sizes: seq<nat>, widths: seq<nat>, sizes': seq<nat>, widths': seq<nat>, k: nat)
    requires k < |sizes| == |widths| && Encodable(kind, sizes, widths, k)
    requires k < |sizes'| == |widths'| && Encodable(kind, sizes', widths', k)
    requires k > 0 ==> sizes[k - 1] == sizes'[k - 1]
    requires Field(kind, sizes, widths, k) == Field(kind, sizes', widths', k)
    ensures sizes[k] == sizes'[k]
  {
    if kind == XIPH {
      XiphSizeIsUnique(sizes[k], [], sizes'[k], []);
    } else {
      VintFieldIsUnique(FieldPayload(sizes, widths, k), widths[k], [], FieldPayload(sizes', widths', k), widths'[k], []);
    }
  }

  lemma Regroup(a: seq<byte>, b: seq<byte>, c: seq<byte>)
    ensures (a + b) + c == a + (b + c)
  {
  }

  lemma ConcatFrom(f: seq<seq<byte>>, k: nat)
    requires k < |f|
    ensures Concat(f[k..]) == f[k] + Concat(f[k + 1..])
  {
    ConcatFirst(f[k..]);
    assert f[k..][1..] == f[k + 1..];
  }

  /** Two streams that start the same octets agree on every field they both hold. */
  lemma {:induction false} StreamsAgree(f: seq<seq<byte>>, f': seq<seq<byte>>, rest: seq<byte>, tail': seq<byte>)
    requires |f| <= |f'| && Concat(f) + rest == Concat(f') + tail'
    requires forall k :: 0 <= k < |f| ==> PrefixFree(f[k], f'[k])
    ensures f == f'[..|f|] && rest == Concat(f'[|f|..]) + tail'
  {
    if f == [] {
      assert f'[0..] == f' && [] + rest == rest;
    } else {
      var n := |f| - 1;
      Regroup(Concat(f[..n]), f[n], rest);
      StreamsAgree(f[..n], f', f[n] + rest, tail');
      ConcatFrom(f', n);
      Regroup(f'[n], Concat(f'[n + 1..]), tail');
      assert PrefixFree(f[n], f'[n]);
      assert f == f[..n] + [f[n]] && f'[..n + 1] == f'[..n] + [f'[n]];
    }
  }

  lemma {:induction false} SameFieldsSameSizes(kind: int, sizes: seq<nat>, widths: seq<nat>, sizes': seq<nat>, widths': seq<nat>, k: nat)
    requires AllEncodable(kind, sizes, widths) && AllEncodable(kind, sizes', widths') && k <= |sizes| <= |sizes'|
    requires Fields(kind, sizes, widths) == Fields(kind, sizes', widths')[..|sizes|]
    ensures sizes[..k] == sizes'[..k]
  {
    if k > 0 {
      SameFieldsSameSizes(kind, sizes, widths, sizes', widths', k - 1);
      assert k > 1 ==> sizes[k - 2] == sizes[..k - 1][k - 2] == sizes'[..k - 1][k - 2] == sizes'[k - 2];
      assert Encodable(kind, sizes, widths, k - 1) && Encodable(kind, sizes', widths', k - 1);
      assert Fields(kind, sizes, widths)[k - 1] == Fields(kind, sizes', widths')[..|sizes|][k - 1];
      FieldGivesSize(kind, sizes, widths, sizes', widths', k - 1);
      assert sizes[..k] == sizes[..k - 1] + [sizes[k - 1]] && sizes'[..k] == sizes'[..k - 1] + [sizes'[k - 1]];
    }
  }

  /** A payload that starts with a table starts with no other table that disagrees with it. */
  lemma TablesAgree(kind: int, sizes: seq<nat>, widths: seq<nat>, rest: seq<byte>, sizes': seq<nat>, widths': seq<nat>, tail': seq<byte>)
    requires AllEncodable(kind, sizes, widths) && AllEncodable(kind, sizes', widths') && |sizes| <= |sizes'|
    requires Table(kind, sizes, widths) + rest == Table(kind, sizes', widths') + tail'
    ensures sizes == sizes'[..|sizes|]
    ensures rest == Concat(Fields(kind, sizes', widths')[|sizes|..]) + tail'
  {
    var f, f' := Fields(kind, sizes, widths), Fields(kind, sizes', widths');
    forall k | 0 <= k < |f| ensures PrefixFree(f[k], f'[k]) {
      assert Encodable(kind, sizes, widths, k) && Encodable(kind, sizes', widths', k);
      FieldsPrefixFree(kind, sizes, widths, sizes', widths', k);
    }
    StreamsAgree(f, f', rest, tail');
    SameFieldsSameSizes(kind, sizes, widths, sizes', widths', |sizes|);
    assert sizes[..|sizes|] == sizes;
  }

  /** What comes next when the tables agree so far. */
  lemma NextField(kind: int, sizes: seq<nat>, widths: seq<nat>, rest: seq<byte>, sizes': seq<nat>, widths': seq<nat>, tail': seq<byte>)
    returns (after: seq<byte>)
    requires AllEncodable(kind, sizes, widths) && AllEncodable(kind, sizes', widths') && |sizes| < |sizes'|
    requires Table(kind, sizes, widths) + rest == Table(kind, sizes', widths') + tail'
    ensures sizes == sizes'[..|sizes|]
    ensures Encodable(kind, sizes', widths', |sizes|) && rest == Field(kind, sizes', widths', |sizes|) + after
  {
    TablesAgree(kind, sizes, widths, rest, sizes', widths', tail');
    var f', n := Fields(kind, sizes', widths'), |sizes|;
    assert Encodable(kind, sizes', widths', n);
    ConcatFrom(f', n);
    Regroup(f'[n], Concat(f'[n + 1..]), tail');
    after := Concat(f'[n + 1..]) + tail';
  }

  // ---------- Frames ----------

  ghost function Sizes(frames: seq<seq<byte>>): (s: seq<nat>)
    ensures |s| == |frames| && forall k :: 0 <= k < |frames| ==> s[k] == |frames[k]|
  {
    seq(|frames|, k requires 0 <= k < |frames| => |frames[k]|)
  }

  lemma {:induction false} ConcatLength(frames: seq<seq<byte>>)
    ensures |Concat(frames)| == Sum(Sizes(frames))
  {
    if frames != [] {
      var front := frames[..|frames| - 1];
      ConcatLength(front);
      assert Sizes(frames)[..|frames| - 1] == Sizes(front);
    }
  }

  /** Frames are determined by their sizes and their concatenation. */
  lemma {:induction false} CutIsUnique(a: seq<seq<byte>>, b: seq<seq<byte>>)
    requires Sizes(a) == Sizes(b) && Concat(a) == Concat(b)
    ensures a == b
  {
    if a != [] {
      var n := |a| - 1;
      assert |a| == |b| && |a[n]| == Sizes(a)[n] == Sizes(b)[n] == |b[n]|;
      assert Sizes(a[..n]) == Sizes(a)[..n] == Sizes(b)[..n] == Sizes(b[..n]);
      ConcatLength(a[..n]);
      ConcatLength(b[..n]);
      var m := |Concat(a[..n])|;
      assert Concat(a)[..m] == Concat(a[..n]) && Concat(a)[m..] == a[n];
      assert Concat(b)[..m] == Concat(b[..n]) && Concat(b)[m..] == b[n];
      CutIsUnique(a[..n], b[..n]);
      assert a == a[..n] + [a[n]] && b == b[..n] + [b[n]];
    }
  }

  ghost predicate Nonempty(frames: seq<seq<byte>>) {
    forall k :: 0 <= k < |frames| ==> frames[k] != []
  }

  ghost predicate Cuts(payload: seq<byte>, sizes: seq<nat>, frames: seq<seq<byte>>) {
    Sizes(frames) == sizes && Nonempty(frames) && Concat(frames) == payload
  }

  /** Cuts the payload at the given sizes, none of which may be zero and which have to use it up. */
  method CutFrames(payload: seq<byte>, sizes: seq<nat>) returns (result: Option<seq<seq<byte>>>)
    ensures forall frames :: result == Some(frames) <==> Cuts(payload, sizes, frames)
  {
    var frames: seq<seq<byte>> := [];
    var offset := 0;
    for index := 0 to |sizes|
      invariant offset == Sum(sizes[..index]) && offset <= |payload|
      invariant Cuts(payload[..offset], sizes[..index], frames)
    {
      var size := sizes[index];
      assert sizes[..index + 1] == sizes[..index] + [size];
      SumAppend(sizes[..index], size);
      if size <= 0 || offset + size > |payload| {
        forall other ensures !Cuts(payload, sizes, other) {
          if Cuts(payload, sizes, other) {
            ConcatLength(other);
            SumPrefix(sizes, index + 1);
          }
        }
        return None;
      }
      ConcatAppend(frames, payload[offset..offset + size]);
      assert payload[..offset + size] == payload[..offset] + payload[offset..offset + size];
      frames := frames + [payload[offset..offset + size]];
      offset := offset + size;
    }
    assert sizes[..|sizes|] == sizes && payload[..|payload|] == payload;
    if offset != |payload| {
      forall other ensures !Cuts(payload, sizes, other) {
        if Cuts(payload, sizes, other) { ConcatLength(other); }
      }
      return None;
    }
    forall other | Cuts(payload, sizes, other) ensures other == frames {
      CutIsUnique(frames, other);
    }
    result := Some(frames);
  }

  /** The size of the last frame is what the table leaves over. */
  method SizeOfLast(payload: seq<byte>, sizes: seq<nat>) returns (result: Option<nat>)
    ensures result == if Sum(sizes) <= |payload| then Some(|payload| - Sum(sizes)) else None
  {
    var known := 0;
    for index := 0 to |sizes|
      invariant known == Sum(sizes[..index]) <= |payload|
    {
      assert sizes[..index + 1] == sizes[..index] + [sizes[index]];
      SumAppend(sizes[..index], sizes[index]);
      if sizes[index] > |payload| - known {
        SumPrefix(sizes, index + 1);
        return None;
      }
      known := known + sizes[index];
    }
    assert sizes[..|sizes|] == sizes;
    result := Some(|payload| - known);
  }
}
