/** The max-heap of layer indices, sifted in place on a growing list. */
module LayerHeaps {
  function Parent(k: int): int
    requires k >= 1
  {
    (k - 1) / 2
  }

  ghost predicate NotAbove(s: seq<int>, child: int, ancestor: int)
    requires 0 <= child < |s| && 0 <= ancestor < |s|
  {
    s[child] <= s[ancestor]
  }

  /** Parent-child order of a max-heap laid out level by level. */
  ghost predicate IsHeap(s: seq<int>) {
    forall k :: 1 <= k < |s| ==> NotAbove(s, k, Parent(k))
  }

  lemma {:induction false} RootIsGreatest(s: seq<int>, k: nat)
    requires IsHeap(s) && k < |s|
    ensures s[k] <= s[0]
  {
    if k > 0 {
      assert NotAbove(s, k, Parent(k));
      RootIsGreatest(s, Parent(k));
    }
  }

  function Swapped(s: seq<int>, i: nat, j: nat): (r: seq<int>)
    requires i < |s| && j < |s|
    ensures |r| == |s| && multiset(r) == multiset(s)
  {
    s[i := s[j]][j := s[i]]
  }

  /** Heap order except between `hole` and its parent, with the children of `hole` below that parent. */
  ghost predicate HeapExceptUp(s: seq<int>, hole: nat) {
    && (forall k :: 1 <= k < |s| && k != hole ==> NotAbove(s, k, Parent(k)))
    && (hole >= 1 ==> forall k :: 1 <= k < |s| && Parent(k) == hole ==> NotAbove(s, k, Parent(hole)))
  }

  lemma SiftUpStep(s: seq<int>, j: nat)
    requires 1 <= j < |s| && HeapExceptUp(s, j) && s[j] > s[Parent(j)]
    ensures HeapExceptUp(Swapped(s, Parent(j), j), Parent(j))
  {
    var p := Parent(j);
    var r := Swapped(s, p, j);
    forall k | 1 <= k < |r| && k != p ensures NotAbove(r, k, Parent(k)) {
      if Parent(k) == j {
        assert NotAbove(s, k, p);
      } else if k != j {
        assert NotAbove(s, k, Parent(k));
      }
    }
    if p >= 1 {
      forall k | 1 <= k < |r| && Parent(k) == p ensures NotAbove(r, k, Parent(p)) {
        assert NotAbove(s, p, Parent(p));
        if k != j { assert NotAbove(s, k, p); }
      }
    }
  }

  /** Heap order among the first `n` positions except between `hole` and its children. */
  ghost predicate HeapExceptDown(s: seq<int>, hole: nat, n: nat)
    requires n <= |s|
  {
    && (forall k :: 1 <= k < n && Parent(k) != hole ==> NotAbove(s, k, Parent(k)))
    && (hole >= 1 ==> forall k :: 1 <= k < n && Parent(k) == hole ==> NotAbove(s, k, Parent(hole)))
  }

  lemma SiftDownStep(s: seq<int>, i: nat, child: nat, n: nat)
    requires n <= |s| && HeapExceptDown(s, i, n)
    requires 1 <= child < n && Parent(child) == i && s[child] > s[i]
    requires forall k :: 1 <= k < n && Parent(k) == i ==> NotAbove(s, k, child)
    ensures HeapExceptDown(Swapped(s, i, child), child, n)
  {
    var r := Swapped(s, i, child);
    forall k | 1 <= k < n && Parent(k) != child ensures NotAbove(r, k, Parent(k)) {
      if Parent(k) == i {
        assert NotAbove(s, k, child);
      } else if k == i {
        assert NotAbove(s, child, Parent(i));
      } else {
        assert NotAbove(s, k, Parent(k));
      }
    }
    forall k | 1 <= k < n && Parent(k) == child ensures NotAbove(r, k, Parent(child)) {
      assert NotAbove(s, k, Parent(k));
    }
  }

  lemma RootSwappedOut(s: seq<int>)
    requires IsHeap(s) && s != []
    ensures HeapExceptDown(Swapped(s, 0, |s| - 1), 0, |s| - 1)
  {
    forall k | 1 <= k < |s| - 1 && Parent(k) != 0 ensures NotAbove(Swapped(s, 0, |s| - 1), k, Parent(k)) {
      assert NotAbove(s, k, Parent(k));
    }
  }

  lemma LargerChild(s: seq<int>, i: nat, child: nat, n: nat)
    requires n <= |s| && child < n && (child == 2 * i + 1 || child == 2 * i + 2)
    requires forall c :: 2 * i + 1 <= c <= 2 * i + 2 && c < n ==> s[c] <= s[child]
    ensures Parent(child) == i && forall k :: 1 <= k < n && Parent(k) == i ==> NotAbove(s, k, child)
  {
    forall k | 1 <= k < n && Parent(k) == i ensures NotAbove(s, k, child) {
      assert k == 2 * i + 1 || k == 2 * i + 2;
    }
  }

  /** The larger of the children of `i` among the first `n` positions. */
  function LargerChildOf(s: seq<int>, i: nat, n: nat): (child: nat)
    requires n <= |s| && 2 * i + 1 < n
    ensures 1 <= child < n && Parent(child) == i
    ensures forall k :: 1 <= k < n && Parent(k) == i ==> NotAbove(s, k, child)
  {
    var child := if 2 * i + 2 < n && s[2 * i + 2] > s[2 * i + 1] then 2 * i + 2 else 2 * i + 1;
    LargerChild(s, i, child, n);
    child
  }

  lemma HeapWithoutHole(s: seq<int>, i: nat, n: nat)
    requires n <= |s| && HeapExceptDown(s, i, n)
    requires forall k :: 1 <= k < n && Parent(k) == i ==> NotAbove(s, k, i)
    ensures IsHeap(s[..n])
  {
    forall k | 1 <= k < n ensures NotAbove(s[..n], k, Parent(k)) {
      assert Parent(k) == i ==> NotAbove(s, k, i);
      assert Parent(k) != i ==> NotAbove(s, k, Parent(k));
    }
  }

  class LayerHeap {
    var items: seq<int>

    ghost predicate Valid()
      reads this
    {
      IsHeap(items)
    }

    constructor ()
      ensures Valid() && items == []
    {
      items := [];
    }

    method Push(value: int)
      requires Valid()
      modifies this
      ensures Valid() && multiset(items) == old(multiset(items)) + multiset{value}
    {
      ghost var before := items;
      items := items + [value];
      var j := |items| - 1;
      assert forall k :: 1 <= k < |before| ==> NotAbove(before, k, Parent(k));
      while j > 0 && items[j] > items[Parent(j)]
        invariant 0 <= j < |items|
        invariant HeapExceptUp(items, j)
        invariant multiset(items) == multiset(before) + multiset{value}
        decreases j
      {
        SiftUpStep(items, j);
        items := Swapped(items, Parent(j), j);
        j := Parent(j);
      }
    }

    method Pop() returns (top: int)
      requires Valid() && items != []
      modifies this
      ensures Valid() && top == old(items[0])
      ensures multiset(items) == old(multiset(items)) - multiset{top}
    {
      ghost var before := items;
      var n := |items| - 1;
      RootSwappedOut(items);
      items := Swapped(items, 0, n);
      SiftDown(n);
      top := items[n];
      assert items == items[..n] + [top];
      items := items[..n];
    }

    /** Restores the heap order of the first `n` items, whose root may be out of place. */
    method SiftDown(n: nat)
      requires n == |items| - 1 && HeapExceptDown(items, 0, n)
      modifies this
      ensures |items| == old(|items|) && multiset(items) == old(multiset(items))
      ensures IsHeap(items[..n]) && items[n] == old(items[n])
    {
      ghost var before := items;
      var i := 0;
      while 2 * i + 1 < n
        invariant 0 <= i && |items| == |before|
        invariant HeapExceptDown(items, i, n)
        invariant items[n] == before[n]
        invariant multiset(items) == multiset(before)
        decreases n - i
      {
        var child := LargerChildOf(items, i, n);
        if items[child] <= items[i] {
          HeapWithoutHole(items, i, n);
          return;
        }
        SiftDownStep(items, i, child, n);
        items := Swapped(items, i, child);
        i := child;
      }
      HeapWithoutHole(items, i, n);
    }
  }
}
