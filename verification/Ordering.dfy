/** Orders, sorting contracts and the byte-wise string order that the other modules share. */
module Ordering {
  ghost predicate TotalPreorder<T(!new)>(le: (T, T) -> bool) {
    && (forall a, b :: le(a, b) || le(b, a))
    && (forall a, b, c :: le(a, b) && le(b, c) ==> le(a, c))
  }

  ghost predicate SortedBy<T>(s: seq<T>, le: (T, T) -> bool) {
    forall i, j :: 0 <= i < j < |s| ==> le(s[i], s[j])
  }

  function InsertSorted<T>(s: seq<T>, x: T, le: (T, T) -> bool): (r: seq<T>) {
    if s == [] then [x]
    else if le(s[|s| - 1], x) then s + [x]
    else InsertSorted(s[..|s| - 1], x, le) + [s[|s| - 1]]
  }

  function InsertionSort<T>(s: seq<T>, le: (T, T) -> bool): (r: seq<T>) {
    if s == [] then [] else InsertSorted(InsertionSort(s[..|s| - 1], le), s[|s| - 1], le)
  }

  lemma {:induction false} InsertSortedKeeps<T(!new)>(s: seq<T>, x: T, le: (T, T) -> bool)
    requires TotalPreorder(le) && SortedBy(s, le)
    ensures SortedBy(InsertSorted(s, x, le), le)
    ensures multiset(InsertSorted(s, x, le)) == multiset(s) + multiset{x}
  {
    if s != [] {
      var front, last := s[..|s| - 1], s[|s| - 1];
      assert s == front + [last];
      if !le(last, x) {
        InsertSortedKeeps(front, x, le);
        var r := InsertSorted(front, x, le);
        forall i | 0 <= i < |r| ensures le(r[i], last) {
          assert r[i] in multiset(r);
          assert r[i] == x || r[i] in front;
        }
      }
    }
  }

  lemma {:induction false} InsertionSortCorrect<T(!new)>(s: seq<T>, le: (T, T) -> bool)
    requires TotalPreorder(le)
    ensures SortedBy(InsertionSort(s, le), le) && multiset(InsertionSort(s, le)) == multiset(s)
  {
    if s != [] {
      var front, last := s[..|s| - 1], s[|s| - 1];
      assert s == front + [last];
      var sorted := InsertionSort(front, le);
      assert SortedBy(sorted, le) && multiset(sorted) == multiset(front) by { InsertionSortCorrect(front, le); }
      InsertSortedKeeps(sorted, last, le);
    }
  }

  lemma SameElements<T>(a: seq<T>, b: seq<T>)
    requires multiset(a) == multiset(b)
    ensures |a| == |b| && (forall x :: x in a <==> x in b)
  {
    assert |multiset(a)| == |a| && |multiset(b)| == |b|;
    forall x ensures x in a <==> x in b {
      assert x in a <==> x in multiset(a);
      assert x in b <==> x in multiset(b);
    }
  }

  /** Stands for Go's `sort.Slice`: callers may rely on this contract only, which promises no stability. */
  method Sort<T(!new)>(s: seq<T>, le: (T, T) -> bool) returns (r: seq<T>)
    requires TotalPreorder(le)
    ensures SortedBy(r, le) && multiset(r) == multiset(s)
    ensures |r| == |s| && (forall x :: x in r <==> x in s)
  {
    r := InsertionSort(s, le);
    InsertionSortCorrect(s, le);
    SameElements(r, s);
  }

  /** A sequence without repetitions, and what a permutation of it inherits. */
  ghost predicate Distinct<T>(s: seq<T>) {
    forall i, j :: 0 <= i < j < |s| ==> s[i] != s[j]
  }

  lemma {:induction false} DistinctCounts<T>(s: seq<T>)
    ensures Distinct(s) <==> forall x :: x in s ==> multiset(s)[x] == 1
  {
    if s != [] {
      var front, last := s[..|s| - 1], s[|s| - 1];
      assert s == front + [last];
      DistinctCounts(front);
      if Distinct(s) {
        forall x | x in s ensures multiset(s)[x] == 1 {
          if x in front { assert multiset(front)[x] == 1; }
        }
      } else {
        if Distinct(front) {
          var i, j :| 0 <= i < j < |s| && s[i] == s[j];
          assert j == |s| - 1 && front[i] == last;
          assert multiset(s)[last] == 2;
        } else {
          var x :| x in front && multiset(front)[x] != 1;
          assert x in s && multiset(s)[x] >= multiset(front)[x];
        }
      }
    }
  }

  lemma PermutationDistinct<T>(a: seq<T>, b: seq<T>)
    requires multiset(a) == multiset(b) && Distinct(b)
    ensures Distinct(a)
  {
    DistinctCounts(a);
    DistinctCounts(b);
    SameElements(a, b);
  }

  /** The sequence with one element taken out. */
  ghost function Without<T>(s: seq<T>, at: nat): seq<T>
    requires at < |s|
  {
    s[..at] + s[at + 1..]
  }

  lemma SameHeadSameTail<T>(a: seq<T>, b: seq<T>)
    requires a != [] && b != [] && a[0] == b[0] && a[1..] == b[1..]
    ensures a == b
  {
    assert a == [a[0]] + a[1..] && b == [b[0]] + b[1..];
  }

  lemma TakeOneMore<T>(items: seq<T>, k: nat)
    requires k < |items|
    ensures items[..k + 1] == items[..k] + [items[k]]
  {
  }

  lemma WithoutMultiset<T>(s: seq<T>, at: nat)
    requires at < |s|
    ensures multiset(s) == multiset(Without(s, at)) + multiset{s[at]}
  {
    assert s == s[..at] + [s[at]] + s[at + 1..];
  }

  lemma LastCounts<T>(items: seq<T>)
    requires items != []
    ensures multiset(items) == multiset(items[..|items| - 1]) + multiset{items[|items| - 1]}
  {
    assert items == items[..|items| - 1] + [items[|items| - 1]];
  }

  lemma {:induction false} SubsetSize<T>(a: set<T>, b: set<T>)
    requires a <= b
    ensures |a| <= |b|
  {
    if a != {} {
      var x :| x in a;
      SubsetSize(a - {x}, b - {x});
    }
  }

  /** Go compares strings byte by byte; a proper prefix comes first. */
  predicate StringLe(a: string, b: string) {
    |a| == 0 || (|b| > 0 && (a[0] < b[0] || (a[0] == b[0] && StringLe(a[1..], b[1..]))))
  }

  lemma {:induction false} StringLeTotal(a: string, b: string)
    ensures StringLe(a, b) || StringLe(b, a)
    ensures StringLe(a, b) && StringLe(b, a) ==> a == b
  {
    if |a| > 0 && |b| > 0 && a[0] == b[0] {
      StringLeTotal(a[1..], b[1..]);
      assert a == [a[0]] + a[1..] && b == [b[0]] + b[1..];
    }
  }

  lemma {:induction false} StringLeTransitive(a: string, b: string, c: string)
    requires StringLe(a, b) && StringLe(b, c)
    ensures StringLe(a, c)
  {
    if |a| > 0 && |b| > 0 && |c| > 0 && a[0] == b[0] == c[0] {
      StringLeTransitive(a[1..], b[1..], c[1..]);
    }
  }

  lemma StringLeOrder()
    ensures TotalPreorder(StringLe)
    ensures forall a, b :: StringLe(a, b) && StringLe(b, a) ==> a == b
  {
    forall a, b ensures (StringLe(a, b) || StringLe(b, a)) && (StringLe(a, b) && StringLe(b, a) ==> a == b) {
      StringLeTotal(a, b);
    }
    forall a, b, c | StringLe(a, b) && StringLe(b, c) ensures StringLe(a, c) {
      StringLeTransitive(a, b, c);
    }
  }

  /** The strings agree up to here, and here the first has the smaller character. */
  ghost predicate IsSmallerAt(a: string, b: string, k: nat) {
    k < |a| && k < |b| && a[..k] == b[..k] && a[k] < b[k]
  }

  /** The order of strings: a beginning comes first, and otherwise the first difference decides. */
  lemma {:induction false} StringLeMeans(a: string, b: string)
    ensures StringLe(a, b) <==> a <= b || exists k: nat :: IsSmallerAt(a, b, k)
  {
    if a != [] && b != [] {
      var x, y := a[1..], b[1..];
      assert a == [a[0]] + x && b == [b[0]] + y;
      StringLeMeans(x, y);
      if k: nat :| IsSmallerAt(a, b, k) {
        if k > 0 {
          assert a[0] == a[..k][0] && x[..k - 1] == a[..k][1..] && y[..k - 1] == b[..k][1..];
          assert IsSmallerAt(x, y, k - 1);
        } else {
          assert a[0] < b[0];
        }
      }
      if a[0] < b[0] { assert IsSmallerAt(a, b, 0); }
      if a[0] == b[0] {
        if k: nat :| IsSmallerAt(x, y, k) {
          assert a[..k + 1] == [a[0]] + x[..k] && b[..k + 1] == [b[0]] + y[..k];
          assert IsSmallerAt(a, b, k + 1);
        }
      }
    }
  }

  /** Go's `strings.Join`. */
  function JoinWith(parts: seq<string>, separator: string): string {
    if parts == [] then ""
    else if |parts| == 1 then parts[0]
    else parts[0] + separator + JoinWith(parts[1..], separator)
  }

  /** The pieces between the separators; there is one even when nothing stands there. */
  ghost function SplitAt(s: string, separator: char): (pieces: seq<string>)
    ensures pieces != []
  {
    if s == [] then [[]]
    else if s[0] == separator then [[]] + SplitAt(s[1..], separator)
    else [[s[0]] + SplitAt(s[1..], separator)[0]] + SplitAt(s[1..], separator)[1..]
  }

  lemma {:induction false} FirstPieceIsSplit(first: string, rest: string, separator: char)
    requires separator !in first
    ensures SplitAt(first + [separator] + rest, separator) == [first] + SplitAt(rest, separator)
    ensures SplitAt(first, separator) == [first]
  {
    var s := first + [separator] + rest;
    if first == [] {
      assert s[1..] == rest;
    } else {
      FirstPieceIsSplit(first[1..], rest, separator);
      assert s[1..] == first[1..] + [separator] + rest && first == [first[0]] + first[1..];
    }
  }

  /** Joined parts are found again as long as none of them holds the separator. */
  lemma {:induction false} JoinedPartsAreFound(parts: seq<string>, separator: char)
    requires forall part :: part in parts ==> separator !in part
    ensures SplitAt(JoinWith(parts, [separator]), separator) == if parts == [] then [""] else parts
  {
    if parts == [] {
    } else if |parts| == 1 {
      FirstPieceIsSplit(parts[0], [], separator);
    } else {
      JoinedPartsAreFound(parts[1..], separator);
      FirstPieceIsSplit(parts[0], JoinWith(parts[1..], [separator]), separator);
      assert parts == [parts[0]] + parts[1..];
    }
  }
}
