/** Division facts the solver needs to be led to. */
module Arithmetic {
  lemma WholeMultiple(d: int, unit: int)
    requires unit > 0
    ensures d >= 1 ==> d * unit >= unit
    ensures d <= -1 ==> d * unit <= -unit
  {
  }

  lemma DivideBy(n: int, unit: int, q: int, r: int)
    requires unit > 0 && 0 <= r < unit && n == q * unit + r
    ensures n / unit == q && n % unit == r
  {
    var d := n / unit - q;
    assert d * unit == r - n % unit;
    WholeMultiple(d, unit);
  }

  lemma Distribute(a: int, b: int, c: int)
    ensures (a + b) * c == a * c + b * c
  {
  }

  lemma ExactQuotient(n: nat, c: nat)
    requires n >= 1
    ensures n * c % n == 0 && n * c / n == c
  {
    DivideBy(n * c, n, c, 0);
  }

  ghost function Sum(s: seq<nat>): nat {
    if s == [] then 0 else Sum(s[..|s| - 1]) + s[|s| - 1]
  }

  lemma SumAppend(s: seq<nat>, x: nat)
    ensures Sum(s + [x]) == Sum(s) + x
  {
    assert (s + [x])[..|s|] == s;
  }

  lemma {:induction false} SumPrefix(s: seq<nat>, k: nat)
    requires k <= |s|
    ensures Sum(s[..k]) <= Sum(s)
    decreases |s| - k
  {
    if k == |s| {
      assert s[..k] == s;
    } else {
      assert s[..k + 1] == s[..k] + [s[k]];
      SumAppend(s[..k], s[k]);
      SumPrefix(s, k + 1);
    }
  }

  lemma SumStep(s: seq<nat>, k: nat)
    requires k < |s|
    ensures Sum(s[..k + 1]) == Sum(s[..k]) + s[k] <= Sum(s)
  {
    assert s[..k + 1] == s[..k] + [s[k]];
    SumAppend(s[..k], s[k]);
    SumPrefix(s, k + 1);
  }

  lemma {:induction false} SumOfEqual(s: seq<nat>, x: nat)
    requires forall k :: 0 <= k < |s| ==> s[k] == x
    ensures Sum(s) == |s| * x
  {
    if s != [] {
      SumOfEqual(s[..|s| - 1], x);
      Distribute(|s| - 1, 1, x);
    }
  }
}
