/** Prefix sums: every coordinate of a text position is one. */
module Sums {

  function Min(a: int, b: int): int { if a <= b then a else b }

  /** The sum of the first `n` sizes. */
  function Sum(sizes: seq<nat>, n: nat): nat
    requires n <= |sizes|
  {
    if n == 0 then 0 else Sum(sizes, n - 1) + sizes[n - 1]
  }

  /** The greatest index up to `n` whose prefix sum does not exceed `target`. */
  function Floor(sizes: seq<nat>, n: nat, target: nat): (i: nat)
    requires n <= |sizes|
    ensures i <= n && Sum(sizes, i) <= target
    ensures forall j | i < j <= n :: Sum(sizes, j) > target
  {
    if n == 0 || Sum(sizes, n) <= target then n else Floor(sizes, n - 1, target)
  }

  ghost predicate Positive(sizes: seq<nat>) {
    forall i | 0 <= i < |sizes| :: sizes[i] > 0
  }

  lemma {:induction false} SumMonotone(sizes: seq<nat>, i: nat, j: nat)
    requires i <= j <= |sizes|
    ensures Sum(sizes, i) <= Sum(sizes, j)
    ensures i < j && sizes[i] > 0 ==> Sum(sizes, i) < Sum(sizes, j)
    decreases j
  {
    if i < j {
      SumMonotone(sizes, i, j - 1);
    }
  }

  lemma FloorUnique(sizes: seq<nat>, target: nat, i: nat)
    requires i <= |sizes| && Sum(sizes, i) <= target
    requires i < |sizes| ==> Sum(sizes, i + 1) > target
    ensures Floor(sizes, |sizes|, target) == i
  {
    var f := Floor(sizes, |sizes|, target);
    if i < f {
      SumMonotone(sizes, i + 1, f);
    }
  }

  lemma FloorOfSum(sizes: seq<nat>, i: nat)
    requires i <= |sizes| && (i < |sizes| ==> sizes[i] > 0)
    ensures Floor(sizes, |sizes|, Sum(sizes, i)) == i
  {
    FloorUnique(sizes, Sum(sizes, i), i);
  }

  lemma FloorMonotone(sizes: seq<nat>, a: nat, b: nat)
    requires a <= b
    ensures Floor(sizes, |sizes|, a) <= Floor(sizes, |sizes|, b)
  {
  }

  lemma {:induction false} SumAppend(a: seq<nat>, b: seq<nat>, n: nat)
    requires n <= |a| + |b|
    ensures n <= |a| ==> Sum(a + b, n) == Sum(a, n)
    ensures |a| <= n ==> Sum(a + b, n) == Sum(a, |a|) + Sum(b, n - |a|)
    decreases n
  {
    if n > 0 {
      SumAppend(a, b, n - 1);
    }
  }

  lemma {:induction false} SumPrefix(sizes: seq<nat>, k: nat, n: nat)
    requires n <= k <= |sizes|
    ensures Sum(sizes[..k], n) == Sum(sizes, n)
    decreases n
  {
    if n > 0 {
      SumPrefix(sizes, k, n - 1);
    }
  }

  lemma {:induction false} SumShift(sizes: seq<nat>, n: nat)
    requires 0 < n <= |sizes|
    ensures Sum(sizes, n) == sizes[0] + Sum(sizes[1..], n - 1)
    decreases n
  {
    if n > 1 {
      SumShift(sizes, n - 1);
    }
  }
}
