/** Stirling numbers of the second kind, used by `createGroups.py` to report
    what fraction of all possible splits the random search has tried. */
module Stirling {

  /** S(n, k): the number of ways to split n labelled students into k
      non-empty unlabelled groups. */
  function S(n: nat, k: nat): (r: nat)
  {
    if n == 0 && k == 0 then 1
    else if n == 0 || k == 0 then 0
    else k * S(n - 1, k) + S(n - 1, k - 1)
  }

  /** There is no way to split n students into more than n non-empty
      groups, so the table entries above the diagonal stay 0. */
  lemma {:induction false} SAboveDiagonal(n: nat, k: nat)
    requires k > n
    ensures S(n, k) == 0
  {
    if n > 0 {
      SAboveDiagonal(n - 1, k);
      SAboveDiagonal(n - 1, k - 1);
    }
  }

  /** There is at least one split whenever 1 <= k <= n (or both are 0), so
      the coverage ratio the source prints never divides by zero once the
      group count has passed the `n_groups` guard. */
  lemma {:induction false} SPositive(n: nat, k: nat)
    requires k <= n && (k == 0 ==> n == 0)
    ensures S(n, k) >= 1
  {
    if n > 0 {
      if k == 1 {
        SOne(n);
      } else {
        SPositive(n - 1, k - 1);
      }
    }
  }

  /** One group holds everybody: S(n, 1) == 1 for n >= 1. */
  lemma {:induction false} SOne(n: nat)
    requires n >= 1
    ensures S(n, 1) == 1
  {
    if n > 1 {
      SOne(n - 1);
    }
  }

  /** Two known values: S(4, 2) == 7 and S(5, 3) == 25. */
  lemma KnownValues()
    ensures S(4, 2) == 7 && S(5, 3) == 25
  {
    assert S(1, 1) == 1 && S(2, 1) == 1 && S(3, 1) == 1;
    assert S(2, 2) == 1 && S(3, 2) == 3 && S(4, 2) == 7;
    assert S(3, 3) == 1 && S(4, 3) == 6;
    assert S(5, 3) == 3 * S(4, 3) + S(4, 2);
  }

  /** `stirling_second_kind`: fills an (n + 1) x (k + 1) table row by row
      and reads entry [n, k]. */
  method StirlingSecondKind(n: nat, k: nat) returns (r: nat)
    ensures r == S(n, k)
  {
    var t := new nat[n + 1, k + 1]((_, _) => 0);
    t[0, 0] := 1;
    var i := 1;
    while i <= n
      invariant 1 <= i <= n + 1
      invariant forall a, b :: 0 <= a < i && 0 <= b <= k ==> t[a, b] == S(a, b)
      invariant forall a, b :: i <= a <= n && 0 <= b <= k ==> t[a, b] == 0
    {
      FillRow(t, i, k);
      i := i + 1;
    }
    r := t[n, k];
  }

  /** One row of the table: columns 1 .. min(i, k) from the recurrence
      S(i, j) = j * S(i - 1, j) + S(i - 1, j - 1); the other columns keep
      their 0, which is S(i, 0) and S(i, j) for j > i. */
  method FillRow(t: array2<nat>, i: nat, k: nat)
    requires 1 <= i < t.Length0 && t.Length1 == k + 1
    requires forall a, b :: 0 <= a < i && 0 <= b <= k ==> t[a, b] == S(a, b)
    requires forall b :: 0 <= b <= k ==> t[i, b] == 0
    modifies t
    ensures forall b :: 0 <= b <= k ==> t[i, b] == S(i, b)
    ensures forall a, b :: 0 <= a < t.Length0 && a != i && 0 <= b <= k ==> t[a, b] == old(t[a, b])
  {
    var j := 1;
    var top := if i < k then i else k;
    while j <= top
      invariant 1 <= j <= top + 1
      invariant forall b :: 0 <= b < j ==> t[i, b] == S(i, b)
      invariant forall b :: j <= b <= k ==> t[i, b] == 0
      invariant forall a, b :: 0 <= a < t.Length0 && a != i && 0 <= b <= k ==> t[a, b] == old(t[a, b])
    {
      assert S(i, j) == j * S(i - 1, j) + S(i - 1, j - 1);
      t[i, j] := j * t[i - 1, j] + t[i - 1, j - 1];
      j := j + 1;
    }
    forall b | top < b <= k
      ensures S(i, b) == 0
    {
      SAboveDiagonal(i, b);
    }
  }
}
