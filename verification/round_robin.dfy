/** Dealing a list into `n` groups by position: the student at position i
    goes to group i mod n. Both the round-robin loop of `create_rand_group`
    and the slices `sList[k::n]` of the legacy `generateGroups` produce
    exactly `Partition(s, n)`. */
module RoundRobin {
  import opened Population

  /** Python's extended slice `s[k::n]`: the elements at positions
      k, k + n, k + 2n, ... */
  function Stride<T>(s: seq<T>, k: nat, n: nat): (r: seq<T>)
    requires n > 0
    decreases |s| - k
  {
    if k >= |s| then [] else [s[k]] + Stride(s, k + n, n)
  }

  /** The n stride slices of `s`, group k holding `s[k::n]`. */
  function Partition<T>(s: seq<T>, n: nat): (r: seq<seq<T>>)
    ensures |r| == n
  {
    seq(n, k requires 0 <= k < n => Stride(s, k, n))
  }

  /** The size group k of a balanced deal of m items into n groups has:
      every group gets m / n, and the first m % n groups one more. */
  function DealtSize(m: nat, n: nat, k: nat): (r: nat)
    requires n > 0
  {
    m / n + (if k < m % n then 1 else 0)
  }

  /** Dealing one more item: it lands in group m % n, which is then the
      only group whose size changes. */
  lemma DivModNext(m: nat, n: nat)
    requires n > 0
    ensures m % n + 1 < n ==> (m + 1) / n == m / n && (m + 1) % n == m % n + 1
    ensures m % n + 1 == n ==> (m + 1) / n == m / n + 1 && (m + 1) % n == 0
  {
    var q, r := m / n, m % n;
    assert m == n * q + r;
    if r + 1 < n {
      DivModUnique(m + 1, n, q, r + 1);
    } else {
      assert m + 1 == n * (q + 1) + 0;
      DivModUnique(m + 1, n, q + 1, 0);
    }
  }

  lemma DivModUnique(m: int, n: int, q: int, r: int)
    requires n > 0 && 0 <= r < n && m == n * q + r
    ensures q == m / n && r == m % n
  {
    var q', r' := m / n, m % n;
    assert m == n * q' + r';
    if q > q' {
      MulGap(n, q, q');
      assert false;
    } else if q < q' {
      MulGap(n, q', q);
      assert false;
    }
  }

  /** Multiples of n that differ in their factor are at least n apart. */
  lemma {:induction false} MulGap(n: int, a: int, b: int)
    requires n > 0 && a > b
    ensures n * a >= n * b + n
    decreases a - b
  {
    if a - 1 > b {
      MulGap(n, a - 1, b);
    }
    assert n * a == n * (a - 1) + n;
  }

  /** Appending x to the list appends x to the one stride slice that
      position |s| belongs to, and leaves every other slice alone. */
  lemma {:induction false} StrideSnoc<T>(s: seq<T>, k: nat, n: nat, x: T)
    requires n > 0
    ensures Stride(s + [x], k, n)
         == Stride(s, k, n) + (if k <= |s| && (|s| - k) % n == 0 then [x] else [])
    decreases |s| - k
  {
    if k > |s| {
    } else if k == |s| {
      assert Stride(s + [x], k + n, n) == [];
    } else {
      assert (s + [x])[k] == s[k];
      StrideSnoc(s, k + n, n, x);
      if k + n <= |s| {
        ModShift(|s| - k, n);
      } else {
        assert 0 < |s| - k < n;
      }
    }
  }

  lemma ModShift(a: nat, n: nat)
    requires n > 0 && a >= n
    ensures (a - n) % n == a % n
  {
    DivModUnique(a, n, (a - n) / n + 1, (a - n) % n);
  }

  /** The position-|s| item belongs to group k exactly when k == |s| mod n. */
  lemma SlotOf(m: nat, n: nat, k: nat)
    requires n > 0 && k < n
    ensures (k <= m && (m - k) % n == 0) <==> k == m % n
  {
    if k <= m && (m - k) % n == 0 {
      DivModUnique(m, n, (m - k) / n, k);
    }
    if k == m % n {
      assert m == n * (m / n) + k;
      DivModUnique(m - k, n, m / n, 0);
    }
  }

  /** Round-robin step: dealing x after the items of s appends it to group
      |s| mod n. This is the loop body of `create_rand_group`. */
  lemma PartitionSnoc<T>(s: seq<T>, n: nat, x: T)
    requires n > 0
    ensures Partition(s + [x], n)
         == Partition(s, n)[|s| % n := Partition(s, n)[|s| % n] + [x]]
  {
    var p, q := Partition(s + [x], n), Partition(s, n);
    forall k | 0 <= k < n
      ensures p[k] == q[|s| % n := q[|s| % n] + [x]][k]
    {
      StrideSnoc(s, k, n, x);
      SlotOf(|s|, n, k);
    }
  }

  lemma {:induction false} FlattenOfEmpties<T>(xs: seq<seq<T>>)
    requires forall k :: 0 <= k < |xs| ==> xs[k] == []
    ensures Flatten(xs) == []
  {
    if xs != [] {
      FlattenOfEmpties(xs[1..]);
    }
  }

  /** Dealing loses and duplicates nobody: the groups together hold exactly
      the students of the list. */
  lemma {:induction false} PartitionBag<T>(s: seq<T>, n: nat)
    requires n > 0
    ensures Bag(Partition(s, n)) == multiset(s)
    decreases |s|
  {
    if s == [] {
      FlattenOfEmpties(Partition(s, n));
    } else {
      var init, x := s[..|s| - 1], s[|s| - 1];
      assert s == init + [x];
      PartitionBag(init, n);
      PartitionSnoc(init, n, x);
      BagAppendToGroup(Partition(init, n), |init| % n, x);
    }
  }

  /** Group k of a deal of |s| items has `DealtSize(|s|, n, k)` members, so
      any two groups differ in size by at most one. */
  lemma {:induction false} PartitionSizes<T>(s: seq<T>, n: nat)
    requires n > 0
    ensures forall k :: 0 <= k < n ==> |Partition(s, n)[k]| == DealtSize(|s|, n, k)
    ensures forall k1, k2 :: 0 <= k1 < n && 0 <= k2 < n ==>
              -1 <= |Partition(s, n)[k1]| - |Partition(s, n)[k2]| <= 1
    decreases |s|
  {
    if s != [] {
      var init, x := s[..|s| - 1], s[|s| - 1];
      assert s == init + [x];
      PartitionSizes(init, n);
      PartitionSnoc(init, n, x);
      DivModNext(|init|, n);
    }
  }

  /** The student at position i of the list is member i / n of group
      i mod n. */
  lemma {:induction false} PartitionPosition<T>(s: seq<T>, n: nat, i: nat)
    requires n > 0 && i < |s|
    ensures i / n < |Partition(s, n)[i % n]| && Partition(s, n)[i % n][i / n] == s[i]
    decreases |s|
  {
    var init, x := s[..|s| - 1], s[|s| - 1];
    var m := |init|;
    var p, q := Partition(s, n), Partition(init, n);
    assert s == init + [x];
    PartitionSnoc(init, n, x);
    if i < m {
      PartitionPosition(init, n, i);
      assert s[i] == init[i];
      assert p[i % n] == q[i % n] || p[i % n] == q[i % n] + [x];
    } else {
      PartitionSizes(init, n);
      assert |q[m % n]| == m / n;
    }
  }
  /** `gs` is the deal of `s` into n groups: n groups holding exactly the
      students of `s`, in the positions and sizes below. */
  ghost predicate Dealt<T>(s: seq<T>, gs: seq<seq<T>>, n: nat)
    requires n > 0
  {
    |gs| == n && Bag(gs) == multiset(s) && Positions(s, gs, n) && Balanced(s, gs, n)
  }

  /** The student at position i of `s` is member i / n of group i mod n. */
  ghost predicate Positions<T>(s: seq<T>, gs: seq<seq<T>>, n: nat)
    requires n > 0 && |gs| == n
  {
    forall i :: 0 <= i < |s| ==> i / n < |gs[i % n]| && gs[i % n][i / n] == s[i]
  }

  /** Group k has `DealtSize(|s|, n, k)` members, so no two groups differ
      in size by more than one. */
  ghost predicate Balanced<T>(s: seq<T>, gs: seq<seq<T>>, n: nat)
    requires n > 0 && |gs| == n
  {
    && (forall k :: 0 <= k < n ==> |gs[k]| == DealtSize(|s|, n, k))
    && (forall k1, k2 :: 0 <= k1 < n && 0 <= k2 < n ==> -1 <= |gs[k1]| - |gs[k2]| <= 1)
  }

  lemma PartitionDealt<T>(s: seq<T>, n: nat)
    requires n > 0
    ensures Dealt(s, Partition(s, n), n)
  {
    PartitionBag(s, n);
    PartitionPositions(s, n);
    PartitionBalanced(s, n);
  }

  lemma PartitionPositions<T>(s: seq<T>, n: nat)
    requires n > 0
    ensures Positions(s, Partition(s, n), n)
  {
    forall i | 0 <= i < |s|
      ensures i / n < |Partition(s, n)[i % n]| && Partition(s, n)[i % n][i / n] == s[i]
    {
      PartitionPosition(s, n, i);
    }
  }

  lemma PartitionBalanced<T>(s: seq<T>, n: nat)
    requires n > 0
    ensures Balanced(s, Partition(s, n), n)
  {
    PartitionSizes(s, n);
  }
}
