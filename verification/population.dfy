/** The individuals being grouped, and the list helpers shared by every
    other module: flattening a list of groups into one list of students,
    and the facts about the multiset of students such a list holds. */
module Population {

  /** One participant: a row index into the input sheet and the three
      categorical attributes the scorers compare. */
  datatype Student = Student(index: int, study: string, gender: string, nationality: string)

  datatype Option<+T> = None | Some(value: T)

  type Group = seq<Student>

  /** The concatenation of all lists in `xs`, in order
      (Python's `[s for g in xs for s in g]`). */
  function Flatten<T>(xs: seq<seq<T>>): (r: seq<T>)
  {
    if xs == [] then [] else xs[0] + Flatten(xs[1..])
  }

  /** The multiset of students held by a list of groups. */
  function Bag<T>(xs: seq<seq<T>>): (r: multiset<T>)
  {
    multiset(Flatten(xs))
  }

  lemma {:induction false} FlattenAppend<T>(xs: seq<seq<T>>, ys: seq<seq<T>>)
    ensures Flatten(xs + ys) == Flatten(xs) + Flatten(ys)
  {
    if xs == [] {
      assert xs + ys == ys;
    } else {
      assert (xs + ys)[1..] == xs[1..] + ys;
      FlattenAppend(xs[1..], ys);
    }
  }

  /** Flattening one more list appends that list's elements. */
  lemma FlattenSnoc<T>(xs: seq<seq<T>>, x: seq<T>)
    ensures Flatten(xs + [x]) == Flatten(xs) + x
  {
    FlattenAppend(xs, [x]);
    assert Flatten([x]) == x + Flatten([x][1..]);
  }

  /** A prefix one longer. */
  lemma TakeSnoc<T>(s: seq<T>, i: nat)
    requires i < |s|
    ensures s[..i + 1] == s[..i] + [s[i]]
  {
  }

  /** One more group adds its students to the bag. */
  lemma BagSnoc<T>(xs: seq<seq<T>>, x: seq<T>)
    ensures Bag(xs + [x]) == Bag(xs) + multiset(x)
  {
    FlattenSnoc(xs, x);
  }

  /** Appending a student to group k adds exactly that student to the bag. */
  lemma {:induction false} BagAppendToGroup<T>(xs: seq<seq<T>>, k: nat, x: T)
    requires k < |xs|
    ensures Bag(xs[k := xs[k] + [x]]) == Bag(xs) + multiset{x}
  {
    var ys := xs[k := xs[k] + [x]];
    if k == 0 {
      assert ys[1..] == xs[1..];
    } else {
      assert ys[1..] == xs[1..][k - 1 := xs[1..][k - 1] + [x]];
      BagAppendToGroup(xs[1..], k - 1, x);
    }
  }

  /** Replacing group k changes the bag by exactly what that group loses
      and gains. */
  lemma {:induction false} BagReplace<T>(xs: seq<seq<T>>, k: nat, y: seq<T>)
    requires k < |xs|
    ensures Bag(xs[k := y]) + multiset(xs[k]) == Bag(xs) + multiset(y)
  {
    var ys := xs[k := y];
    if k == 0 {
      assert ys[1..] == xs[1..];
    } else {
      assert ys[1..] == xs[1..][k - 1 := y];
      BagReplace(xs[1..], k - 1, y);
      assert xs[1..][k - 1] == xs[k];
      calc {
        Bag(ys) + multiset(xs[k]);
        multiset(xs[0]) + Bag(ys[1..]) + multiset(xs[k]);
        multiset(xs[0]) + (Bag(xs[1..][k - 1 := y]) + multiset(xs[1..][k - 1]));
        multiset(xs[0]) + (Bag(xs[1..]) + multiset(y));
        Bag(xs) + multiset(y);
      }
    }
  }

  /** The bag of a list of groups depends only on which groups it holds,
      not on their order: a reordered list of groups holds the same
      students. */
  lemma {:induction false} BagOfReordered<T>(xs: seq<seq<T>>, ys: seq<seq<T>>)
    requires multiset(xs) == multiset(ys)
    ensures Bag(xs) == Bag(ys)
  {
    if xs == [] {
      assert |ys| == |multiset(ys)| == 0;
    } else {
      var k := MatchFirst(xs, ys);
      BagOfReordered(xs[1..], ys[..k] + ys[k + 1..]);
      BagRemove(ys, k);
    }
  }

  /** No two groups differ in size by more than one. */
  predicate EvenSizes<T>(gs: seq<seq<T>>)
  {
    forall a, b :: 0 <= a < |gs| && 0 <= b < |gs| ==> -1 <= |gs[a]| - |gs[b]| <= 1
  }

  /** Reordering the groups keeps their sizes even. */
  lemma EvenSizesOfReordered<T>(xs: seq<seq<T>>, ys: seq<seq<T>>)
    requires multiset(xs) == multiset(ys) && EvenSizes(ys)
    ensures EvenSizes(xs)
  {
    forall a, b | 0 <= a < |xs| && 0 <= b < |xs|
      ensures -1 <= |xs[a]| - |xs[b]| <= 1
    {
      assert xs[a] in multiset(ys) && xs[b] in multiset(ys);
      var a' :| 0 <= a' < |ys| && ys[a'] == xs[a];
      var b' :| 0 <= b' < |ys| && ys[b'] == xs[b];
    }
  }

  /** Two different positions i < j of a reordering hold elements found at
      two different positions a and b of the original. */
  lemma ReorderedPair<T>(xs: seq<T>, ys: seq<T>, i: nat, j: nat) returns (a: nat, b: nat)
    requires multiset(xs) == multiset(ys) && i < j < |xs|
    ensures a < |ys| && b < |ys| && a != b && ys[a] == xs[i] && ys[b] == xs[j]
  {
    assert xs[i] in multiset(ys);
    a :| 0 <= a < |ys| && ys[a] == xs[i];
    RemoveMatching(xs, i, ys, a);
    var xsRest, ysRest := xs[..i] + xs[i + 1..], ys[..a] + ys[a + 1..];
    assert xsRest[j - 1] == xs[j];
    assert xs[j] in multiset(ysRest);
    var k :| 0 <= k < |ysRest| && ysRest[k] == xs[j];
    b := if k < a then k else k + 1;
    DropAt(ys, a, k);
  }

  /** Taking one copy of the same element out of a sequence and out of a
      reordering of it leaves a reordering. */
  lemma RemoveMatching<T>(xs: seq<T>, i: nat, ys: seq<T>, a: nat)
    requires multiset(xs) == multiset(ys) && i < |xs| && a < |ys| && xs[i] == ys[a]
    ensures multiset(xs[..i] + xs[i + 1..]) == multiset(ys[..a] + ys[a + 1..])
  {
    MultisetRemove(xs, i);
    MultisetRemove(ys, a);
    assert multiset(xs[..i] + xs[i + 1..]) == multiset(xs) - multiset{xs[i]};
    assert multiset(ys[..a] + ys[a + 1..]) == multiset(ys) - multiset{ys[a]};
  }

  /** Position k of a sequence with position a dropped is position k of the
      sequence before a, and position k + 1 from a on. */
  lemma DropAt<T>(ys: seq<T>, a: nat, k: nat)
    requires a < |ys| && k < |ys| - 1
    ensures (ys[..a] + ys[a + 1..])[k] == if k < a then ys[k] else ys[k + 1]
  {
  }

  /** The first element of a reordering sits at some position k of the
      original, and the rest is a reordering of the original without it. */
  lemma MatchFirst<T>(xs: seq<T>, ys: seq<T>) returns (k: nat)
    requires xs != [] && multiset(xs) == multiset(ys)
    ensures k < |ys| && ys[k] == xs[0]
    ensures multiset(xs[1..]) == multiset(ys[..k] + ys[k + 1..])
  {
    assert xs[0] in multiset(ys);
    k :| 0 <= k < |ys| && ys[k] == xs[0];
    MultisetRemove(ys, k);
    assert xs == [xs[0]] + xs[1..];
    assert multiset(xs[1..]) == multiset(xs) - multiset{xs[0]};
  }

  /** Removing element k of a list removes exactly that element. */
  lemma MultisetRemove<T>(ys: seq<T>, k: nat)
    requires k < |ys|
    ensures multiset(ys) == multiset(ys[..k] + ys[k + 1..]) + multiset{ys[k]}
  {
    assert ys == ys[..k] + [ys[k]] + ys[k + 1..];
  }

  /** Removing group k of a list of groups removes exactly its students. */
  lemma BagRemove<T>(ys: seq<seq<T>>, k: nat)
    requires k < |ys|
    ensures Bag(ys) == multiset(ys[k]) + Bag(ys[..k] + ys[k + 1..])
  {
    var a, b := Flatten(ys[..k]), Flatten(ys[k + 1..]);
    assert Flatten(ys) == a + (ys[k] + b) by {
      assert ys == ys[..k] + ys[k..];
      FlattenAppend(ys[..k], ys[k..]);
      assert ys[k..][1..] == ys[k + 1..];
    }
    FlattenAppend(ys[..k], ys[k + 1..]);
  }

  /** Every position of a flattened list comes from one of its groups. */
  lemma {:induction false} InFlatten<T>(xs: seq<seq<T>>, k: nat, x: T)
    requires k < |xs| && x in xs[k]
    ensures x in Flatten(xs)
  {
    if k > 0 {
      InFlatten(xs[1..], k - 1, x);
    }
  }

  /** A sequence without repeated elements. */
  predicate Distinct<T(==)>(s: seq<T>)
  {
    forall i, j :: 0 <= i < j < |s| ==> s[i] != s[j]
  }
}
