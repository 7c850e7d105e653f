/** `sort.Slice` is library code and is not stable. It is specified here as "some ordered
    permutation"; the result is pinned down only where the keys are distinct. */
module Sorting {
  import opened LexOrder

  ghost predicate Ordered<T>(key: T -> string, xs: seq<T>) {
    forall i, j :: 0 <= i < j < |xs| ==> AtMost(key(xs[i]), key(xs[j]))
  }

  predicate DistinctKeys<T>(key: T -> string, xs: seq<T>) {
    forall i, j :: 0 <= i < j < |xs| ==> key(xs[i]) != key(xs[j])
  }

  /** Entries with the same key are the same entry. */
  predicate TiesAgree<T(==)>(key: T -> string, xs: seq<T>) {
    forall i, j :: 0 <= i < j < |xs| && key(xs[i]) == key(xs[j]) ==> xs[i] == xs[j]
  }

  /** `ys` is a possible outcome of sorting `xs`. */
  ghost predicate IsSortOf<T>(key: T -> string, xs: seq<T>, ys: seq<T>) {
    Ordered(key, ys) && multiset(ys) == multiset(xs)
  }

  ghost predicate Sorts<T(!new)>(key: T -> string, f: seq<T> -> seq<T>) {
    forall xs :: IsSortOf(key, xs, f(xs))
  }

  lemma SameMembers<T>(xs: seq<T>, ys: seq<T>)
    requires multiset(xs) == multiset(ys)
    ensures |xs| == |ys|
    ensures forall x :: x in xs <==> x in ys
  {
    assert |multiset(xs)| == |xs| && |multiset(ys)| == |ys|;
    assert forall x :: x in xs <==> x in multiset(xs);
    assert forall x :: x in ys <==> x in multiset(ys);
  }

  /** An entry of a sequence with distinct keys is determined by its key. */
  lemma KeyDetermines<T>(key: T -> string, xs: seq<T>, x: T, y: T)
    requires DistinctKeys(key, xs) && x in xs && y in xs && key(x) == key(y)
    ensures x == y
  {
  }

  /** Where ties agree, in particular where keys are distinct, there is only one ordered permutation. */
  lemma {:induction false} SortUnique<T>(key: T -> string, xs: seq<T>, ys: seq<T>)
    requires Ordered(key, xs) && Ordered(key, ys)
    requires multiset(xs) == multiset(ys)
    requires TiesAgree(key, xs)
    ensures xs == ys
  {
    SameMembers(xs, ys);
    if xs != [] {
      HeadsAgree(key, xs, ys);
      TailMultiset(xs);
      TailMultiset(ys);
      TailOrdered(key, xs);
      TailOrdered(key, ys);
      SortUnique(key, xs[1..], ys[1..]);
    }
  }

  lemma TailMultiset<T>(xs: seq<T>)
    requires xs != []
    ensures multiset(xs[1..]) == multiset(xs) - multiset{xs[0]}
    ensures xs == [xs[0]] + xs[1..]
  {
    assert xs == [xs[0]] + xs[1..];
  }

  lemma HeadsAgree<T>(key: T -> string, xs: seq<T>, ys: seq<T>)
    requires Ordered(key, xs) && Ordered(key, ys)
    requires xs != [] && ys != []
    requires forall x :: x in xs <==> x in ys
    requires TiesAgree(key, xs)
    ensures xs[0] == ys[0]
  {
    assert ys[0] in xs && xs[0] in ys;
    var i :| 0 <= i < |xs| && xs[i] == ys[0];
    var j :| 0 <= j < |ys| && ys[j] == xs[0];
    if i != 0 && j != 0 {
      assert AtMost(key(xs[0]), key(xs[i])) && AtMost(key(ys[0]), key(ys[j]));
      Trichotomy(key(xs[0]), key(xs[i]));
    }
  }

  /** Permuting a sequence keeps its keys distinct. */
  lemma DistinctPermutation<T>(key: T -> string, xs: seq<T>, ys: seq<T>)
    requires multiset(xs) == multiset(ys) && DistinctKeys(key, xs)
    ensures DistinctKeys(key, ys)
  {
    SameMembers(xs, ys);
    forall i, j | 0 <= i < j < |ys|
      ensures key(ys[i]) != key(ys[j])
    {
      if key(ys[i]) == key(ys[j]) {
        KeyDetermines(key, xs, ys[i], ys[j]);
        RepeatedTwice(ys, i, j);
        DistinctOnce(key, xs, ys[i]);
        assert false;
      }
    }
  }

  lemma RepeatedTwice<T>(ys: seq<T>, i: nat, j: nat)
    requires i < j < |ys| && ys[i] == ys[j]
    ensures multiset(ys)[ys[i]] >= 2
  {
    assert ys == ys[..j] + ys[j..];
    assert ys[i] in ys[..j] && ys[..j][i] == ys[i];
    assert ys[j] in ys[j..] && ys[j..][0] == ys[j];
    assert multiset(ys[..j])[ys[i]] >= 1 && multiset(ys[j..])[ys[i]] >= 1;
  }

  lemma {:induction false} DistinctOnce<T>(key: T -> string, xs: seq<T>, x: T)
    requires DistinctKeys(key, xs)
    ensures multiset(xs)[x] <= 1
  {
    if xs != [] {
      assert xs == [xs[0]] + xs[1..];
      DistinctOnce(key, xs[1..], x);
      assert forall k :: 0 <= k < |xs[1..]| ==> xs[1..][k] == xs[k + 1];
      assert xs[0] !in xs[1..];
    }
  }

  /** Neighbours in an ordered list, in terms of the characters of their keys. */
  lemma NeighboursAscend<T>(key: T -> string, xs: seq<T>, i: nat)
    requires Ordered(key, xs) && i + 1 < |xs|
    ensures key(xs[i]) == key(xs[i + 1]) || Precedes(key(xs[i]), key(xs[i + 1]))
  {
    LessExactly(key(xs[i]), key(xs[i + 1]));
    assert AtMost(key(xs[i]), key(xs[i + 1]));
  }

  lemma TiesOfPermutation<T>(key: T -> string, xs: seq<T>, ys: seq<T>)
    requires multiset(xs) == multiset(ys) && TiesAgree(key, xs)
    ensures TiesAgree(key, ys)
  {
    forall i, j | 0 <= i < j < |ys| && key(ys[i]) == key(ys[j])
      ensures ys[i] == ys[j]
    {
      assert ys[i] in multiset(xs) && ys[j] in multiset(xs);
      var a :| 0 <= a < |xs| && xs[a] == ys[i];
      var b :| 0 <= b < |xs| && xs[b] == ys[j];
    }
  }

  /** Any two sorters agree on a sequence whose ties agree, and leave an ordered one alone. */
  lemma SortersAgree<T(!new)>(key: T -> string, f: seq<T> -> seq<T>, g: seq<T> -> seq<T>, xs: seq<T>)
    requires Sorts(key, f) && Sorts(key, g) && TiesAgree(key, xs)
    ensures f(xs) == g(xs) && TiesAgree(key, f(xs))
    ensures f(xs) == xs <==> Ordered(key, xs)
    ensures f(g(xs)) == f(xs)
  {
    assert IsSortOf(key, xs, f(xs)) && IsSortOf(key, xs, g(xs));
    TiesOfPermutation(key, xs, f(xs));
    SortUnique(key, f(xs), g(xs));
    if Ordered(key, xs) {
      SortUnique(key, xs, f(xs));
    }
    assert IsSortOf(key, g(xs), f(g(xs)));
    SortUnique(key, g(xs), f(g(xs)));
  }

  // ---- A reference sorter, showing that the specification of sorters can be met ----

  function Insert<T>(key: T -> string, x: T, xs: seq<T>): seq<T> {
    if xs == [] || AtMost(key(x), key(xs[0])) then [x] + xs else [xs[0]] + Insert(key, x, xs[1..])
  }

  function InsertionSort<T>(key: T -> string, xs: seq<T>): seq<T> {
    if xs == [] then [] else Insert(key, xs[0], InsertionSort(key, xs[1..]))
  }

  lemma ConsOrdered<T>(key: T -> string, x: T, xs: seq<T>)
    requires Ordered(key, xs)
    requires forall y :: y in xs ==> AtMost(key(x), key(y))
    ensures Ordered(key, [x] + xs)
  {
  }

  lemma HeadIsLeast<T>(key: T -> string, x: T, xs: seq<T>)
    requires Ordered(key, xs) && xs != [] && AtMost(key(x), key(xs[0]))
    ensures forall y :: y in xs ==> AtMost(key(x), key(y))
  {
    forall y | y in xs
      ensures AtMost(key(x), key(y))
    {
      var i :| 0 <= i < |xs| && xs[i] == y;
      assert i > 0 ==> AtMost(key(xs[0]), key(xs[i]));
      Transitive(key(x), key(xs[0]), key(y));
    }
  }

  lemma TailOrdered<T>(key: T -> string, xs: seq<T>)
    requires Ordered(key, xs) && xs != []
    ensures Ordered(key, xs[1..])
  {
  }

  lemma {:induction false} InsertKeepsOrder<T>(key: T -> string, x: T, xs: seq<T>)
    requires Ordered(key, xs)
    ensures Ordered(key, Insert(key, x, xs))
    ensures multiset(Insert(key, x, xs)) == multiset([x] + xs)
  {
    if xs == [] {
    } else if AtMost(key(x), key(xs[0])) {
      HeadIsLeast(key, x, xs);
      ConsOrdered(key, x, xs);
    } else {
      Trichotomy(key(x), key(xs[0]));
      TailOrdered(key, xs);
      InsertKeepsOrder(key, x, xs[1..]);
      assert xs == [xs[0]] + xs[1..];
      HeadIsLeast(key, xs[0], xs);
      var tail := Insert(key, x, xs[1..]);
      forall y | y in tail
        ensures AtMost(key(xs[0]), key(y))
      {
        assert y in multiset([x] + xs[1..]);
        assert y == x || y in xs;
      }
      ConsOrdered(key, xs[0], tail);
    }
  }

  lemma {:induction false} InsertionSortSorts<T>(key: T -> string, xs: seq<T>)
    ensures IsSortOf(key, xs, InsertionSort(key, xs))
  {
    if xs != [] {
      InsertionSortSorts(key, xs[1..]);
      InsertKeepsOrder(key, xs[0], InsertionSort(key, xs[1..]));
      assert xs == [xs[0]] + xs[1..];
    }
  }

  /** The reference sorter, as a function value. */
  function ReferenceSorter<T(!new)>(key: T -> string): (f: seq<T> -> seq<T>)
    ensures Sorts(key, f)
  {
    var f := (xs: seq<T>) => InsertionSort(key, xs);
    assert Sorts(key, f) by {
      forall xs ensures IsSortOf(key, xs, f(xs)) { InsertionSortSorts(key, xs); }
    }
    f
  }
}
