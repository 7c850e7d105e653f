/** Sorts that put a chosen entry last among those with its key. `sort.Slice` may behave like any of them, so a result
    that depends on the choice is one that the program does not determine. */
module Favouring {
  import opened LexOrder
  import opened Sorting

  function RemoveOne<T(==)>(xs: seq<T>, w: T): seq<T> {
    if xs == [] then [] else if xs[0] == w then xs[1..] else [xs[0]] + RemoveOne(xs[1..], w)
  }

  lemma {:induction false} RemoveOneIsPermutation<T>(xs: seq<T>, w: T)
    requires w in xs
    ensures multiset(RemoveOne(xs, w) + [w]) == multiset(xs)
  {
    assert xs == [xs[0]] + xs[1..];
    if xs[0] != w {
      RemoveOneIsPermutation(xs[1..], w);
    }
  }

  function Favouring<T(==)>(key: T -> string, xs: seq<T>, w: T): seq<T> {
    InsertionSort(key, if w in xs then RemoveOne(xs, w) + [w] else xs)
  }

  function FavouringSorter<T(!new, ==)>(key: T -> string, w: T): (f: seq<T> -> seq<T>)
    ensures Sorts(key, f)
  {
    var f := (xs: seq<T>) => Favouring(key, xs, w);
    assert Sorts(key, f) by {
      forall xs ensures IsSortOf(key, xs, f(xs)) {
        InsertionSortSorts(key, if w in xs then RemoveOne(xs, w) + [w] else xs);
        if w in xs {
          RemoveOneIsPermutation(xs, w);
        }
      }
    }
    f
  }

  ghost predicate NoKey<T>(key: T -> string, xs: seq<T>, k: string) {
    forall x :: x in xs ==> key(x) != k
  }

  /** `w` is the last entry with its key. */
  ghost predicate LastIs<T>(key: T -> string, xs: seq<T>, w: T) {
    xs != [] && (LastIs(key, xs[1..], w) || (xs[0] == w && NoKey(key, xs[1..], key(w))))
  }

  lemma {:induction false} LastPosition<T>(key: T -> string, xs: seq<T>, w: T) returns (i: nat)
    requires LastIs(key, xs, w)
    ensures i < |xs| && xs[i] == w && forall j :: i < j < |xs| ==> key(xs[j]) != key(w)
  {
    if LastIs(key, xs[1..], w) {
      i := LastPosition(key, xs[1..], w);
      forall j | i + 1 < j < |xs|
        ensures key(xs[j]) != key(w)
      {
        assert xs[j] == xs[1..][j - 1];
      }
      i := i + 1;
    } else {
      i := 0;
      assert forall j :: 0 < j < |xs| ==> xs[j] in xs[1..];
    }
  }

  lemma LastIsUnique<T>(key: T -> string, xs: seq<T>, w: T, z: T)
    requires LastIs(key, xs, w) && LastIs(key, xs, z) && key(w) == key(z)
    ensures w == z
  {
    var i := LastPosition(key, xs, w);
    var j := LastPosition(key, xs, z);
    assert !(i < j) && !(j < i);
  }

  lemma {:induction false} InsertMembers<T>(key: T -> string, x: T, xs: seq<T>, y: T)
    requires y in Insert(key, x, xs)
    ensures y == x || y in xs
  {
    if xs != [] && !AtMost(key(x), key(xs[0])) && y != xs[0] {
      assert y in Insert(key, x, xs[1..]);
      InsertMembers(key, x, xs[1..], y);
    }
  }

  /** Inserting never moves an entry behind the last one with its key. */
  lemma {:induction false} InsertKeepsLast<T>(key: T -> string, x: T, xs: seq<T>, w: T)
    requires LastIs(key, xs, w)
    ensures LastIs(key, Insert(key, x, xs), w)
  {
    if AtMost(key(x), key(xs[0])) {
      assert ([x] + xs)[1..] == xs;
    } else {
      var tail := Insert(key, x, xs[1..]);
      assert ([xs[0]] + tail)[1..] == tail;
      if LastIs(key, xs[1..], w) {
        InsertKeepsLast(key, x, xs[1..], w);
      } else {
        forall y | y in tail
          ensures key(y) != key(w)
        {
          InsertMembers(key, x, xs[1..], y);
        }
      }
    }
  }

  lemma {:induction false} AppendedIsLast<T>(key: T -> string, xs: seq<T>, w: T)
    ensures LastIs(key, InsertionSort(key, xs + [w]), w)
  {
    if xs == [] {
      assert xs + [w] == [w] && [w][1..] == [];
      assert InsertionSort(key, [w]) == [w];
    } else {
      assert (xs + [w])[1..] == xs[1..] + [w];
      AppendedIsLast(key, xs[1..], w);
      InsertKeepsLast(key, xs[0], InsertionSort(key, xs[1..] + [w]), w);
    }
  }

  lemma FavouredIsLast<T(!new)>(key: T -> string, xs: seq<T>, w: T)
    requires w in xs
    ensures LastIs(key, FavouringSorter(key, w)(xs), w)
  {
    assert FavouringSorter(key, w)(xs) == Favouring(key, xs, w);
    AppendedIsLast(key, RemoveOne(xs, w), w);
  }

  lemma DisagreeingPair<T>(key: T -> string, xs: seq<T>) returns (w: T, z: T)
    requires !TiesAgree(key, xs)
    ensures w in xs && z in xs && key(w) == key(z) && w != z
  {
    var i, j :| 0 <= i < j < |xs| && key(xs[i]) == key(xs[j]) && xs[i] != xs[j];
    w, z := xs[i], xs[j];
  }

  /** Two sorts that favour different entries disagree. */
  lemma FavouredDiffer<T(!new)>(key: T -> string, xs: seq<T>, w: T, z: T)
    requires w in xs && z in xs && key(w) == key(z) && w != z
    ensures FavouringSorter(key, w)(xs) != FavouringSorter(key, z)(xs)
  {
    var r := FavouringSorter(key, w)(xs);
    FavouredIsLast(key, xs, w);
    FavouredIsLast(key, xs, z);
    if r == FavouringSorter(key, z)(xs) {
      LastIsUnique(key, r, w, z);
    }
  }

  /** They disagree even when one sorts the other's result. */
  lemma RivalSortsDiffer<T(!new)>(key: T -> string, xs: seq<T>, w: T, z: T)
    requires w in xs && z in xs && key(w) == key(z) && w != z
    ensures FavouringSorter(key, z)(FavouringSorter(key, w)(xs)) != FavouringSorter(key, w)(xs)
  {
    var r := FavouringSorter(key, w)(xs);
    assert IsSortOf(key, xs, r);
    assert z in multiset(r);
    FavouredIsLast(key, xs, w);
    FavouredIsLast(key, r, z);
    if FavouringSorter(key, z)(r) == r {
      LastIsUnique(key, r, w, z);
    }
  }
}
