/** Merging the versions of a stored definition with those of the catalog
    (`mergeVersions` in internal/controllers/synchronizer/reconciler.go). */
module VersionMerge {
  import opened CatalogTypes
  import opened Sorting

  /** Position of the last entry for a version, or -1. */
  function LastIndex(xs: seq<AppVersion>, v: string): (r: int)
    ensures -1 <= r < |xs|
    ensures r >= 0 ==> xs[r].version == v
    ensures forall j :: r < j < |xs| ==> xs[j].version != v
  {
    if xs == [] then -1
    else if xs[|xs| - 1].version == v then |xs| - 1
    else LastIndex(xs[..|xs| - 1], v)
  }

  function Names(xs: seq<AppVersion>): set<string> {
    set i | 0 <= i < |xs| :: xs[i].version
  }

  /** The map that a list of versions denotes: the last entry wins. */
  function Meaning(xs: seq<AppVersion>): map<string, AppVersion> {
    map v | v in Names(xs) :: xs[LastIndex(xs, v)]
  }

  function Count(xs: seq<AppVersion>, v: string): nat {
    if xs == [] then 0
    else Count(xs[..|xs| - 1], v) + if xs[|xs| - 1].version == v then 1 else 0
  }

  // ---- What the merge produces ----

  /** The entry at position `i` of the existing list after the merge: only the last entry for a version is replaced. */
  function Overridden(existing: seq<AppVersion>, desired: seq<AppVersion>, i: nat): AppVersion
    requires i < |existing|
  {
    var v := existing[i].version;
    if LastIndex(existing, v) == i && LastIndex(desired, v) >= 0 then desired[LastIndex(desired, v)] else existing[i]
  }

  /** The desired entries that the existing list knows nothing about, in order. */
  function Added(existing: seq<AppVersion>, desired: seq<AppVersion>): seq<AppVersion> {
    if desired == [] then []
    else
      var x := desired[|desired| - 1];
      Added(existing, desired[..|desired| - 1]) + if LastIndex(existing, x.version) < 0 then [x] else []
  }

  function Kept(existing: seq<AppVersion>, desired: seq<AppVersion>): (r: seq<AppVersion>)
    ensures |r| == |existing|
  {
    seq(|existing|, i requires 0 <= i < |existing| => Overridden(existing, desired, i))
  }

  function Merge(existing: seq<AppVersion>, desired: seq<AppVersion>): seq<AppVersion> {
    Kept(existing, desired) + Added(existing, desired)
  }

  /** The position of the last entry for each version. */
  method IndexVersions(existing: seq<AppVersion>) returns (index: map<string, int>)
    ensures forall v :: v in index <==> LastIndex(existing, v) >= 0
    ensures forall v :: v in index ==> index[v] == LastIndex(existing, v)
  {
    index := map[];
    for i := 0 to |existing|
      invariant forall v :: v in index <==> LastIndex(existing[..i], v) >= 0
      invariant forall v :: v in index ==> index[v] == LastIndex(existing[..i], v)
    {
      assert existing[..i + 1][..i] == existing[..i];
      index := index[existing[i].version := i];
    }
    assert existing[..|existing|] == existing;
  }

  method MergeVersions(existing: seq<AppVersion>, desired: seq<AppVersion>) returns (result: seq<AppVersion>)
    ensures result == Merge(existing, desired)
  {
    if |existing| == 0 {
      AddedToNothing(desired);
      return desired;
    }
    if |desired| == 0 {
      assert Kept(existing, desired) == existing;
      return existing;
    }

    var existingIndex := IndexVersions(existing);
    result := existing;
    assert Kept(existing, desired[..0]) == existing;
    for k := 0 to |desired|
      invariant result == Merge(existing, desired[..k])
    {
      var d := desired[k];
      assert desired[..k + 1] == desired[..k] + [d];
      MergeStep(existing, desired[..k], d);
      if d.version in existingIndex {
        result := result[existingIndex[d.version] := d];
      } else {
        result := result + [d];
      }
    }
    assert desired[..|desired|] == desired;
  }

  lemma {:induction false} AddedToNothing(desired: seq<AppVersion>)
    ensures Merge([], desired) == desired
  {
    if desired != [] {
      AddedToNothing(desired[..|desired| - 1]);
      assert desired == desired[..|desired| - 1] + [desired[|desired| - 1]];
    }
  }

  lemma LastIndexSnoc(xs: seq<AppVersion>, x: AppVersion, v: string)
    ensures LastIndex(xs + [x], v) == if x.version == v then |xs| else LastIndex(xs, v)
  {
    assert (xs + [x])[..|xs|] == xs;
  }

  /** One turn of the merge loop. */
  lemma MergeStep(existing: seq<AppVersion>, desired: seq<AppVersion>, d: AppVersion)
    ensures LastIndex(existing, d.version) >= 0 ==>
              Merge(existing, desired + [d]) == Merge(existing, desired)[LastIndex(existing, d.version) := d]
    ensures LastIndex(existing, d.version) < 0 ==>
              Merge(existing, desired + [d]) == Merge(existing, desired) + [d]
  {
    assert (desired + [d])[..|desired|] == desired;
    forall i | 0 <= i < |existing|
      ensures Kept(existing, desired + [d])[i] ==
              if i == LastIndex(existing, d.version) then d else Kept(existing, desired)[i]
    {
      LastIndexSnoc(desired, d, existing[i].version);
    }
    if LastIndex(existing, d.version) < 0 {
      assert Kept(existing, desired + [d]) == Kept(existing, desired);
    }
  }

  // ---- Position by position: what the merged list looks like ----

  lemma NamesIff(xs: seq<AppVersion>, v: string)
    ensures v in Names(xs) <==> LastIndex(xs, v) >= 0
  {
  }

  lemma {:induction false} AddedEntries(existing: seq<AppVersion>, desired: seq<AppVersion>, x: AppVersion)
    ensures x in Added(existing, desired) <==> x in desired && x.version !in Names(existing)
  {
    if desired != [] {
      var y := desired[|desired| - 1];
      NamesIff(existing, y.version);
      AddedEntries(existing, desired[..|desired| - 1], x);
      assert desired == desired[..|desired| - 1] + [y];
    }
  }

  lemma {:induction false} LastIndexConcat(xs: seq<AppVersion>, ys: seq<AppVersion>, v: string)
    ensures LastIndex(xs + ys, v) == if LastIndex(ys, v) >= 0 then |xs| + LastIndex(ys, v) else LastIndex(xs, v)
  {
    if ys == [] {
      assert xs + ys == xs;
    } else {
      var y := ys[|ys| - 1];
      LastIndexConcat(xs, ys[..|ys| - 1], v);
      assert xs + ys == (xs + ys[..|ys| - 1]) + [y];
      LastIndexSnoc(xs + ys[..|ys| - 1], y, v);
    }
  }

  /** The last added entry for a version is the last desired one. */
  lemma {:induction false} AddedLast(existing: seq<AppVersion>, desired: seq<AppVersion>, v: string)
    ensures LastIndex(existing, v) >= 0 ==> LastIndex(Added(existing, desired), v) < 0
    ensures LastIndex(existing, v) < 0 ==>
              (LastIndex(Added(existing, desired), v) >= 0 <==> LastIndex(desired, v) >= 0)
    ensures LastIndex(existing, v) < 0 && LastIndex(desired, v) >= 0 ==>
              Added(existing, desired)[LastIndex(Added(existing, desired), v)] == desired[LastIndex(desired, v)]
  {
    if desired != [] {
      var rest, x := desired[..|desired| - 1], desired[|desired| - 1];
      AddedLast(existing, rest, v);
      if LastIndex(existing, x.version) < 0 {
        LastIndexSnoc(Added(existing, rest), x, v);
      } else {
        assert Added(existing, desired) == Added(existing, rest);
      }
    }
  }

  lemma LastIndexUnique(xs: seq<AppVersion>, v: string, r: int)
    requires -1 <= r < |xs|
    requires r >= 0 ==> xs[r].version == v
    requires forall j :: r < j < |xs| ==> xs[j].version != v
    ensures LastIndex(xs, v) == r
  {
  }

  lemma KeptLast(existing: seq<AppVersion>, desired: seq<AppVersion>, v: string)
    ensures LastIndex(Kept(existing, desired), v) == LastIndex(existing, v)
  {
    LastIndexUnique(Kept(existing, desired), v, LastIndex(existing, v));
  }

  /** The last entry for a version in the merged list: the last desired one if any, else the last existing one. */
  lemma MergeLast(existing: seq<AppVersion>, desired: seq<AppVersion>, v: string)
    ensures LastIndex(Merge(existing, desired), v) >= 0 <==>
            LastIndex(existing, v) >= 0 || LastIndex(desired, v) >= 0
    ensures LastIndex(desired, v) >= 0 ==>
              Merge(existing, desired)[LastIndex(Merge(existing, desired), v)] == desired[LastIndex(desired, v)]
    ensures LastIndex(desired, v) < 0 && LastIndex(existing, v) >= 0 ==>
              Merge(existing, desired)[LastIndex(Merge(existing, desired), v)] == existing[LastIndex(existing, v)]
  {
    LastIndexConcat(Kept(existing, desired), Added(existing, desired), v);
    AddedLast(existing, desired, v);
    KeptLast(existing, desired, v);
  }

  lemma MeaningIff(xs: seq<AppVersion>, v: string)
    ensures v in Meaning(xs) <==> LastIndex(xs, v) >= 0
    ensures v in Meaning(xs) ==> Meaning(xs)[v] == xs[LastIndex(xs, v)]
  {
    NamesIff(xs, v);
  }

  /** The merge refines map override, on all inputs: each version means the desired entry if there is one,
      and the existing entry otherwise. */
  lemma MergeOverrides(existing: seq<AppVersion>, desired: seq<AppVersion>)
    ensures Meaning(Merge(existing, desired)) == Meaning(existing) + Meaning(desired)
    ensures Names(Merge(existing, desired)) == Names(existing) + Names(desired)
  {
    var r := Merge(existing, desired);
    forall v
      ensures v in Meaning(r) <==> v in Meaning(existing) || v in Meaning(desired)
      ensures v in Meaning(desired) ==> v in Meaning(r) && Meaning(r)[v] == Meaning(desired)[v]
      ensures v in Meaning(existing) && v !in Meaning(desired) ==>
                v in Meaning(r) && Meaning(r)[v] == Meaning(existing)[v]
      ensures v in Names(r) <==> v in Names(existing) || v in Names(desired)
    {
      MeaningIff(r, v);
      MeaningIff(existing, v);
      MeaningIff(desired, v);
      MergeLast(existing, desired, v);
    }
  }

  lemma CountSnoc(xs: seq<AppVersion>, x: AppVersion, v: string)
    ensures Count(xs + [x], v) == Count(xs, v) + if x.version == v then 1 else 0
  {
    assert (xs + [x])[..|xs|] == xs;
  }

  lemma {:induction false} CountConcat(xs: seq<AppVersion>, ys: seq<AppVersion>, v: string)
    ensures Count(xs + ys, v) == Count(xs, v) + Count(ys, v)
  {
    if ys == [] {
      assert xs + ys == xs;
    } else {
      assert (xs + ys)[..|xs + ys| - 1] == xs + ys[..|ys| - 1];
      CountConcat(xs, ys[..|ys| - 1], v);
    }
  }

  lemma {:induction false} CountSameNames(xs: seq<AppVersion>, ys: seq<AppVersion>, v: string)
    requires |xs| == |ys| && forall i :: 0 <= i < |xs| ==> xs[i].version == ys[i].version
    ensures Count(xs, v) == Count(ys, v)
  {
    if xs != [] {
      CountSameNames(xs[..|xs| - 1], ys[..|ys| - 1], v);
    }
  }

  lemma {:induction false} CountPositive(xs: seq<AppVersion>, v: string)
    ensures Count(xs, v) > 0 <==> v in Names(xs)
  {
    NamesIff(xs, v);
    if xs != [] {
      CountPositive(xs[..|xs| - 1], v);
      NamesIff(xs[..|xs| - 1], v);
    }
  }

  lemma {:induction false} CountAdded(existing: seq<AppVersion>, desired: seq<AppVersion>, v: string)
    ensures Count(Added(existing, desired), v) == if v in Names(existing) then 0 else Count(desired, v)
  {
    if desired != [] {
      var rest, x := desired[..|desired| - 1], desired[|desired| - 1];
      CountAdded(existing, rest, v);
      assert Count(desired, v) == Count(rest, v) + if x.version == v then 1 else 0;
      NamesIff(existing, x.version);
      if LastIndex(existing, x.version) < 0 {
        CountSnoc(Added(existing, rest), x, v);
        assert Added(existing, desired) == Added(existing, rest) + [x];
      } else {
        assert Added(existing, desired) == Added(existing, rest);
      }
    }
  }

  /** No version is lost or duplicated: a version occurs as often as in the existing list,
      or as in the desired list when it is new. The existing entries keep their order. */
  lemma MergeCounts(existing: seq<AppVersion>, desired: seq<AppVersion>, v: string)
    ensures Count(Merge(existing, desired), v) ==
            if v in Names(existing) then Count(existing, v) else Count(desired, v)
    ensures |Merge(existing, desired)| >= |existing|
    ensures forall i :: 0 <= i < |existing| ==> Merge(existing, desired)[i].version == existing[i].version
  {
    CountConcat(Kept(existing, desired), Added(existing, desired), v);
    CountSameNames(Kept(existing, desired), existing, v);
    CountAdded(existing, desired, v);
    CountPositive(existing, v);
  }

  /** Every merged entry comes from one of the two lists. */
  lemma MergeProvenance(existing: seq<AppVersion>, desired: seq<AppVersion>, x: AppVersion)
    requires x in Merge(existing, desired)
    ensures x in existing || x in desired
  {
    AddedEntries(existing, desired, x);
  }

  // ---- Merging lists without repeated versions ----

  predicate Distinct(xs: seq<AppVersion>) {
    DistinctKeys(VersionKey, xs)
  }

  lemma {:induction false} AddedDistinct(existing: seq<AppVersion>, desired: seq<AppVersion>)
    requires Distinct(desired)
    ensures Distinct(Added(existing, desired))
  {
    if desired != [] {
      var rest, x := desired[..|desired| - 1], desired[|desired| - 1];
      AddedDistinct(existing, rest);
      var a := Added(existing, rest);
      forall i | 0 <= i < |a|
        ensures VersionKey(a[i]) != VersionKey(x)
      {
        AddedEntries(existing, rest, a[i]);
        assert a[i] in rest;
        var k :| 0 <= k < |rest| && rest[k] == a[i];
        assert VersionKey(desired[k]) != VersionKey(desired[|desired| - 1]);
      }
    }
  }

  lemma MergeDistinct(existing: seq<AppVersion>, desired: seq<AppVersion>)
    requires Distinct(existing) && Distinct(desired)
    ensures Distinct(Merge(existing, desired))
  {
    var k, a := Kept(existing, desired), Added(existing, desired);
    AddedDistinct(existing, desired);
    var r := k + a;
    forall i, j | 0 <= i < j < |r|
      ensures VersionKey(r[i]) != VersionKey(r[j])
    {
      if j < |k| {
        assert VersionKey(existing[i]) != VersionKey(existing[j]);
      } else if i < |k| {
        AddedEntries(existing, desired, r[j]);
        assert existing[i].version in Names(existing);
      } else {
        assert VersionKey(a[i - |k|]) != VersionKey(a[j - |k|]);
      }
    }
  }

  // ---- Merging, sorting, and merging again ----

  lemma {:induction false} NothingNew(existing: seq<AppVersion>, desired: seq<AppVersion>)
    requires forall i :: 0 <= i < |desired| ==> desired[i].version in Names(existing)
    ensures Added(existing, desired) == []
  {
    if desired != [] {
      NamesIff(existing, desired[|desired| - 1].version);
      NothingNew(existing, desired[..|desired| - 1]);
    }
  }

  /** A permutation of a merge has all the desired versions. */
  lemma PermutationHasDesired(existing: seq<AppVersion>, desired: seq<AppVersion>, r: seq<AppVersion>)
    requires multiset(r) == multiset(Merge(existing, desired))
    ensures Added(r, desired) == []
  {
    forall i | 0 <= i < |desired|
      ensures desired[i].version in Names(r)
    {
      var v, m := desired[i].version, Merge(existing, desired);
      MergeLast(existing, desired, v);
      assert LastIndex(desired, v) >= i;
      assert m[LastIndex(m, v)] in multiset(r);
      var j :| 0 <= j < |r| && r[j] == m[LastIndex(m, v)];
    }
    NothingNew(r, desired);
  }

  /** The last desired entry of a version is an entry of the merge. */
  lemma LastDesiredIsMerged(existing: seq<AppVersion>, desired: seq<AppVersion>, v: string)
    requires LastIndex(desired, v) >= 0
    ensures desired[LastIndex(desired, v)] in multiset(Merge(existing, desired))
  {
    var m := Merge(existing, desired);
    MergeLast(existing, desired, v);
    assert m[LastIndex(m, v)] in m;
  }

  lemma TiesMeet(m: seq<AppVersion>, x: AppVersion, y: AppVersion)
    requires TiesAgree(VersionKey, m) && x in multiset(m) && y in multiset(m) && x.version == y.version
    ensures x == y
  {
    var a :| 0 <= a < |m| && m[a] == x;
    var b :| 0 <= b < |m| && m[b] == y;
    assert VersionKey(m[a]) == VersionKey(m[b]);
  }

  /** Where the entries of the merge agree for each version, merging in the desired list again changes nothing. */
  lemma MergeAgain(existing: seq<AppVersion>, desired: seq<AppVersion>, r: seq<AppVersion>)
    requires TiesAgree(VersionKey, Merge(existing, desired))
    requires multiset(r) == multiset(Merge(existing, desired))
    ensures Merge(r, desired) == r
  {
    var m := Merge(existing, desired);
    PermutationHasDesired(existing, desired, r);
    forall i | 0 <= i < |r|
      ensures Kept(r, desired)[i] == r[i]
    {
      var k := LastIndex(desired, r[i].version);
      if k >= 0 {
        LastDesiredIsMerged(existing, desired, r[i].version);
        assert r[i] in multiset(r);
        TiesMeet(m, r[i], desired[k]);
      }
    }
  }

  /** Merge-then-sort is idempotent in the desired list, whatever the sorter does with equal keys, as long as no version
      of the merge has two different entries. */
  lemma MergeSortSettles(f: seq<AppVersion> -> seq<AppVersion>, g: seq<AppVersion> -> seq<AppVersion>,
                         existing: seq<AppVersion>, desired: seq<AppVersion>)
    requires Sorts(VersionKey, f) && Sorts(VersionKey, g)
    requires TiesAgree(VersionKey, Merge(existing, desired))
    ensures f(Merge(existing, desired)) == g(Merge(existing, desired))
    ensures Merge(f(Merge(existing, desired)), desired) == f(Merge(existing, desired))
    ensures g(Merge(f(Merge(existing, desired)), desired)) == f(Merge(existing, desired))
    ensures TiesAgree(VersionKey, f(Merge(existing, desired)))
  {
    var m := Merge(existing, desired);
    SortersAgree(VersionKey, f, g, m);
    SortersAgree(VersionKey, g, f, m);
    assert IsSortOf(VersionKey, m, f(m));
    MergeAgain(existing, desired, f(m));
  }

  lemma MergeSelf(xs: seq<AppVersion>)
    ensures Merge(xs, xs) == xs
  {
    assert Kept(xs, xs) == xs;
    NothingNew(xs, xs);
  }
}
