/** Repeated application versions. A merge keeps all entries of a version, sorting may put any one of them last, and the
    next merge overwrites whichever is last: an update settles exactly if such entries are the same. */
module TieBreaking {
  import opened CatalogTypes
  import opened Sorting
  import opened Favouring
  import opened VersionMerge
  import opened Converter
  import opened AppUpdate
  import opened Locality
  import opened SyncEffect
  import opened FixedPoints

  lemma LastIsIndexed(xs: seq<AppVersion>, w: AppVersion)
    requires LastIs(VersionKey, xs, w)
    ensures LastIndex(xs, w.version) >= 0 && xs[LastIndex(xs, w.version)] == w
  {
    var i := LastPosition(VersionKey, xs, w);
    assert forall j :: i < j < |xs| ==> VersionKey(xs[j]) != VersionKey(w);
    LastIndexUnique(xs, w.version, i);
  }

  // ---- An entry that is overwritten ----

  lemma {:induction false} SameOccurrences(xs: seq<AppVersion>, ys: seq<AppVersion>, w: AppVersion)
    requires |xs| == |ys| && forall i :: 0 <= i < |xs| ==> (xs[i] == w <==> ys[i] == w)
    ensures multiset(xs)[w] == multiset(ys)[w]
  {
    if xs != [] {
      assert xs == [xs[0]] + xs[1..] && ys == [ys[0]] + ys[1..];
      SameOccurrences(xs[1..], ys[1..], w);
    }
  }

  lemma UpdateLoses(r: seq<AppVersion>, l: nat, z: AppVersion)
    requires l < |r| && r[l] != z
    ensures multiset(r[l := z])[r[l]] < multiset(r)[r[l]]
  {
  }

  lemma KeptAt(r: seq<AppVersion>, d: seq<AppVersion>, w: AppVersion, i: nat)
    requires LastIndex(r, w.version) >= 0 && r[LastIndex(r, w.version)] == w && i < |r|
    requires LastIndex(d, w.version) >= 0 && d[LastIndex(d, w.version)] != w
    ensures Kept(r, d)[i] == w <==> i != LastIndex(r, w.version) && r[i] == w
  {
    assert Kept(r, d)[i] == Overridden(r, d, i);
    assert Kept(r, d)[i].version == r[i].version;
  }

  /** Overwriting the last entry of a version by another one loses an occurrence. */
  lemma OverwriteLoses(r: seq<AppVersion>, d: seq<AppVersion>, w: AppVersion)
    requires LastIndex(r, w.version) >= 0 && r[LastIndex(r, w.version)] == w
    requires LastIndex(d, w.version) >= 0 && d[LastIndex(d, w.version)] != w
    ensures multiset(Kept(r, d))[w] < multiset(r)[w]
  {
    var l, z := LastIndex(r, w.version), d[LastIndex(d, w.version)];
    UpdateLoses(r, l, z);
    var k := Kept(r, d);
    forall i | 0 <= i < |r|
      ensures k[i] == w <==> r[l := z][i] == w
    {
      KeptAt(r, d, w, i);
    }
    SameOccurrences(k, r[l := z], w);
  }

  /** A version that the chart lists: favouring an entry that is not the last desired one gets it overwritten. */
  lemma ListedVersionDoesNotSettle(g: VersionSorter, existing: seq<AppVersion>, desired: seq<AppVersion>,
                                   w: AppVersion)
    requires w in Merge(existing, desired)
    requires LastIndex(desired, w.version) >= 0 && desired[LastIndex(desired, w.version)] != w
    ensures var r := FavouringSorter(VersionKey, w)(Merge(existing, desired));
            g(Merge(r, desired)) != r
  {
    var m := Merge(existing, desired);
    var r := FavouringSorter(VersionKey, w)(m);
    assert IsSortOf(VersionKey, m, r);
    FavouredIsLast(VersionKey, m, w);
    LastIsIndexed(r, w);
    PermutationHasDesired(existing, desired, r);
    assert Merge(r, desired) == Kept(r, desired);
    OverwriteLoses(r, desired, w);
    assert IsSortOf(VersionKey, Merge(r, desired), g(Merge(r, desired)));
  }

  /** An entry stays in the list if the last entry of its version is the last desired one, or none is desired. */
  lemma EntryStays(r: seq<AppVersion>, desired: seq<AppVersion>, x: AppVersion)
    requires x in multiset(r)
    requires var k := LastIndex(desired, x.version);
             k < 0 || (LastIndex(r, x.version) >= 0 && r[LastIndex(r, x.version)] == desired[k])
    ensures x in Merge(r, desired)
  {
    var i :| 0 <= i < |r| && r[i] == x;
    assert Kept(r, desired)[i] == x;
    assert Merge(r, desired)[i] == x;
  }

  /** A version that only the cluster has: two sorts that favour different entries never come to rest. */
  lemma UnlistedVersionDoesNotSettle(existing: seq<AppVersion>, desired: seq<AppVersion>, w: AppVersion, z: AppVersion)
    requires w in Merge(existing, desired) && z in Merge(existing, desired)
    requires w.version == z.version && w != z && LastIndex(desired, w.version) < 0
    ensures var r := FavouringSorter(VersionKey, w)(Merge(existing, desired));
            FavouringSorter(VersionKey, z)(Merge(r, desired)) != r
  {
    var m := Merge(existing, desired);
    var r := FavouringSorter(VersionKey, w)(m);
    assert IsSortOf(VersionKey, m, r);
    FavouredIsLast(VersionKey, m, w);
    assert z in multiset(r);
    EntryStays(r, desired, z);
    var r' := FavouringSorter(VersionKey, z)(Merge(r, desired));
    FavouredIsLast(VersionKey, Merge(r, desired), z);
    if r' == r {
      LastIsUnique(VersionKey, r, w, z);
    }
  }

  /** If two entries of the merge disagree, some pair of sorts keeps the definition changing. */
  lemma DisagreementDoesNotSettle(a: AppDef, d: AppDef) returns (f: VersionSorter, g: VersionSorter)
    requires !Agreeing(a, d)
    ensures Promote(g, Promote(f, a, d), d) != Promote(f, a, d)
  {
    var m := Merge(a.spec.versions, d.spec.versions);
    var w, z := DisagreeingPair(VersionKey, m);
    var k := LastIndex(d.spec.versions, w.version);
    if k >= 0 {
      var loser := if d.spec.versions[k] != w then w else z;
      f, g := FavouringSorter(VersionKey, loser), REFERENCE;
      ListedVersionDoesNotSettle(g, a.spec.versions, d.spec.versions, loser);
    } else {
      f, g := FavouringSorter(VersionKey, w), FavouringSorter(VersionKey, z);
      UnlistedVersionDoesNotSettle(a.spec.versions, d.spec.versions, w, z);
    }
    PromoteAgain(f, g, a, d);
  }

  /** Updating any stored definition with any chart: a second update changes nothing, whatever sorting does with equal
      versions, if and only if merging the two gives no version two different entries. */
  lemma UpdateSettlesExactly(a: AppDef, d: AppDef)
    ensures (forall f: VersionSorter, g: VersionSorter :: Promote(g, Promote(f, a, d), d) == Promote(f, a, d)) <==>
            Agreeing(a, d)
  {
    if Agreeing(a, d) {
      forall f: VersionSorter, g: VersionSorter
        ensures Promote(g, Promote(f, a, d), d) == Promote(f, a, d)
      {
        PromoteSettles(f, g, a, d);
      }
    } else {
      var f, g := DisagreementDoesNotSettle(a, d);
    }
  }

  /** For a definition just created: if and only if the chart lists no two different entries under one version. */
  lemma CreatedSettlesExactly(d: AppDef)
    ensures (forall f: VersionSorter, g: VersionSorter :: Promote(g, Promote(f, d, d), d) == Promote(f, d, d)) <==>
            TiesAgree(VersionKey, d.spec.versions)
  {
    MergeSelf(d.spec.versions);
    UpdateSettlesExactly(d, d);
  }

  // ---- Disagreement can last ----

  /** Sorting the last desired entry last keeps the next merge from removing the disagreement. */
  lemma DisagreementCanLast(a: AppDef, d: AppDef) returns (f: VersionSorter)
    requires !Agreeing(a, d)
    ensures !Agreeing(Promote(f, a, d), d)
  {
    var m := Merge(a.spec.versions, d.spec.versions);
    var w, z := DisagreeingPair(VersionKey, m);
    var k := LastIndex(d.spec.versions, w.version);
    var last := w;
    if k >= 0 {
      last := d.spec.versions[k];
      LastDesiredIsMerged(a.spec.versions, d.spec.versions, w.version);
    }
    f := FavouringSorter(VersionKey, last);
    var r := f(m);
    assert IsSortOf(VersionKey, m, r);
    assert last in m && w in multiset(m) && z in multiset(m);
    FavouredIsLast(VersionKey, m, last);
    LastIsIndexed(r, last);
    EntryStays(r, d.spec.versions, w);
    EntryStays(r, d.spec.versions, z);
    if Agreeing(Promote(f, a, d), d) {
      TiesMeet(Merge(r, d.spec.versions), w, z);
    }
  }

  /** A third update changes nothing, whatever the three do with equal versions, under the same condition and no other:
      waiting for more updates does not help. */
  lemma ThirdUpdateExactly(a: AppDef, d: AppDef)
    ensures (forall f: VersionSorter, g: VersionSorter, h: VersionSorter ::
               Promote(h, Promote(g, Promote(f, a, d), d), d) == Promote(g, Promote(f, a, d), d)) <==>
            Agreeing(a, d)
  {
    if Agreeing(a, d) {
      forall f: VersionSorter, g: VersionSorter, h: VersionSorter
        ensures Promote(h, Promote(g, Promote(f, a, d), d), d) == Promote(g, Promote(f, a, d), d)
      {
        PromoteSettles(f, g, a, d);
        PromoteSettles(g, h, Promote(f, a, d), d);
      }
    } else {
      var f := DisagreementCanLast(a, d);
      var g, h := DisagreementDoesNotSettle(Promote(f, a, d), d);
    }
  }

  // ---- Whole stores ----

  /** What a reconcile without failures does to the definition of a chart. */
  lemma WrittenAt(sort: VersionSorter, c: Catalog, apps: Apps, i: nat)
    requires Regular(c) && i < |Charts(c)|
    ensures var n := GetAppName(Charts(c)[i]);
            Lookup(Sync(Calm(sort), c, apps).apps, n) == WriteOnce(sort, Convert(c, Charts(c)[i]), Lookup(apps, n))
  {
    ReconcileIsLocal(Calm(sort), c, apps, GetAppName(Charts(c)[i]));
    LocalTarget(Calm(sort), c, i, Lookup(apps, GetAppName(Charts(c)[i])));
  }

  lemma WriteExisting(sort: VersionSorter, c: Catalog, i: nat, a: AppDef)
    requires i < |Charts(c)| && !IsSystemApplication(a)
    ensures var d := Convert(c, Charts(c)[i]);
            WriteOnce(sort, d, Some(a)) == Some(Promote(sort, a, d)) && !IsSystemApplication(Promote(sort, a, d))
    ensures !IsSystemApplication(Convert(c, Charts(c)[i]))
  {
    PromoteFacts(sort, a, c, Charts(c)[i]);
  }

  lemma DisagreeingChart(c: Catalog, n: string, v: Option<AppDef>) returns (i: nat)
    requires !Agrees(c, n, v)
    ensures i < |Charts(c)| && GetAppName(Charts(c)[i]) == n && !IsSystem(v)
    ensures v.Some? ==> !Agreeing(v.value, Convert(c, Charts(c)[i]))
    ensures v.None? ==> !Agreeing(Convert(c, Charts(c)[i]), Convert(c, Charts(c)[i]))
  {
    i :| 0 <= i < |Charts(c)| && GetAppName(Charts(c)[i]) == n
         && !TiesAgree(VersionKey, Merge(StoredVersions(v), VersionsOf(c, Charts(c)[i])));
    AddedToNothing(VersionsOf(c, Charts(c)[i]));
    MergeSelf(VersionsOf(c, Charts(c)[i]));
  }

  /** A created definition whose entries disagree is put in another order by some sort. */
  lemma CreationDoesNotSettle(d: AppDef) returns (g: VersionSorter)
    requires !Agreeing(d, d)
    ensures Promote(g, d, d) != d
  {
    var xs := d.spec.versions;
    MergeSelf(xs);
    var w, z := DisagreeingPair(VersionKey, xs);
    FavouredDiffer(VersionKey, xs, w, z);
    g := if FavouringSorter(VersionKey, w)(xs) != xs then FavouringSorter(VersionKey, w)
         else FavouringSorter(VersionKey, z);
  }

  lemma SecondChanges(f: VersionSorter, g: VersionSorter, c: Catalog, apps: Apps, i: nat)
    requires Regular(c) && i < |Charts(c)|
    requires var v, d := Lookup(apps, GetAppName(Charts(c)[i])), Convert(c, Charts(c)[i]);
             && !IsSystem(v)
             && var b := if v.Some? then Promote(f, v.value, d) else d;
                Promote(g, b, d) != b
    ensures Sync(Calm(g), c, Sync(Calm(f), c, apps).apps).apps != Sync(Calm(f), c, apps).apps
  {
    var n, d := GetAppName(Charts(c)[i]), Convert(c, Charts(c)[i]);
    WrittenAt(f, c, apps, i);
    WriteExisting(f, c, i, if n in apps then apps[n] else d);
    WrittenAt(g, c, Sync(Calm(f), c, apps).apps, i);
    WriteExisting(g, c, i, if n in apps then Promote(f, apps[n], d) else d);
  }

  lemma DisagreementChangesSecond(c: Catalog, apps: Apps) returns (f: VersionSorter, g: VersionSorter)
    requires Regular(c) && !AgreesWith(c, apps)
    ensures Sync(Calm(g), c, Sync(Calm(f), c, apps).apps).apps != Sync(Calm(f), c, apps).apps
  {
    var n :| !Agrees(c, n, Lookup(apps, n));
    var i := DisagreeingChart(c, n, Lookup(apps, n));
    var d := Convert(c, Charts(c)[i]);
    if n in apps {
      f, g := DisagreementDoesNotSettle(apps[n], d);
    } else {
      f := REFERENCE;
      g := CreationDoesNotSettle(d);
    }
    SecondChanges(f, g, c, apps, i);
  }

  /** Every target that a reconcile of this store creates lists its versions in order. */
  ghost predicate CreatesInOrder(c: Catalog, apps: Apps) {
    forall i :: 0 <= i < |Charts(c)| && GetAppName(Charts(c)[i]) !in apps ==>
      Ordered(VersionKey, VersionsOf(c, Charts(c)[i]))
  }

  /** For every store: a second reconcile changes nothing, whatever the two reconciles do with equal versions, if and
      only if the charts agree with the store on versions and the targets to be created list theirs in order. */
  lemma ReconcileSettlesExactly(c: Catalog, apps: Apps)
    requires Regular(c)
    ensures (forall f: VersionSorter, g: VersionSorter ::
               Sync(Calm(g), c, Sync(Calm(f), c, apps).apps).apps == Sync(Calm(f), c, apps).apps) <==>
            AgreesWith(c, apps) && CreatesInOrder(c, apps)
  {
    if AgreesWith(c, apps) {
      forall f: VersionSorter, g: VersionSorter
        ensures Sync(Calm(g), c, Sync(Calm(f), c, apps).apps).apps == Sync(Calm(f), c, apps).apps <==>
                CreatesInOrder(c, apps)
      {
        FixedPointInOne(Calm(f), Calm(g), c, apps);
      }
      var s1 := Sync(Calm(REFERENCE), c, apps).apps;
      assert Sync(Calm(REFERENCE), c, s1).apps == s1 <==> CreatesInOrder(c, apps);
    } else {
      var f, g := DisagreementChangesSecond(c, apps);
    }
  }

  lemma ThirdChanges(f: VersionSorter, g: VersionSorter, h: VersionSorter, c: Catalog, apps: Apps, i: nat)
    requires Regular(c) && i < |Charts(c)|
    requires var v, d := Lookup(apps, GetAppName(Charts(c)[i])), Convert(c, Charts(c)[i]);
             && !IsSystem(v)
             && var b := if v.Some? then Promote(f, v.value, d) else d;
                Promote(h, Promote(g, b, d), d) != Promote(g, b, d)
    ensures var s2 := Sync(Calm(g), c, Sync(Calm(f), c, apps).apps).apps;
            Sync(Calm(h), c, s2).apps != s2
  {
    var n, d := GetAppName(Charts(c)[i]), Convert(c, Charts(c)[i]);
    var s1 := Sync(Calm(f), c, apps).apps;
    var s2 := Sync(Calm(g), c, s1).apps;
    var b := if n in apps then Promote(f, apps[n], d) else d;
    WrittenAt(f, c, apps, i);
    WriteExisting(f, c, i, if n in apps then apps[n] else d);
    WrittenAt(g, c, s1, i);
    WriteExisting(g, c, i, b);
    WrittenAt(h, c, s2, i);
    WriteExisting(h, c, i, Promote(g, b, d));
  }

  /** For every store, absent targets included: a third reconcile changes nothing, whatever the three do with equal
      versions, if and only if the charts agree with the store on versions. */
  lemma ThirdReconcileExactly(c: Catalog, apps: Apps)
    requires Regular(c)
    ensures (forall f: VersionSorter, g: VersionSorter, h: VersionSorter ::
               var s2 := Sync(Calm(g), c, Sync(Calm(f), c, apps).apps).apps;
               Sync(Calm(h), c, s2).apps == s2) <==>
            AgreesWith(c, apps)
  {
    if AgreesWith(c, apps) {
      forall f: VersionSorter, g: VersionSorter, h: VersionSorter
        ensures var s2 := Sync(Calm(g), c, Sync(Calm(f), c, apps).apps).apps; Sync(Calm(h), c, s2).apps == s2
      {
        FixedPointInTwo(Calm(f), Calm(g), Calm(h), c, apps);
      }
    } else {
      var n :| !Agrees(c, n, Lookup(apps, n));
      var i := DisagreeingChart(c, n, Lookup(apps, n));
      var d := Convert(c, Charts(c)[i]);
      var f, b := REFERENCE, d;
      if n in apps {
        f := DisagreementCanLast(apps[n], d);
        b := Promote(f, apps[n], d);
      }
      var g, h := DisagreementDoesNotSettle(b, d);
      ThirdChanges(f, g, h, c, apps, i);
    }
  }
}
