/** Repeated reconciles of one catalog: when the store stops changing. */
module FixedPoints {
  import opened CatalogTypes
  import opened Sorting
  import opened Converter
  import opened VersionMerge
  import opened AppUpdate
  import opened Reconciler
  import opened Locality
  import opened SyncEffect

  function StoredVersions(v: Option<AppDef>): seq<AppVersion> {
    if v.Some? then v.value.spec.versions else []
  }

  /** Merging the chart for `n` into the stored definition gives no version two different entries. */
  ghost predicate Agrees(c: Catalog, n: string, v: Option<AppDef>) {
    !IsSystem(v) ==>
      forall i :: 0 <= i < |Charts(c)| && GetAppName(Charts(c)[i]) == n ==>
        TiesAgree(VersionKey, Merge(StoredVersions(v), VersionsOf(c, Charts(c)[i])))
  }

  ghost predicate AgreesWith(c: Catalog, apps: Apps) {
    forall n :: Agrees(c, n, Lookup(apps, n))
  }

  predicate Regular(c: Catalog) {
    !Waiting(c) && DistinctAppNames(c)
  }

  // ---- Lists without repeated versions ----

  /** No chart of the catalog lists an application version twice. */
  ghost predicate DistinctVersions(c: Catalog) {
    forall i :: 0 <= i < |Charts(c)| ==> Distinct(VersionsOf(c, Charts(c)[i]))
  }

  ghost predicate DistinctStored(apps: Apps) {
    forall n :: Distinct(StoredVersions(Lookup(apps, n)))
  }

  /** Catalogs and stores without repeated versions agree. */
  lemma DistinctSuffices(c: Catalog, apps: Apps)
    requires DistinctVersions(c) && DistinctStored(apps)
    ensures AgreesWith(c, apps)
  {
    forall n, i | 0 <= i < |Charts(c)| && GetAppName(Charts(c)[i]) == n
      ensures TiesAgree(VersionKey, Merge(StoredVersions(Lookup(apps, n)), VersionsOf(c, Charts(c)[i])))
    {
      assert Distinct(StoredVersions(Lookup(apps, n)));
      MergeDistinct(StoredVersions(Lookup(apps, n)), VersionsOf(c, Charts(c)[i]));
    }
  }

  lemma {:induction false} ChartsKeepDistinct(env: Env, c: Catalog, k: nat, n: string, v: Option<AppDef>)
    requires DistinctVersions(c) && k <= |Charts(c)| && Distinct(StoredVersions(v))
    ensures Distinct(StoredVersions(LocalCharts(env, c, k, n, v)))
  {
    if k > 0 {
      ChartsKeepDistinct(env, c, k - 1, n, v);
      var u := LocalCharts(env, c, k - 1, n, v);
      var m := Merge(StoredVersions(u), VersionsOf(c, Charts(c)[k - 1]));
      MergeDistinct(StoredVersions(u), VersionsOf(c, Charts(c)[k - 1]));
      assert IsSortOf(VersionKey, m, env.sort(m));
      DistinctPermutation(VersionKey, m, env.sort(m));
    }
  }

  /** Distinct versions stay distinct, under any failures. */
  lemma SyncKeepsDistinct(env: Env, c: Catalog, apps: Apps)
    requires DistinctVersions(c) && DistinctStored(apps)
    ensures DistinctStored(Sync(env, c, apps).apps)
  {
    forall n
      ensures Distinct(StoredVersions(Lookup(Sync(env, c, apps).apps, n)))
    {
      ReconcileIsLocal(env, c, apps, n);
      assert Distinct(StoredVersions(Lookup(apps, n)));
      ChartsKeepDistinct(env, c, |Charts(c)|, n, Lookup(apps, n));
    }
  }

  // ---- The goal of a reconcile ----

  /** What an error-free reconcile of `c` makes of the definition called `n`. */
  function Goal(c: Catalog, n: string, v: Option<AppDef>): Option<AppDef> {
    Local(Calm(REFERENCE), c, n, v)
  }

  lemma GoalTarget(c: Catalog, i: nat, v: Option<AppDef>)
    requires Regular(c) && i < |Charts(c)|
    ensures Goal(c, GetAppName(Charts(c)[i]), v) == WriteOnce(REFERENCE, Convert(c, Charts(c)[i]), v)
  {
    LocalTarget(Calm(REFERENCE), c, i, v);
  }

  lemma GoalOther(c: Catalog, n: string, v: Option<AppDef>)
    requires Regular(c) && n !in Targets(c)
    ensures Goal(c, n, v) == if v.Some? && Labelled(v.value, c.name) then Some(Strip(v.value)) else v
  {
  }

  /** For a target, agreement is about its one chart; for anything else it holds. */
  lemma AgreesAt(c: Catalog, i: nat, v: Option<AppDef>)
    requires Regular(c) && i < |Charts(c)|
    ensures Agrees(c, GetAppName(Charts(c)[i]), v) <==>
            IsSystem(v) || TiesAgree(VersionKey, Merge(StoredVersions(v), VersionsOf(c, Charts(c)[i])))
  {
    forall j | 0 <= j < |Charts(c)| && GetAppName(Charts(c)[j]) == GetAppName(Charts(c)[i])
      ensures j == i
    {
      assert !(i < j) && !(j < i);
    }
  }

  lemma AgreesElsewhere(c: Catalog, n: string, v: Option<AppDef>)
    requires n !in Targets(c)
    ensures Agrees(c, n, v)
  {
    forall i | 0 <= i < |Charts(c)|
      ensures GetAppName(Charts(c)[i]) != n
    {
      IndexIsTarget(c, i);
    }
  }

  /** One write settles a definition whose versions agree with the chart's. */
  lemma WriteSettles(sort: VersionSorter, c: Catalog, i: nat, v: Option<AppDef>)
    requires Regular(c) && i < |Charts(c)| && Agrees(c, GetAppName(Charts(c)[i]), v)
    ensures var d := Convert(c, Charts(c)[i]);
            && WriteOnce(sort, d, v) == WriteOnce(REFERENCE, d, v)
            && Agrees(c, GetAppName(Charts(c)[i]), WriteOnce(sort, d, v))
            && (v.Some? ==> WriteOnce(REFERENCE, d, WriteOnce(sort, d, v)) == WriteOnce(sort, d, v))
  {
    var d := Convert(c, Charts(c)[i]);
    AgreesAt(c, i, v);
    AgreesAt(c, i, WriteOnce(sort, d, v));
    if v.None? {
      AddedToNothing(d.spec.versions);
      MergeSelf(d.spec.versions);
    } else if !IsSystem(v) {
      PromoteSettles(sort, REFERENCE, v.value, d);
      PromoteFacts(sort, v.value, c, Charts(c)[i]);
    }
  }

  /** Reaching the goal twice in a row is enough, and once is enough for a definition that exists. */
  lemma GoalSettles(c: Catalog, n: string, v: Option<AppDef>)
    requires Regular(c) && Agrees(c, n, v)
    ensures Agrees(c, n, Goal(c, n, v))
    ensures v.Some? ==> Goal(c, n, v).Some? && Goal(c, n, Goal(c, n, v)) == Goal(c, n, v)
    ensures Goal(c, n, Goal(c, n, Goal(c, n, v))) == Goal(c, n, Goal(c, n, v))
  {
    if n in Targets(c) {
      var i := TargetIndex(c, n);
      var d := Convert(c, Charts(c)[i]);
      var u := WriteOnce(REFERENCE, d, v);
      GoalTarget(c, i, v);
      GoalTarget(c, i, u);
      GoalTarget(c, i, WriteOnce(REFERENCE, d, u));
      WriteSettles(REFERENCE, c, i, v);
      WriteSettles(REFERENCE, c, i, u);
    } else {
      GoalOther(c, n, v);
      GoalOther(c, n, Goal(c, n, v));
      AgreesElsewhere(c, n, Goal(c, n, v));
      if v.Some? {
        StripFacts(v.value, c.name);
      }
    }
  }

  /** Any reconcile, failing or not, leaves each definition as it was or takes it to its goal. */
  lemma StepsTowardsGoal(env: Env, c: Catalog, n: string, v: Option<AppDef>)
    requires Regular(c) && Agrees(c, n, v)
    ensures Local(env, c, n, v) == v || Local(env, c, n, v) == Goal(c, n, v)
    ensures Agrees(c, n, Local(env, c, n, v))
  {
    GoalSettles(c, n, v);
    if Proceeds(env, c) && n in Targets(c) {
      var i := TargetIndex(c, n);
      LocalTarget(env, c, i, v);
      GoalTarget(c, i, v);
      WriteSettles(env.sort, c, i, v);
    }
  }

  /** Without failures the goal is reached, whatever the sorter does with equal keys. */
  lemma CalmIsGoal(sort: VersionSorter, c: Catalog, n: string, v: Option<AppDef>)
    requires Regular(c) && Agrees(c, n, v)
    ensures Local(Calm(sort), c, n, v) == Goal(c, n, v)
  {
    if n in Targets(c) {
      var i := TargetIndex(c, n);
      LocalTarget(Calm(sort), c, i, v);
      GoalTarget(c, i, v);
      WriteSettles(sort, c, i, v);
    }
  }

  lemma CleanReachesGoal(env: Env, c: Catalog, apps: Apps, n: string)
    requires Regular(c) && Agrees(c, n, Lookup(apps, n)) && Clean(env, c, apps)
    ensures Lookup(Sync(env, c, apps).apps, n) == Goal(c, n, Lookup(apps, n))
  {
    ReconcileIsLocal(env, c, apps, n);
    CleanIsCalm(env, c, apps, n);
    CalmIsGoal(env.sort, c, n, Lookup(apps, n));
  }

  /** Agreement is kept, under any failures. */
  lemma SyncKeepsAgreement(env: Env, c: Catalog, apps: Apps)
    requires Regular(c) && AgreesWith(c, apps)
    ensures AgreesWith(c, Sync(env, c, apps).apps)
  {
    forall n
      ensures Agrees(c, n, Lookup(Sync(env, c, apps).apps, n))
    {
      ReconcileIsLocal(env, c, apps, n);
      StepsTowardsGoal(env, c, n, Lookup(apps, n));
    }
  }

  /** A third error-free reconcile never changes what the second left; the second changes nothing when all targets
      existed before the first. The three reconciles may use different sorters. */
  lemma FixedPointInTwo(e1: Env, e2: Env, e3: Env, c: Catalog, apps: Apps)
    requires Regular(c) && AgreesWith(c, apps)
    requires Clean(e1, c, apps)
    requires Clean(e2, c, Sync(e1, c, apps).apps)
    requires Clean(e3, c, Sync(e2, c, Sync(e1, c, apps).apps).apps)
    ensures var s1 := Sync(e1, c, apps).apps;
            var s2 := Sync(e2, c, s1).apps;
            && Sync(e3, c, s2).apps == s2
            && (Targets(c) <= apps.Keys ==> s2 == s1)
  {
    var s1 := Sync(e1, c, apps).apps;
    var s2 := Sync(e2, c, s1).apps;
    var s3 := Sync(e3, c, s2).apps;
    SyncKeepsAgreement(e1, c, apps);
    SyncKeepsAgreement(e2, c, s1);
    forall n
      ensures Lookup(s3, n) == Lookup(s2, n)
      ensures Targets(c) <= apps.Keys ==> Lookup(s2, n) == Lookup(s1, n)
    {
      assert Agrees(c, n, Lookup(apps, n)) && Agrees(c, n, Lookup(s1, n)) && Agrees(c, n, Lookup(s2, n));
      CleanReachesGoal(e1, c, apps, n);
      CleanReachesGoal(e2, c, s1, n);
      CleanReachesGoal(e3, c, s2, n);
      GoalSettles(c, n, Lookup(apps, n));
      if n !in apps && n !in Targets(c) {
        GoalOther(c, n, None);
      }
    }
    SameStore(s3, s2);
    if Targets(c) <= apps.Keys {
      SameStore(s2, s1);
    }
  }

  /** One reconcile is enough exactly when every target it had to create lists its versions in order. */
  lemma FixedPointInOne(e1: Env, e2: Env, c: Catalog, apps: Apps)
    requires Regular(c) && AgreesWith(c, apps)
    requires Clean(e1, c, apps) && Clean(e2, c, Sync(e1, c, apps).apps)
    ensures Sync(e2, c, Sync(e1, c, apps).apps).apps == Sync(e1, c, apps).apps <==>
            forall i :: 0 <= i < |Charts(c)| && GetAppName(Charts(c)[i]) !in apps ==>
              Ordered(VersionKey, VersionsOf(c, Charts(c)[i]))
  {
    var s1 := Sync(e1, c, apps).apps;
    var s2 := Sync(e2, c, s1).apps;
    SyncKeepsAgreement(e1, c, apps);
    forall n
      ensures Lookup(s1, n) == Goal(c, n, Lookup(apps, n))
      ensures Lookup(s2, n) == Goal(c, n, Lookup(s1, n))
    {
      assert Agrees(c, n, Lookup(apps, n)) && Agrees(c, n, Lookup(s1, n));
      CleanReachesGoal(e1, c, apps, n);
      CleanReachesGoal(e2, c, s1, n);
    }
    forall i | 0 <= i < |Charts(c)| && GetAppName(Charts(c)[i]) !in apps
      ensures Lookup(s2, GetAppName(Charts(c)[i])) == Lookup(s1, GetAppName(Charts(c)[i])) <==>
              Ordered(VersionKey, VersionsOf(c, Charts(c)[i]))
    {
      assert Agrees(c, GetAppName(Charts(c)[i]), Lookup(apps, GetAppName(Charts(c)[i])));
      SettledCreation(c, i);
    }
    if forall i :: 0 <= i < |Charts(c)| && GetAppName(Charts(c)[i]) !in apps ==>
        Ordered(VersionKey, VersionsOf(c, Charts(c)[i]))
    {
      forall n
        ensures Lookup(s2, n) == Lookup(s1, n)
      {
        assert Agrees(c, n, Lookup(apps, n));
        if n in apps {
          GoalSettles(c, n, Lookup(apps, n));
        } else if n in Targets(c) {
          var i := TargetIndex(c, n);
        } else {
          GoalOther(c, n, None);
        }
      }
      SameStore(s2, s1);
    }
  }

  lemma SettledCreation(c: Catalog, i: nat)
    requires Regular(c) && i < |Charts(c)| && Agrees(c, GetAppName(Charts(c)[i]), None)
    ensures var n := GetAppName(Charts(c)[i]);
            Goal(c, n, Goal(c, n, None)) == Goal(c, n, None) <==> Ordered(VersionKey, VersionsOf(c, Charts(c)[i]))
  {
    var d := Convert(c, Charts(c)[i]);
    AgreesAt(c, i, None);
    AddedToNothing(d.spec.versions);
    GoalTarget(c, i, None);
    GoalTarget(c, i, Some(d));
    PromoteFacts(REFERENCE, d, c, Charts(c)[i]);
    CreatedIsSettled(REFERENCE, d);
  }
}
