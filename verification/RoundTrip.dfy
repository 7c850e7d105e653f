/** Taking charts out of a catalog and putting them back, and reconciling different catalogs in either order. */
module RoundTrip {
  import opened CatalogTypes
  import opened Converter
  import opened AppUpdate
  import opened Reconciler
  import opened Locality
  import opened SyncEffect
  import opened FixedPoints

  // ---- Orphans and their return ----

  function Drop(charts: seq<ChartConfig>, removed: set<string>): seq<ChartConfig> {
    if charts == [] then []
    else Drop(charts[..|charts| - 1], removed)
         + if GetAppName(charts[|charts| - 1]) in removed then [] else [charts[|charts| - 1]]
  }

  /** The catalog without the charts of the removed applications. */
  function Without(c: Catalog, removed: set<string>): Catalog {
    if GetHelmCharts(c).None? then c
    else c.(helm := Some(c.helm.value.(charts := Some(Drop(c.helm.value.charts.value, removed)))))
  }

  lemma {:induction false} DropKeeps(charts: seq<ChartConfig>, removed: set<string>, chart: ChartConfig)
    ensures chart in Drop(charts, removed) <==> chart in charts && GetAppName(chart) !in removed
  {
    if charts != [] {
      DropKeeps(charts[..|charts| - 1], removed, chart);
      assert charts == charts[..|charts| - 1] + [charts[|charts| - 1]];
    }
  }

  lemma {:induction false} DropDistinct(charts: seq<ChartConfig>, removed: set<string>)
    requires DistinctNames(charts)
    ensures DistinctNames(Drop(charts, removed))
  {
    if charts != [] {
      var rest, last := charts[..|charts| - 1], charts[|charts| - 1];
      DropDistinct(rest, removed);
      var kept := Drop(rest, removed);
      forall i | 0 <= i < |kept|
        ensures GetAppName(kept[i]) != GetAppName(last)
      {
        DropKeeps(rest, removed, kept[i]);
        assert kept[i] in rest;
        var k :| 0 <= k < |rest| && rest[k] == kept[i];
        assert GetAppName(charts[k]) != GetAppName(charts[|charts| - 1]);
      }
    }
  }

  /** The charts that are not removed convert as before; the removed ones are no longer targets. */
  lemma WithoutCharts(c: Catalog, removed: set<string>, n: string)
    requires DistinctAppNames(c)
    ensures DistinctAppNames(Without(c, removed))
    ensures Waiting(Without(c, removed)) <==> Waiting(c)
    ensures n in Targets(Without(c, removed)) <==> n in Targets(c) && n !in removed
  {
    DropDistinct(Charts(c), removed);
    var c' := Without(c, removed);
    if n in Targets(c') {
      var j := TargetIndex(c', n);
      DropKeeps(Charts(c), removed, Charts(c')[j]);
    }
    if n in Targets(c) && n !in removed {
      var i := TargetIndex(c, n);
      DropKeeps(Charts(c), removed, Charts(c)[i]);
      var j :| 0 <= j < |Charts(c')| && Charts(c')[j] == Charts(c)[i];
      IndexIsTarget(c', j);
    }
  }

  lemma SameConversion(c: Catalog, removed: set<string>, chart: ChartConfig)
    ensures Convert(Without(c, removed), chart) == Convert(c, chart)
  {
  }

  lemma RoundTripAt(sort: VersionSorter, c: Catalog, removed: set<string>, n: string, v: Option<AppDef>)
    requires DistinctAppNames(c) && !Waiting(c)
    requires Local(Calm(sort), c, n, v) == v
    ensures var back := Local(Calm(sort), c, n, Local(Calm(sort), Without(c, removed), n, v));
            back == if n in removed && n in Targets(c) && IsSystem(v) && Labelled(v.value, c.name)
                    then Some(Strip(v.value)) else v
    ensures Local(Calm(sort), Without(c, removed), n, v) == v
            || (v.Some? && Local(Calm(sort), Without(c, removed), n, v) == Some(Strip(v.value)))
  {
    var c' := Without(c, removed);
    WithoutCharts(c, removed, n);
    if n in Targets(c) {
      var i := TargetIndex(c, n);
      LocalTarget(Calm(sort), c, i, v);
      if n in removed {
        if v.Some? && Labelled(v.value, c.name) {
          LocalTarget(Calm(sort), c, i, Some(Strip(v.value)));
          StripFacts(v.value, c.name);
          PromoteRestores(sort, v.value, c, Charts(c)[i]);
        }
      } else {
        var j := TargetIndex(c', n);
        LocalTarget(Calm(sort), c', j, v);
        DropKeeps(Charts(c), removed, Charts(c')[j]);
        ChartOfName(c, i, Charts(c')[j]);
        SameConversion(c, removed, Charts(c)[i]);
      }
    }
  }

  lemma ChartOfName(c: Catalog, i: nat, chart: ChartConfig)
    requires DistinctAppNames(c) && i < |Charts(c)| && chart in Charts(c)
    requires GetAppName(chart) == GetAppName(Charts(c)[i])
    ensures chart == Charts(c)[i]
  {
  }

  lemma WithoutAgrees(c: Catalog, removed: set<string>, n: string, v: Option<AppDef>)
    requires Regular(c) && Agrees(c, n, v)
    ensures Agrees(Without(c, removed), n, v)
  {
    var c' := Without(c, removed);
    WithoutCharts(c, removed, n);
    if n in Targets(c') {
      var i := TargetIndex(c, n);
      var j := TargetIndex(c', n);
      DropKeeps(Charts(c), removed, Charts(c')[j]);
      ChartOfName(c, i, Charts(c')[j]);
      SameConversion(c, removed, Charts(c)[i]);
      assert VersionsOf(c', Charts(c')[j]) == VersionsOf(c, Charts(c)[i]);
      AgreesAt(c, i, v);
      AgreesAt(c', j, v);
    } else {
      AgreesElsewhere(c', n, v);
    }
  }

  /** The effect of the round trip on one definition, when the three sorts are the same or do not matter. */
  lemma RoundTripWithSorts(f: VersionSorter, g: VersionSorter, h: VersionSorter,
                           c: Catalog, removed: set<string>, n: string, v: Option<AppDef>)
    requires Regular(c) && ((g == f && h == f) || Agrees(c, n, v))
    requires Local(Calm(f), c, n, v) == v
    ensures var back := Local(Calm(h), c, n, Local(Calm(g), Without(c, removed), n, v));
            back == if n in removed && n in Targets(c) && IsSystem(v) && Labelled(v.value, c.name)
                    then Some(Strip(v.value)) else v
  {
    if Agrees(c, n, v) {
      var c' := Without(c, removed);
      CalmIsGoal(f, c, n, v);
      RoundTripAt(REFERENCE, c, removed, n, v);
      WithoutCharts(c, removed, n);
      WithoutAgrees(c, removed, n, v);
      CalmIsGoal(g, c', n, v);
      if v.Some? {
        StripFacts(v.value, c.name);
      }
      CalmIsGoal(h, c, n, Goal(c', n, v));
    } else {
      RoundTripAt(f, c, removed, n, v);
    }
  }

  /** From a fixed point of `c`, reconciling `c` without some of its charts and then `c` again gives back exactly the
      original store, versions, customisations and labels included - if and only if no removed application is a
      system application that carried the catalog's label. The reconciles may sort differently where the charts agree
      with the store on versions; elsewhere being a fixed point is itself a matter of the sort, so they share one. */
  lemma OrphanRoundTrip(e0: Env, e1: Env, e2: Env, c: Catalog, removed: set<string>, apps: Apps)
    requires Regular(c)
    requires (e1.sort == e0.sort && e2.sort == e0.sort) || AgreesWith(c, apps)
    requires Clean(e0, c, apps) && Sync(e0, c, apps).apps == apps
    requires Clean(e1, Without(c, removed), apps)
    requires Clean(e2, c, Sync(e1, Without(c, removed), apps).apps)
    ensures Sync(e2, c, Sync(e1, Without(c, removed), apps).apps).apps == apps <==>
            forall n :: n in removed && n in Targets(c) && n in apps && IsSystemApplication(apps[n]) ==>
              !Labelled(apps[n], c.name)
  {
    var mid := Sync(e1, Without(c, removed), apps).apps;
    var back := Sync(e2, c, mid).apps;
    forall n
      ensures Lookup(back, n) ==
              if n in removed && n in Targets(c) && IsSystem(Lookup(apps, n)) && Labelled(apps[n], c.name)
              then Some(Strip(apps[n])) else Lookup(apps, n)
    {
      ReconcileIsLocal(e0, c, apps, n);
      CleanIsCalm(e0, c, apps, n);
      ReconcileIsLocal(e1, Without(c, removed), apps, n);
      CleanIsCalm(e1, Without(c, removed), apps, n);
      ReconcileIsLocal(e2, c, mid, n);
      CleanIsCalm(e2, c, mid, n);
      assert AgreesWith(c, apps) ==> Agrees(c, n, Lookup(apps, n));
      RoundTripWithSorts(e0.sort, e1.sort, e2.sort, c, removed, n, Lookup(apps, n));
    }
    RestoredExactly(c, removed, apps, back);
  }

  lemma RestoredExactly(c: Catalog, removed: set<string>, apps: Apps, back: Apps)
    requires forall n :: Lookup(back, n) ==
               if n in removed && n in Targets(c) && IsSystem(Lookup(apps, n)) && Labelled(apps[n], c.name)
               then Some(Strip(apps[n])) else Lookup(apps, n)
    ensures back == apps <==>
            forall n :: n in removed && n in Targets(c) && n in apps && IsSystemApplication(apps[n]) ==>
              !Labelled(apps[n], c.name)
  {
    if n :| n in removed && n in Targets(c) && n in apps && IsSystemApplication(apps[n]) && Labelled(apps[n], c.name) {
      assert Lookup(back, n) == Some(Strip(apps[n]));
      StripFacts(apps[n], c.name);
    } else {
      SameStore(back, apps);
    }
  }

  /** A definition that the platform manages and that a catalog has marked as its own. */
  function MarkedSystemApp(catalogName: string): AppDef {
    AppDef(
      map[LABEL_SYSTEM := "kkp", LABEL_MANAGED_BY := "true", LABEL_CATALOG_NAME := catalogName],
      map[],
      AppSpec(HELM_METHOD, NO_DISPLAY_INFO, "", None, "", false, false, None, [], ""))
  }

  /** Such a definition is where the round trip fails: the catalog lets go of it and does not take it back. */
  lemma MarkIsNotRestored(sort: VersionSorter, name: string, app: string)
    ensures var c, apps := SingleChart(name, app), map[app := MarkedSystemApp(name)];
            var mid := Sync(Calm(sort), Without(c, {app}), apps).apps;
            && Sync(Calm(sort), c, apps).apps == apps
            && mid == map[app := Strip(MarkedSystemApp(name))]
            && Sync(Calm(sort), c, mid).apps == mid != apps
  {
    var c, apps := SingleChart(name, app), map[app := MarkedSystemApp(name)];
    var c' := Without(c, {app});
    var mid := map[app := Strip(MarkedSystemApp(name))];
    SingleChartTargets(name, app);
    StripFacts(MarkedSystemApp(name), name);
    assert Labelled(MarkedSystemApp(name), name) && IsSystemApplication(MarkedSystemApp(name));
    forall n
      ensures Lookup(Sync(Calm(sort), c, apps).apps, n) == Lookup(apps, n)
      ensures Lookup(Sync(Calm(sort), c', apps).apps, n) == Lookup(mid, n)
      ensures Lookup(Sync(Calm(sort), c, mid).apps, n) == Lookup(mid, n)
    {
      WithoutCharts(c, {app}, n);
      ExactEffectAt(Calm(sort), c, apps, n);
      ExactEffectAt(Calm(sort), c', apps, n);
      ExactEffectAt(Calm(sort), c, mid, n);
      ReconcileIsLocal(Calm(sort), c, apps, n);
      ReconcileIsLocal(Calm(sort), c', apps, n);
      ReconcileIsLocal(Calm(sort), c, mid, n);
    }
    assert apps[app] != mid[app];
    SameStore(Sync(Calm(sort), c, apps).apps, apps);
    SameStore(Sync(Calm(sort), c', apps).apps, mid);
    SameStore(Sync(Calm(sort), c, mid).apps, mid);
  }

  // ---- Different catalogs ----

  lemma {:induction false} ChartsOwnOrSkip(env: Env, c: Catalog, k: nat, n: string, v: Option<AppDef>)
    requires k <= |Charts(c)|
    ensures var u := LocalCharts(env, c, k, n, v);
            u == v || (u.Some? && Owned(u.value, c.name))
  {
    if k > 0 {
      ChartsOwnOrSkip(env, c, k - 1, n, v);
      var u := LocalCharts(env, c, k - 1, n, v);
      var chart := Charts(c)[k - 1];
      PromoteFacts(env.sort, if u.Some? then u.value else Convert(c, chart), c, chart);
    }
  }

  lemma AttemptOwnsOrSkips(env: Env, c: Catalog, i: nat, a: AppDef)
    requires i < |Charts(c)|
    ensures var u := Attempt(env, c, i, Some(a));
            u == Some(a) || (u.Some? && Owned(u.value, c.name))
  {
    PromoteFacts(env.sort, a, c, Charts(c)[i]);
  }

  /** Nothing was written to either of the two, or they have become the same. */
  ghost predicate StripForgotten(c: Catalog, a: AppDef, u: Option<AppDef>, w: Option<AppDef>) {
    (u == Some(a) && w == Some(Strip(a))) || (u == w && u.Some? && Owned(u.value, c.name))
  }

  lemma AttemptForgetsStrip(env: Env, c: Catalog, i: nat, a: AppDef, u: Option<AppDef>, w: Option<AppDef>)
    requires i < |Charts(c)| && StripForgotten(c, a, u, w)
    ensures StripForgotten(c, a, Attempt(env, c, i, u), Attempt(env, c, i, w))
  {
    if u == w {
      AttemptOwnsOrSkips(env, c, i, u.value);
    } else {
      StripFacts(a, c.name);
      PromoteRestores(env.sort, a, c, Charts(c)[i]);
      PromoteFacts(env.sort, a, c, Charts(c)[i]);
    }
  }

  /** Whether the labels were removed before makes no difference once some write went through. */
  lemma {:induction false} ChartsForgetStrip(env: Env, c: Catalog, k: nat, n: string, a: AppDef)
    requires k <= |Charts(c)|
    ensures StripForgotten(c, a, LocalCharts(env, c, k, n, Some(a)), LocalCharts(env, c, k, n, Some(Strip(a))))
  {
    if k > 0 {
      ChartsForgetStrip(env, c, k - 1, n, a);
      var u, w := LocalCharts(env, c, k - 1, n, Some(a)), LocalCharts(env, c, k - 1, n, Some(Strip(a)));
      if GetAppName(Charts(c)[k - 1]) == n {
        AttemptForgetsStrip(env, c, k - 1, a, u, w);
      }
    }
  }

  lemma TargetAgainstOrphan(e1: Env, c1: Catalog, e2: Env, c2: Catalog, n: string, v: Option<AppDef>)
    requires c1.name != c2.name && n in Targets(c1) && n !in Targets(c2)
    ensures Local(e2, c2, n, Local(e1, c1, n, v)) == Local(e1, c1, n, Local(e2, c2, n, v))
  {
    if Proceeds(e1, c1) && Proceeds(e2, c2) {
      ChartsOwnOrSkip(e1, c1, |Charts(c1)|, n, v);
      if v.Some? {
        ChartsForgetStrip(e1, c1, |Charts(c1)|, n, v.value);
      }
    }
  }

  lemma CommuteAt(e1: Env, c1: Catalog, e2: Env, c2: Catalog, n: string, v: Option<AppDef>)
    requires c1.name != c2.name
    requires n in Targets(c1) && n in Targets(c2) ==> IsSystem(v)
    ensures Local(e2, c2, n, Local(e1, c1, n, v)) == Local(e1, c1, n, Local(e2, c2, n, v))
  {
    if n in Targets(c1) && n in Targets(c2) {
      ChartsKeepSystem(e1, c1, |Charts(c1)|, n, v);
      ChartsKeepSystem(e2, c2, |Charts(c2)|, n, v);
    } else if n in Targets(c1) {
      TargetAgainstOrphan(e1, c1, e2, c2, n, v);
    } else if n in Targets(c2) {
      TargetAgainstOrphan(e2, c2, e1, c1, n, v);
    } else if v.Some? {
      StripFacts(v.value, c1.name);
      StripFacts(v.value, c2.name);
    }
  }

  /** Reconciles of different catalogs commute, under any failures, when they share no non-system target. */
  lemma SyncsCommute(e1: Env, c1: Catalog, e2: Env, c2: Catalog, apps: Apps)
    requires c1.name != c2.name
    requires forall n :: n in Targets(c1) && n in Targets(c2) ==> IsSystem(Lookup(apps, n))
    ensures Sync(e2, c2, Sync(e1, c1, apps).apps).apps == Sync(e1, c1, Sync(e2, c2, apps).apps).apps
  {
    var left := Sync(e2, c2, Sync(e1, c1, apps).apps).apps;
    var right := Sync(e1, c1, Sync(e2, c2, apps).apps).apps;
    forall n
      ensures Lookup(left, n) == Lookup(right, n)
    {
      ReconcileIsLocal(e1, c1, apps, n);
      ReconcileIsLocal(e2, c2, Sync(e1, c1, apps).apps, n);
      ReconcileIsLocal(e2, c2, apps, n);
      ReconcileIsLocal(e1, c1, Sync(e2, c2, apps).apps, n);
      CommuteAt(e1, c1, e2, c2, n, Lookup(apps, n));
    }
    SameStore(left, right);
  }

  /** Without failures that condition is exact: a shared non-system target goes to whichever catalog came last. */
  lemma CommuteExactly(f: VersionSorter, g: VersionSorter, c1: Catalog, c2: Catalog, apps: Apps)
    requires c1.name != c2.name && !Waiting(c1) && !Waiting(c2)
    ensures Sync(Calm(g), c2, Sync(Calm(f), c1, apps).apps).apps == Sync(Calm(f), c1, Sync(Calm(g), c2, apps).apps).apps
            <==> forall n :: n in Targets(c1) && n in Targets(c2) ==> IsSystem(Lookup(apps, n))
  {
    if forall n :: n in Targets(c1) && n in Targets(c2) ==> IsSystem(Lookup(apps, n)) {
      SyncsCommute(Calm(f), c1, Calm(g), c2, apps);
    } else {
      var n :| n in Targets(c1) && n in Targets(c2) && !IsSystem(Lookup(apps, n));
      LastOneOwns(f, c1, g, c2, apps, n);
      LastOneOwns(g, c2, f, c1, apps, n);
    }
  }

  lemma LastOneOwns(f: VersionSorter, c1: Catalog, g: VersionSorter, c2: Catalog, apps: Apps, n: string)
    requires !Waiting(c2) && n in Targets(c2) && !IsSystem(Lookup(apps, n))
    ensures var after := Lookup(Sync(Calm(g), c2, Sync(Calm(f), c1, apps).apps).apps, n);
            after.Some? && Owned(after.value, c2.name)
  {
    ReconcileIsLocal(Calm(f), c1, apps, n);
    LocalKeepsSystem(Calm(f), c1, n, Lookup(apps, n));
    ExactEffectAt(Calm(g), c2, Sync(Calm(f), c1, apps).apps, n);
  }
}
