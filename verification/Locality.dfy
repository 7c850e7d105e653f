/** Reconcile acts on each definition separately: what it does to the definition called `n` depends only on that
    definition, on the catalog and on the outcomes of the calls. Everything else about reconcile rests on this. */
module Locality {
  import opened CatalogTypes
  import opened Converter
  import opened AppUpdate
  import opened Reconciler

  function Sync(env: Env, c: Catalog, apps: Apps): Report {
    Reconcile(env, c.name, Some(c), apps)
  }

  predicate Proceeds(env: Env, c: Catalog) {
    env.Succeeds(GetCatalog) && !Waiting(c)
  }

  /** What a successful create-or-update leaves behind. */
  function WriteOnce(sort: VersionSorter, desired: AppDef, v: Option<AppDef>): Option<AppDef> {
    if v.None? then Some(desired)
    else if IsSystem(v) then v
    else Some(Promote(sort, v.value, desired))
  }

  function Attempt(env: Env, c: Catalog, i: nat, v: Option<AppDef>): Option<AppDef>
    requires i < |Charts(c)|
  {
    if env.Succeeds(GetApp(i)) && env.TakesEffect(WriteApp(i)) then WriteOnce(env.sort, Convert(c, Charts(c)[i]), v)
    else v
  }

  function LocalCharts(env: Env, c: Catalog, k: nat, n: string, v: Option<AppDef>): Option<AppDef>
    requires k <= |Charts(c)|
  {
    if k == 0 then v
    else
      var u := LocalCharts(env, c, k - 1, n, v);
      if GetAppName(Charts(c)[k - 1]) == n then Attempt(env, c, k - 1, u) else u
  }

  function LocalOrphan(env: Env, catalogName: string, n: string, v: Option<AppDef>): Option<AppDef> {
    if v.Some? && Labelled(v.value, catalogName) && env.Succeeds(ListApps) && env.TakesEffect(Unmanage(n))
    then Some(Strip(v.value)) else v
  }

  /** The effect of a reconcile of `c` on the definition called `n`. */
  function Local(env: Env, c: Catalog, n: string, v: Option<AppDef>): Option<AppDef> {
    if !Proceeds(env, c) then v
    else if n in Targets(c) then LocalCharts(env, c, |Charts(c)|, n, v)
    else LocalOrphan(env, c.name, n, v)
  }

  lemma ChartIsLocal(env: Env, c: Catalog, i: nat, r: Report, n: string)
    requires i < |Charts(c)|
    ensures Lookup(ReconcileChart(env, c, i, r).apps, n) ==
            if GetAppName(Charts(c)[i]) == n then Attempt(env, c, i, Lookup(r.apps, n)) else Lookup(r.apps, n)
  {
  }

  lemma {:induction false} ChartsAreLocal(env: Env, c: Catalog, k: nat, r: Report, n: string)
    requires k <= |Charts(c)|
    ensures Lookup(ReconcileCharts(env, c, k, r).apps, n) == LocalCharts(env, c, k, n, Lookup(r.apps, n))
  {
    if k > 0 {
      ChartsAreLocal(env, c, k - 1, r, n);
      ChartIsLocal(env, c, k - 1, ReconcileCharts(env, c, k - 1, r), n);
    }
  }

  lemma {:induction false} NonTargetsAreLeftAlone(env: Env, c: Catalog, k: nat, n: string, v: Option<AppDef>)
    requires k <= |Charts(c)| && n !in Targets(c)
    ensures LocalCharts(env, c, k, n, v) == v
  {
    if k > 0 {
      NonTargetsAreLeftAlone(env, c, k - 1, n, v);
      IndexIsTarget(c, k - 1);
    }
  }

  lemma OrphansAreLocal(env: Env, name: string, generated: set<string>, r: Report, n: string)
    ensures Lookup(UnmanageOrphans(env, name, generated, r).apps, n) ==
            if n in generated then Lookup(r.apps, n) else LocalOrphan(env, name, n, Lookup(r.apps, n))
  {
  }

  /** Locality, for every catalog, every store and every pattern of failing calls. */
  lemma ReconcileIsLocal(env: Env, c: Catalog, apps: Apps, n: string)
    ensures Lookup(Sync(env, c, apps).apps, n) == Local(env, c, n, Lookup(apps, n))
  {
    if Proceeds(env, c) {
      var start := Report(apps, {GetCatalog});
      ChartsAreLocal(env, c, |Charts(c)|, start, n);
      OrphansAreLocal(env, c.name, Targets(c), ReconcileCharts(env, c, |Charts(c)|, start), n);
      if n !in Targets(c) {
        NonTargetsAreLeftAlone(env, c, |Charts(c)|, n, Lookup(apps, n));
      }
    }
  }

  /** Deleting a catalog has the effect of reconciling an empty catalog of that name. */
  lemma DeletionIsEmptyCatalog(env: Env, name: string, apps: Apps)
    ensures Reconcile(env, name, None, apps) == Sync(env, Catalog(name, map[], None), apps)
  {
  }

  /** With distinct application names each target is handled by exactly one chart. */
  lemma {:induction false} OneChartPerTarget(env: Env, c: Catalog, k: nat, i: nat, v: Option<AppDef>)
    requires DistinctAppNames(c) && k <= |Charts(c)| && i < |Charts(c)|
    ensures LocalCharts(env, c, k, GetAppName(Charts(c)[i]), v) == if i < k then Attempt(env, c, i, v) else v
  {
    if k > 0 {
      OneChartPerTarget(env, c, k - 1, i, v);
      if k - 1 < i {
        assert GetAppName(Charts(c)[k - 1]) != GetAppName(Charts(c)[i]);
      } else if i < k - 1 {
        assert GetAppName(Charts(c)[i]) != GetAppName(Charts(c)[k - 1]);
      }
    }
  }

  lemma LocalTarget(env: Env, c: Catalog, i: nat, v: Option<AppDef>)
    requires DistinctAppNames(c) && i < |Charts(c)| && Proceeds(env, c)
    ensures Local(env, c, GetAppName(Charts(c)[i]), v) == Attempt(env, c, i, v)
  {
    IndexIsTarget(c, i);
    OneChartPerTarget(env, c, |Charts(c)|, i, v);
  }

  // ---- Which calls are issued ----

  lemma AttemptKeepsSystem(env: Env, c: Catalog, i: nat, v: Option<AppDef>)
    requires i < |Charts(c)|
    ensures IsSystem(Attempt(env, c, i, v)) <==> IsSystem(v)
    ensures IsSystem(v) ==> Attempt(env, c, i, v) == v
  {
  }

  lemma {:induction false} ChartsKeepSystem(env: Env, c: Catalog, k: nat, n: string, v: Option<AppDef>)
    requires k <= |Charts(c)|
    ensures IsSystem(LocalCharts(env, c, k, n, v)) <==> IsSystem(v)
    ensures IsSystem(v) ==> LocalCharts(env, c, k, n, v) == v
  {
    if k > 0 {
      ChartsKeepSystem(env, c, k - 1, n, v);
      AttemptKeepsSystem(env, c, k - 1, LocalCharts(env, c, k - 1, n, v));
    }
  }

  /** A reconcile never makes a definition a system application, nor stops it being one. */
  lemma LocalKeepsSystem(env: Env, c: Catalog, n: string, v: Option<AppDef>)
    ensures IsSystem(Local(env, c, n, v)) <==> IsSystem(v)
  {
    ChartsKeepSystem(env, c, |Charts(c)|, n, v);
    if v.Some? {
      StripFacts(v.value, c.name);
    }
  }

  /** The calls of a reconcile, told from the store before it. */
  ghost predicate IsIssued(env: Env, c: Catalog, apps: Apps, k: Call) {
    match k
    case GetCatalog => true
    case GetApp(i) => Proceeds(env, c) && i < |Charts(c)|
    case WriteApp(i) =>
      Proceeds(env, c) && i < |Charts(c)| && env.Succeeds(GetApp(i))
      && !IsSystem(Lookup(apps, GetAppName(Charts(c)[i])))
    case ListApps => Proceeds(env, c)
    case Unmanage(n) =>
      Proceeds(env, c) && env.Succeeds(ListApps) && n in Orphans(apps, c.name, Targets(c))
  }

  lemma ChartCall(env: Env, c: Catalog, i: nat, r: Report, call: Call)
    requires i < |Charts(c)|
    ensures call in ReconcileChart(env, c, i, r).issued <==>
            || call in r.issued
            || call == GetApp(i)
            || (call == WriteApp(i) && env.Succeeds(GetApp(i)) && !IsSystem(Lookup(r.apps, GetAppName(Charts(c)[i]))))
  {
  }

  /** The calls issued by the time the first `k` charts are done. */
  ghost predicate IssuedBy(env: Env, c: Catalog, apps: Apps, k: nat, call: Call) {
    || call == GetCatalog
    || (call.GetApp? && call.index < k)
    || (call.WriteApp? && call.index < k && IsIssued(env, c, apps, call))
  }

  lemma NextChartCalls(env: Env, c: Catalog, i: nat, apps: Apps, r: Report, call: Call)
    requires i < |Charts(c)| && Proceeds(env, c)
    requires call in r.issued <==> IssuedBy(env, c, apps, i, call)
    requires IsSystem(Lookup(r.apps, GetAppName(Charts(c)[i]))) <==> IsSystem(Lookup(apps, GetAppName(Charts(c)[i])))
    ensures call in ReconcileChart(env, c, i, r).issued <==> IssuedBy(env, c, apps, i + 1, call)
  {
    ChartCall(env, c, i, r, call);
  }

  lemma {:induction false} ChartCalls(env: Env, c: Catalog, k: nat, apps: Apps, call: Call)
    requires k <= |Charts(c)| && Proceeds(env, c)
    ensures call in ReconcileCharts(env, c, k, Report(apps, {GetCatalog})).issued <==> IssuedBy(env, c, apps, k, call)
  {
    if k > 0 {
      var r, n := ReconcileCharts(env, c, k - 1, Report(apps, {GetCatalog})), GetAppName(Charts(c)[k - 1]);
      ChartCalls(env, c, k - 1, apps, call);
      ChartsAreLocal(env, c, k - 1, Report(apps, {GetCatalog}), n);
      ChartsKeepSystem(env, c, k - 1, n, Lookup(apps, n));
      NextChartCalls(env, c, k - 1, apps, r, call);
    }
  }

  /** Exactly which calls a reconcile issues. */
  lemma IssuedCalls(env: Env, c: Catalog, apps: Apps, k: Call)
    ensures k in Sync(env, c, apps).issued <==> IsIssued(env, c, apps, k)
  {
    if Proceeds(env, c) {
      ChartCalls(env, c, |Charts(c)|, apps, k);
      var r := ReconcileCharts(env, c, |Charts(c)|, Report(apps, {GetCatalog}));
      if k.Unmanage? {
        ChartsAreLocal(env, c, |Charts(c)|, Report(apps, {GetCatalog}), k.app);
        if k.app !in Targets(c) {
          NonTargetsAreLeftAlone(env, c, |Charts(c)|, k.app, Lookup(apps, k.app));
        }
        assert k.app in Orphans(r.apps, c.name, Targets(c)) <==> k.app in Orphans(apps, c.name, Targets(c)) by {
          assert k.app !in Targets(c) ==> Lookup(r.apps, k.app) == Lookup(apps, k.app);
        }
      }
    }
  }
}
