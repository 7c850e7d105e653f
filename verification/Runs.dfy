/** The whole system as a state machine: catalogs are admitted and deleted, and the controller processes requests. */
module Runs {
  import opened CatalogTypes
  import opened Converter
  import opened Sorting
  import opened VersionMerge
  import opened AppUpdate
  import opened Reconciler
  import opened Locality
  import opened Defaulting
  import opened DefaultingLaws
  import opened Validation

  /** `seen` holds every catalog that was ever stored. */
  datatype State = State(apps: Apps, catalogs: map<string, Catalog>, seen: set<Catalog>)

  /** `Submit` is a create or update of a catalog, going through both webhooks.
      `Process` is one reconcile request, whose read of the catalog finds `view`. */
  datatype Step =
    | Submit(sorters: Sorters, defaults: seq<ChartConfig>, listOk: bool, request: Catalog)
    | Remove(name: string)
    | Process(env: Env, name: string, view: Option<Catalog>)

  /** The webhooks let the request through. */
  predicate Admitted(s: State, step: Step)
    requires step.Submit?
  {
    Accepted(step.defaults, step.listOk, Defaulted(step.sorters, step.defaults, step.request), s.apps)
  }

  function Next(s: State, step: Step): State {
    match step
    case Submit(sorters, defaults, _, request) =>
      if Admitted(s, step) then
        var c := Defaulted(sorters, defaults, request);
        s.(catalogs := s.catalogs[c.name := c], seen := s.seen + {c})
      else s
    case Remove(name) => s.(catalogs := s.catalogs - {name})
    case Process(env, name, view) => s.(apps := Reconcile(env, name, view, s.apps).apps)
  }

  /** Resources have names, and the controller's read, which may be stale, finds a version of the catalog that was
      stored at some time, or none. */
  predicate Legal(s: State, step: Step) {
    match step
    case Submit(_, _, _, request) => request.name != ""
    case Remove(_) => true
    case Process(_, name, view) => view.Some? ==> view.value in s.seen && view.value.name == name
  }

  function Exec(s: State, steps: seq<Step>): State
    decreases |steps|
  {
    if |steps| == 0 then s else Exec(Next(s, steps[0]), steps[1..])
  }

  predicate LegalRun(s: State, steps: seq<Step>)
    decreases |steps|
  {
    |steps| == 0 || (Legal(s, steps[0]) && LegalRun(Next(s, steps[0]), steps[1..]))
  }

  /** A create or update request against the cluster: mutate, validate, store. */
  method Admit(cluster: Cluster, sorters: Sorters, defaults: seq<ChartConfig>, listOk: bool, request: Catalog)
    returns (verdict: Verdict)
    modifies cluster`catalogs
    ensures forall seen ::
              var s := State(old(cluster.apps), old(cluster.catalogs), seen);
              var step := Submit(sorters, defaults, listOk, request);
              (verdict.Allowed? <==> Admitted(s, step)) && cluster.catalogs == Next(s, step).catalogs
    ensures cluster.catalogs == if verdict.Allowed?
                                then old(cluster.catalogs)[request.name := Defaulted(sorters, defaults, request)]
                                else old(cluster.catalogs)
  {
    var c := DefaultApplicationCatalog(sorters, defaults, request);
    verdict := HandleValidation(defaults, listOk, c, cluster.apps);
    if verdict.Allowed? {
      cluster.catalogs := cluster.catalogs[c.name := c];
    }
  }

  /** The catalog that a processing step works with. */
  function Effective(name: string, view: Option<Catalog>): Catalog {
    if view.Some? then view.value else Catalog(name, map[], None)
  }

  lemma ProcessIsLocal(env: Env, name: string, view: Option<Catalog>, apps: Apps, n: string)
    ensures Lookup(Reconcile(env, name, view, apps).apps, n) == Local(env, Effective(name, view), n, Lookup(apps, n))
  {
    DeletionIsEmptyCatalog(env, name, apps);
    ReconcileIsLocal(env, Effective(name, view), apps, n);
  }

  // ---- Preservation ----

  /** What no step may take away from a definition. */
  ghost predicate Preserved(a: AppDef, b: AppDef) {
    && Names(a.spec.versions) <= Names(b.spec.versions)
    && b.spec.enforced == a.spec.enforced
    && b.spec.isDefault == a.spec.isDefault
    && b.spec.datacenters == a.spec.datacenters
    && b.spec.defaultVersion == a.spec.defaultVersion
    && (Customised(a.spec.defaultValuesBlock) ==> b.spec.defaultValuesBlock == a.spec.defaultValuesBlock)
    && (forall k :: k != "applicationcatalog.k8c.io/managed-by" && k != "applicationcatalog.k8c.io/catalog-name" ==>
          (k in b.labels <==> k in a.labels) && (k in a.labels ==> b.labels[k] == a.labels[k]))
    && b.annotations == a.annotations
    && ("apps.kubermatic.k8c.io/managed-by" in a.labels ==> b.spec == a.spec)
  }

  ghost predicate PreservedIn(v: Option<AppDef>, u: Option<AppDef>) {
    v.Some? ==> u.Some? && Preserved(v.value, u.value)
  }

  lemma SortKeepsNames(sort: VersionSorter, xs: seq<AppVersion>)
    ensures Names(sort(xs)) == Names(xs)
  {
    assert IsSortOf(VersionKey, xs, sort(xs));
    NamesWithin(xs, sort(xs));
    NamesWithin(sort(xs), xs);
  }

  lemma NamesWithin(xs: seq<AppVersion>, ys: seq<AppVersion>)
    requires multiset(xs) == multiset(ys)
    ensures Names(xs) <= Names(ys)
  {
    SameMembers(xs, ys);
    forall v | v in Names(xs)
      ensures v in Names(ys)
    {
      var i :| 0 <= i < |xs| && xs[i].version == v;
      assert xs[i] in multiset(ys);
      var j :| 0 <= j < |ys| && ys[j] == xs[i];
    }
  }

  lemma PromoteKeepsNames(sort: VersionSorter, a: AppDef, d: AppDef)
    ensures Names(a.spec.versions) <= Names(Promote(sort, a, d).spec.versions)
  {
    MergeOverrides(a.spec.versions, d.spec.versions);
    SortKeepsNames(sort, Merge(a.spec.versions, d.spec.versions));
  }

  lemma PromotePreserves(sort: VersionSorter, a: AppDef, c: Catalog, chart: ChartConfig)
    requires !IsSystemApplication(a)
    ensures Preserved(a, Promote(sort, a, Convert(c, chart)))
  {
    var d := Convert(c, chart);
    PromoteKeepsNames(sort, a, d);
    assert a.annotations + d.annotations == a.annotations;
  }

  lemma PreservedTransitive(v: Option<AppDef>, u: Option<AppDef>, w: Option<AppDef>)
    requires PreservedIn(v, u) && PreservedIn(u, w)
    ensures PreservedIn(v, w)
  {
    SystemLabelIsForeign();
  }

  lemma {:induction false} ChartsPreserve(env: Env, c: Catalog, k: nat, n: string, v: Option<AppDef>)
    requires k <= |Charts(c)|
    ensures PreservedIn(v, LocalCharts(env, c, k, n, v))
  {
    if k > 0 {
      ChartsPreserve(env, c, k - 1, n, v);
      var u := LocalCharts(env, c, k - 1, n, v);
      var w := LocalCharts(env, c, k, n, v);
      if u.Some? && !IsSystem(u) {
        PromotePreserves(env.sort, u.value, c, Charts(c)[k - 1]);
      }
      PreservedTransitive(v, u, w);
    }
  }

  lemma LocalPreserves(env: Env, c: Catalog, n: string, v: Option<AppDef>)
    ensures PreservedIn(v, Local(env, c, n, v))
  {
    ChartsPreserve(env, c, |Charts(c)|, n, v);
  }

  /** Over every run of admissions, deletions and reconciles, failing or not and on stale reads or not: no definition
      disappears, versions only accumulate, and customisations, foreign labels and annotations never change. */
  lemma {:induction false} RunsPreserve(s: State, steps: seq<Step>, n: string)
    ensures PreservedIn(Lookup(s.apps, n), Lookup(Exec(s, steps).apps, n))
    decreases |steps|
  {
    if |steps| > 0 {
      var t := Next(s, steps[0]);
      if steps[0].Process? {
        ProcessIsLocal(steps[0].env, steps[0].name, steps[0].view, s.apps, n);
        LocalPreserves(steps[0].env, Effective(steps[0].name, steps[0].view), n, Lookup(s.apps, n));
      }
      RunsPreserve(t, steps[1..], n);
      PreservedTransitive(Lookup(s.apps, n), Lookup(t.apps, n), Lookup(Exec(s, steps).apps, n));
    }
  }

  lemma LocalOnSystem(env: Env, c: Catalog, n: string, a: AppDef)
    requires IsSystemApplication(a)
    ensures Local(env, c, n, Some(a)) == Some(a) || Local(env, c, n, Some(a)) == Some(Strip(a))
  {
    ChartsKeepSystem(env, c, |Charts(c)|, n, Some(a));
  }

  /** All that can ever happen to a system application is that it loses the catalog labels: no run gives them back. */
  lemma {:induction false} RunsOnlyStripSystem(s: State, steps: seq<Step>, n: string)
    requires n in s.apps && IsSystemApplication(s.apps[n])
    ensures var after := Lookup(Exec(s, steps).apps, n);
            after == Some(s.apps[n]) || after == Some(Strip(s.apps[n]))
    decreases |steps|
  {
    if |steps| > 0 {
      var t := Next(s, steps[0]);
      if steps[0].Process? {
        ProcessIsLocal(steps[0].env, steps[0].name, steps[0].view, s.apps, n);
        LocalOnSystem(steps[0].env, Effective(steps[0].name, steps[0].view), n, s.apps[n]);
      }
      StripFacts(s.apps[n], "");
      RunsOnlyStripSystem(t, steps[1..], n);
    }
  }

  // ---- Provenance ----

  /** The entry was converted from a version of a chart of `c` for the application `n`,
      with URL and credentials of one and the same level. */
  ghost predicate ConvertedFrom(c: Catalog, n: string, x: AppVersion) {
    exists i, j ::
      && 0 <= i < |Charts(c)| && GetAppName(Charts(c)[i]) == n
      && 0 <= j < |Charts(c)[i].chartVersions|
      && x == ConvertVersion(c, Charts(c)[i], Charts(c)[i].chartVersions[j])
      && Coherent(c, Charts(c)[i], Charts(c)[i].chartVersions[j], x)
  }

  ghost predicate Has(v: Option<AppDef>, x: AppVersion) {
    v.Some? && x in v.value.spec.versions
  }

  lemma ConvertedVersions(c: Catalog, i: nat, x: AppVersion)
    requires i < |Charts(c)| && x in VersionsOf(c, Charts(c)[i])
    ensures ConvertedFrom(c, GetAppName(Charts(c)[i]), x)
  {
    var chart := Charts(c)[i];
    var j :| 0 <= j < |chart.chartVersions| && VersionsOf(c, chart)[j] == x;
    ConversionIsCoherent(c, chart, chart.chartVersions[j]);
  }

  lemma WriteProvenance(env: Env, c: Catalog, i: nat, u: Option<AppDef>, x: AppVersion)
    requires i < |Charts(c)| && Has(Attempt(env, c, i, u), x)
    ensures Has(u, x) || x in VersionsOf(c, Charts(c)[i])
  {
    var d := Convert(c, Charts(c)[i]);
    if u.Some? && !Has(u, x) {
      var m := Merge(u.value.spec.versions, d.spec.versions);
      assert IsSortOf(VersionKey, m, env.sort(m));
      assert x in multiset(m);
      MergeProvenance(u.value.spec.versions, d.spec.versions, x);
    }
  }

  lemma {:induction false} ChartsProvenance(env: Env, c: Catalog, k: nat, n: string, v: Option<AppDef>, x: AppVersion)
    requires k <= |Charts(c)| && Has(LocalCharts(env, c, k, n, v), x)
    ensures Has(v, x) || ConvertedFrom(c, n, x)
  {
    if k > 0 {
      var u := LocalCharts(env, c, k - 1, n, v);
      if Has(u, x) {
        ChartsProvenance(env, c, k - 1, n, v, x);
      } else {
        WriteProvenance(env, c, k - 1, u, x);
        ConvertedVersions(c, k - 1, x);
      }
    }
  }

  ghost predicate KnownOrigin(start: Apps, seen: set<Catalog>, n: string, x: AppVersion) {
    Has(Lookup(start, n), x) || exists c :: c in seen && ConvertedFrom(c, n, x)
  }

  ghost predicate AllKnown(start: Apps, s: State) {
    forall n, x :: Has(Lookup(s.apps, n), x) ==> KnownOrigin(start, s.seen, n, x)
  }

  lemma StepProvenance(start: Apps, s: State, step: Step)
    requires Legal(s, step) && AllKnown(start, s)
    ensures AllKnown(start, Next(s, step))
  {
    var t := Next(s, step);
    forall n, x | Has(Lookup(t.apps, n), x)
      ensures KnownOrigin(start, t.seen, n, x)
    {
      var v := Lookup(s.apps, n);
      if step.Process? && !Has(v, x) {
        var c := Effective(step.name, step.view);
        ProcessIsLocal(step.env, step.name, step.view, s.apps, n);
        assert Has(Local(step.env, c, n, v), x);
        assert n in Targets(c);
        ChartsProvenance(step.env, c, |Charts(c)|, n, v, x);
        assert c in s.seen && ConvertedFrom(c, n, x);
      } else {
        assert KnownOrigin(start, s.seen, n, x);
      }
    }
  }

  /** Over every run: each version entry of a stored definition was there at the start, or is the conversion of a chart
      version for that very application in a catalog that was stored at some time. */
  lemma {:induction false} RunsKeepProvenance(start: Apps, s: State, steps: seq<Step>)
    requires LegalRun(s, steps) && AllKnown(start, s)
    ensures AllKnown(start, Exec(s, steps))
    decreases |steps|
  {
    if |steps| > 0 {
      StepProvenance(start, s, steps[0]);
      RunsKeepProvenance(start, Next(s, steps[0]), steps[1..]);
    }
  }

  /** In particular for the store that the run started from. */
  lemma RunsKnowOrigins(s: State, steps: seq<Step>)
    requires LegalRun(s, steps)
    ensures AllKnown(s.apps, Exec(s, steps))
  {
    RunsKeepProvenance(s.apps, s, steps);
  }

  // ---- The waiting branch ----

  /** In every run in which each stored catalog passed mutation, no request makes the controller wait. */
  lemma {:induction false} RunsNeverWait(s: State, steps: seq<Step>, step: Step)
    requires LegalRun(s, steps) && forall c :: c in s.seen ==> !Waiting(c)
    requires step.Process? && Legal(Exec(s, steps), step)
    ensures step.view.Some? ==> !Waiting(step.view.value)
    ensures step.view.Some? && step.view.value.helm.Some? && step.view.value.helm.value.includeDefaults ==>
              step.view.value.helm.value.charts.Some?
    ensures forall c :: c in Exec(s, steps).seen ==> !Waiting(c)
    decreases |steps|
  {
    if |steps| > 0 {
      if steps[0].Submit? {
        DefaultedNeverWaits(steps[0].sorters, steps[0].defaults, steps[0].request);
      }
      RunsNeverWait(Next(s, steps[0]), steps[1..], step);
    }
  }
}
