/** The reconcile loop (internal/controllers/synchronizer/reconciler.go): first as a function of the store and of
    the outcome of every API call, then as the imperative controller that computes it. */
module Reconciler {
  import opened CatalogTypes
  import opened Converter
  import opened AppUpdate

  /** What became of an API call. `Lost` is a write that took effect although an error was reported. */
  datatype Outcome = Ok | Rejected | Lost

  /** The API calls of one reconcile. Charts are identified by their position in the catalog. */
  datatype Call =
    | GetCatalog
    | GetApp(index: nat)
    | WriteApp(index: nat)
    | ListApps
    | Unmanage(app: string)

  /** Everything that a reconcile does not control. */
  datatype Env = Env(sort: VersionSorter, outcome: Call -> Outcome) {
    predicate Succeeds(k: Call) { outcome(k).Ok? }
    predicate TakesEffect(k: Call) { !outcome(k).Rejected? }
  }

  /** The store after (part of) a reconcile, and the calls issued to get there. */
  datatype Report = Report(apps: Apps, issued: set<Call>)

  // ---- Reconcile as a function ----

  function Write(env: Env, k: Call, name: string, a: AppDef, r: Report): Report {
    Report(if env.TakesEffect(k) then r.apps[name := a] else r.apps, r.issued + {k})
  }

  function ReconcileChart(env: Env, c: Catalog, i: nat, r: Report): Report
    requires i < |Charts(c)|
  {
    var name, desired := GetAppName(Charts(c)[i]), Convert(c, Charts(c)[i]);
    var read := Report(r.apps, r.issued + {GetApp(i)});
    if !env.Succeeds(GetApp(i)) then read
    else if name !in r.apps then Write(env, WriteApp(i), name, desired, read)
    else if IsSystemApplication(r.apps[name]) then read
    else Write(env, WriteApp(i), name, Promote(env.sort, r.apps[name], desired), read)
  }

  /** The effect of the first `k` charts. */
  function ReconcileCharts(env: Env, c: Catalog, k: nat, r: Report): Report
    requires k <= |Charts(c)|
  {
    if k == 0 then r else ReconcileChart(env, c, k - 1, ReconcileCharts(env, c, k - 1, r))
  }

  /** The definitions that carry the catalog's label without being generated by it. */
  function Orphans(apps: Apps, catalogName: string, generated: set<string>): set<string> {
    set n | n in apps && Labelled(apps[n], catalogName) && n !in generated
  }

  /** The store after the patches for `orphans`. */
  function Unmanaged(env: Env, apps: Apps, orphans: set<string>): Apps {
    map n | n in apps :: if n in orphans && env.TakesEffect(Unmanage(n)) then Strip(apps[n]) else apps[n]
  }

  function UnmanageCalls(orphans: set<string>): set<Call> {
    set n | n in orphans :: Unmanage(n)
  }

  lemma UnmanageStep(env: Env, apps: Apps, done: set<string>, name: string)
    requires name in apps
    ensures Unmanaged(env, apps, done + {name}) ==
            if env.TakesEffect(Unmanage(name)) then Unmanaged(env, apps, done)[name := Strip(apps[name])]
            else Unmanaged(env, apps, done)
    ensures UnmanageCalls(done + {name}) == UnmanageCalls(done) + {Unmanage(name)}
  {
  }

  function UnmanageOrphans(env: Env, catalogName: string, generated: set<string>, r: Report): Report {
    var listed := r.issued + {ListApps};
    if !env.Succeeds(ListApps) then Report(r.apps, listed)
    else
      var orphans := Orphans(r.apps, catalogName, generated);
      Report(Unmanaged(env, r.apps, orphans), listed + UnmanageCalls(orphans))
  }

  /** A whole reconcile request for `name`; `view` is what the read of the catalog finds. */
  function Reconcile(env: Env, name: string, view: Option<Catalog>, apps: Apps): Report {
    var start := Report(apps, {GetCatalog});
    if !env.Succeeds(GetCatalog) then start
    else
      match view
      case None => UnmanageOrphans(env, name, {}, start)
      case Some(c) =>
        if Waiting(c) then start
        else UnmanageOrphans(env, c.name, Targets(c), ReconcileCharts(env, c, |Charts(c)|, start))
  }

  /** The reconcile reported no error: every call it issued succeeded. */
  ghost predicate ErrorFree(env: Env, name: string, view: Option<Catalog>, apps: Apps) {
    forall k :: k in Reconcile(env, name, view, apps).issued ==> env.Succeeds(k)
  }

  // ---- The controller ----

  datatype Result = Done | Requeue | Failed(errs: set<Call>)

  class Cluster {
    var apps: Apps
    var catalogs: map<string, Catalog>
    /** The calls that reached the API in the current reconcile. */
    var issued: set<Call>

    constructor (apps: Apps, catalogs: map<string, Catalog>)
      ensures this.apps == apps && this.catalogs == catalogs && this.issued == {}
    {
      this.apps, this.catalogs, this.issued := apps, catalogs, {};
    }

    /** The observable state, in the terms of the functions above. */
    ghost function State(): Report
      reads this
    {
      Report(apps, issued)
    }

    /** A write to the API: create or patch. */
    method Put(env: Env, k: Call, name: string, a: AppDef) returns (ok: bool)
      modifies this`apps, this`issued
      ensures State() == Write(env, k, name, a, old(State()))
      ensures apps == if env.outcome(k) == Rejected then old(apps) else old(apps)[name := a]
      ensures ok <==> env.outcome(k) == Ok
    {
      issued := issued + {k};
      if env.outcome(k) != Rejected {
        apps := apps[name := a];
      }
      ok := env.outcome(k) == Ok;
    }

    /** Creates or updates one definition. The error, if any, is exactly the call that failed. */
    method ReconcileApplicationDefinition(env: Env, ghost c: Catalog, i: nat, name: string, desired: AppDef)
      returns (err: Option<Call>)
      requires i < |Charts(c)| && name == GetAppName(Charts(c)[i]) && desired == Convert(c, Charts(c)[i])
      modifies this`apps, this`issued
      ensures State() == ReconcileChart(env, c, i, old(State()))
      ensures forall k ::
                k in issued && !env.Succeeds(k) <==> (k in old(issued) && !env.Succeeds(k)) || err == Some(k)
    {
      issued := issued + {GetApp(i)};
      if env.outcome(GetApp(i)) != Ok {
        return Some(GetApp(i));
      }
      var ok := true;
      if name !in apps {
        ok := Put(env, WriteApp(i), name, desired);
      } else if !IsSystemApplication(apps[name]) {
        var patched := UpdateApplicationDefinition(env.sort, apps[name], desired);
        ok := Put(env, WriteApp(i), name, patched);
      }
      err := if ok then None else Some(WriteApp(i));
    }

    /** Removes the catalog labels from every listed definition that was not generated,
        in whatever order the list call returned them. */
    method UnmanageListed(env: Env, catalogName: string, generated: set<string>) returns (errs: set<Call>)
      modifies this`apps, this`issued
      ensures State() == UnmanageOrphans(env, catalogName, generated, old(State()))
      ensures forall k ::
                k in issued && !env.Succeeds(k) <==> (k in old(issued) && !env.Succeeds(k)) || k in errs
    {
      issued := issued + {ListApps};
      if env.outcome(ListApps) != Ok {
        return {ListApps};
      }
      var items := map n | n in apps && Labelled(apps[n], catalogName) :: apps[n];
      var todo := items.Keys;
      errs := {};
      ghost var done: set<string> := {};
      assert Unmanaged(env, apps, done) == apps;
      while todo != {}
        invariant todo <= items.Keys
        invariant done == items.Keys - generated - todo
        invariant apps == Unmanaged(env, old(apps), done)
        invariant issued == old(issued) + {ListApps} + UnmanageCalls(done)
        invariant forall k ::
                    k in issued && !env.Succeeds(k) <==> (k in old(issued) && !env.Succeeds(k)) || k in errs
        decreases todo
      {
        var name :| name in todo;
        todo := todo - {name};
        if name !in generated {
          UnmanageStep(env, old(apps), done, name);
          var ok := Put(env, Unmanage(name), name, Strip(items[name]));
          if !ok {
            errs := errs + {Unmanage(name)};
          }
          done := done + {name};
        }
      }
      assert done == Orphans(old(apps), catalogName, generated);
    }

    /** One reconcile request. An error is reported exactly when some issued call failed. */
    method HandleRequest(env: Env, name: string) returns (result: Result)
      requires name in catalogs ==> catalogs[name].name == name
      modifies this`apps, this`issued
      ensures State() == Reconcile(env, name, Lookup(catalogs, name), old(apps))
      ensures result.Failed? <==> exists k :: k in issued && env.outcome(k) != Ok
      ensures result.Failed? ==> forall k :: k in result.errs <==> k in issued && env.outcome(k) != Ok
      ensures env.outcome(GetCatalog) != Ok ==> result == Failed({GetCatalog}) && apps == old(apps)
      ensures result.Requeue? <==>
                && env.outcome(GetCatalog) == Ok && name in catalogs
                && catalogs[name].helm.Some? && catalogs[name].helm.value.includeDefaults
                && catalogs[name].helm.value.charts == None
      ensures result.Requeue? ==> apps == old(apps)
    {
      issued := {GetCatalog};
      var errs: set<Call> := {};
      if env.outcome(GetCatalog) != Ok {
        assert GetCatalog in issued && !env.Succeeds(GetCatalog);
        return Failed({GetCatalog});
      }
      if name !in catalogs {
        errs := UnmanageListed(env, name, {});
      } else {
        var catalog := catalogs[name];
        if Waiting(catalog) {
          return Requeue;
        }
        var charts := if GetHelmCharts(catalog).Some? then GetHelmCharts(catalog).value else [];
        var generatedApps: set<string> := {};
        for i := 0 to |charts|
          invariant State() == ReconcileCharts(env, catalog, i, Report(old(apps), {GetCatalog}))
          invariant generatedApps == set j | 0 <= j < i :: GetAppName(charts[j])
          invariant forall k :: k in errs <==> k in issued && !env.Succeeds(k)
        {
          var app, desired := ConvertChartToApplicationDefinition(catalog, charts[i]);
          generatedApps := generatedApps + {app};
          var err := ReconcileApplicationDefinition(env, catalog, i, app, desired);
          if err.Some? {
            errs := errs + {err.value};
          }
        }
        assert generatedApps == Targets(catalog);
        var orphanErrs := UnmanageListed(env, catalog.name, generatedApps);
        errs := errs + orphanErrs;
      }
      if errs == {} {
        result := Done;
        assert forall k :: k in issued ==> k !in errs;
      } else {
        result := Failed(errs);
        var k :| k in errs;
        assert k in issued && !env.Succeeds(k);
      }
    }
  }
}
