/** What one reconcile does to the store: its exact effect, failures included. */
module SyncEffect {
  import opened CatalogTypes
  import opened AppUpdate
  import opened Reconciler
  import opened Locality

  /** The reconcile of a catalog reported no error. */
  ghost predicate Clean(env: Env, c: Catalog, apps: Apps) {
    ErrorFree(env, c.name, Some(c), apps)
  }

  /** The same environment with no failing calls. */
  function Calm(sort: VersionSorter): Env {
    Env(sort, (k: Call) => Ok)
  }

  lemma IssuedSucceeds(env: Env, c: Catalog, apps: Apps, k: Call)
    requires Clean(env, c, apps) && IsIssued(env, c, apps, k)
    ensures env.Succeeds(k)
  {
    IssuedCalls(env, c, apps, k);
  }

  lemma CalmAttempt(env: Env, c: Catalog, i: nat, v: Option<AppDef>)
    requires i < |Charts(c)| && env.Succeeds(GetApp(i)) && env.Succeeds(WriteApp(i))
    ensures Attempt(env, c, i, v) == Attempt(Calm(env.sort), c, i, v)
  {
  }

  lemma {:induction false} CalmCharts(env: Env, c: Catalog, k: nat, n: string, v: Option<AppDef>)
    requires k <= |Charts(c)|
    requires forall i :: 0 <= i < |Charts(c)| && GetAppName(Charts(c)[i]) == n ==>
               env.Succeeds(GetApp(i)) && env.Succeeds(WriteApp(i))
    ensures LocalCharts(env, c, k, n, v) == LocalCharts(Calm(env.sort), c, k, n, v)
  {
    if k > 0 {
      CalmCharts(env, c, k - 1, n, v);
      if GetAppName(Charts(c)[k - 1]) == n {
        CalmAttempt(env, c, k - 1, LocalCharts(env, c, k - 1, n, v));
      }
    }
  }

  /** A reconcile that reports no error has the effect of one in which no call can fail. */
  lemma CleanIsCalm(env: Env, c: Catalog, apps: Apps, n: string)
    requires Clean(env, c, apps)
    ensures Local(env, c, n, Lookup(apps, n)) == Local(Calm(env.sort), c, n, Lookup(apps, n))
  {
    var v := Lookup(apps, n);
    IssuedSucceeds(env, c, apps, GetCatalog);
    if !Waiting(c) {
      if n in Targets(c) {
        if IsSystem(v) {
          ChartsKeepSystem(env, c, |Charts(c)|, n, v);
          ChartsKeepSystem(Calm(env.sort), c, |Charts(c)|, n, v);
        } else {
          forall i | 0 <= i < |Charts(c)| && GetAppName(Charts(c)[i]) == n
            ensures env.Succeeds(GetApp(i)) && env.Succeeds(WriteApp(i))
          {
            IssuedSucceeds(env, c, apps, GetApp(i));
            IssuedSucceeds(env, c, apps, WriteApp(i));
          }
          CalmCharts(env, c, |Charts(c)|, n, v);
        }
      } else if v.Some? && Labelled(v.value, c.name) {
        IssuedSucceeds(env, c, apps, ListApps);
        IssuedSucceeds(env, c, apps, Unmanage(n));
      }
    }
  }

  lemma CleanSync(env: Env, c: Catalog, apps: Apps)
    requires Clean(env, c, apps)
    ensures Sync(env, c, apps).apps == Sync(Calm(env.sort), c, apps).apps
  {
    forall n
      ensures Lookup(Sync(env, c, apps).apps, n) == Lookup(Sync(Calm(env.sort), c, apps).apps, n)
    {
      ReconcileIsLocal(env, c, apps, n);
      ReconcileIsLocal(Calm(env.sort), c, apps, n);
      CleanIsCalm(env, c, apps, n);
    }
    SameStore(Sync(env, c, apps).apps, Sync(Calm(env.sort), c, apps).apps);
  }

  // ---- Exact effect ----

  lemma CalmAttemptOwns(sort: VersionSorter, c: Catalog, i: nat, v: Option<AppDef>)
    requires i < |Charts(c)| && !IsSystem(v)
    ensures Attempt(Calm(sort), c, i, v).Some? && Owned(Attempt(Calm(sort), c, i, v).value, c.name)
  {
  }

  lemma {:induction false} CalmTarget(sort: VersionSorter, c: Catalog, k: nat, n: string, v: Option<AppDef>)
    requires k <= |Charts(c)| && !IsSystem(v)
    requires exists i :: 0 <= i < k && GetAppName(Charts(c)[i]) == n
    ensures LocalCharts(Calm(sort), c, k, n, v).Some?
    ensures Owned(LocalCharts(Calm(sort), c, k, n, v).value, c.name)
  {
    var u := LocalCharts(Calm(sort), c, k - 1, n, v);
    ChartsKeepSystem(Calm(sort), c, k - 1, n, v);
    if GetAppName(Charts(c)[k - 1]) == n {
      CalmAttemptOwns(sort, c, k - 1, u);
    } else {
      CalmTarget(sort, c, k - 1, n, v);
    }
  }

  /** The effect of an error-free reconcile on one definition, read off the store before it. */
  lemma ExactEffectAt(env: Env, c: Catalog, apps: Apps, n: string)
    requires Clean(env, c, apps) && !Waiting(c)
    ensures var before, after := Lookup(apps, n), Lookup(Sync(env, c, apps).apps, n);
            && (n in Targets(c) && !IsSystem(before) ==> after.Some? && Owned(after.value, c.name))
            && (n in Targets(c) && IsSystem(before) ==> after == before)
            && (n in Orphans(apps, c.name, Targets(c)) ==> after == Some(Strip(apps[n])))
            && (n !in Targets(c) && n !in Orphans(apps, c.name, Targets(c)) ==> after == before)
  {
    var v := Lookup(apps, n);
    ReconcileIsLocal(env, c, apps, n);
    CleanIsCalm(env, c, apps, n);
    if n in Targets(c) {
      if IsSystem(v) {
        ChartsKeepSystem(Calm(env.sort), c, |Charts(c)|, n, v);
      } else {
        var i := TargetIndex(c, n);
        CalmTarget(env.sort, c, |Charts(c)|, n, v);
      }
    }
  }

  /** After an error-free reconcile the definitions labelled with the catalog are exactly its non-system targets and
      those system targets that already were; orphans lose exactly the two catalog labels; nothing else changes. */
  lemma ExactEffect(env: Env, c: Catalog, apps: Apps)
    requires Clean(env, c, apps) && !Waiting(c)
    ensures var after := Sync(env, c, apps).apps;
            && after.Keys == apps.Keys + Targets(c)
            && (forall n :: n in after && Labelled(after[n], c.name) <==>
                  n in Targets(c) && (IsSystem(Lookup(apps, n)) ==> Labelled(apps[n], c.name)))
            && (forall n :: n in Targets(c) && !IsSystem(Lookup(apps, n)) ==> n in after && Owned(after[n], c.name))
            && (forall n :: n in Targets(c) && IsSystem(Lookup(apps, n)) ==> n in after && after[n] == apps[n])
            && (forall n :: n in Orphans(apps, c.name, Targets(c)) ==> n in after && after[n] == Strip(apps[n]))
            && (forall n :: n in apps && n !in Targets(c) && !Labelled(apps[n], c.name) ==>
                  n in after && after[n] == apps[n])
  {
    var after := Sync(env, c, apps).apps;
    forall n
      ensures n in after <==> n in apps || n in Targets(c)
      ensures n in after && Labelled(after[n], c.name) <==>
              n in Targets(c) && (IsSystem(Lookup(apps, n)) ==> Labelled(apps[n], c.name))
    {
      ExactEffectAt(env, c, apps, n);
      if n in apps {
        StripFacts(apps[n], c.name);
      }
    }
    forall n
      ensures n in Targets(c) && !IsSystem(Lookup(apps, n)) ==> n in after && Owned(after[n], c.name)
      ensures n in Targets(c) && IsSystem(Lookup(apps, n)) ==> n in after && after[n] == apps[n]
      ensures n in Orphans(apps, c.name, Targets(c)) ==> n in after && after[n] == Strip(apps[n])
      ensures n in apps && n !in Targets(c) && !Labelled(apps[n], c.name) ==> n in after && after[n] == apps[n]
    {
      ExactEffectAt(env, c, apps, n);
    }
  }

  // ---- Failures ----

  /** Under any pattern of failing calls, every definition ends untouched or exactly as without failures;
      a target is never unmanaged; and a definition whose read or write was refused is untouched. */
  lemma FailureIsolation(env: Env, c: Catalog, apps: Apps, n: string)
    requires DistinctAppNames(c)
    ensures var before, after := Lookup(apps, n), Lookup(Sync(env, c, apps).apps, n);
            && (after == before || after == Lookup(Sync(Calm(env.sort), c, apps).apps, n))
            && (n in Targets(c) && before.Some? && Labelled(before.value, c.name) ==>
                  after.Some? && Labelled(after.value, c.name))
    ensures forall i :: 0 <= i < |Charts(c)| && GetAppName(Charts(c)[i]) == n
                        && (env.outcome(GetApp(i)) != Ok || env.outcome(WriteApp(i)) == Rejected) ==>
                          Lookup(Sync(env, c, apps).apps, n) == Lookup(apps, n)
  {
    var v := Lookup(apps, n);
    ReconcileIsLocal(env, c, apps, n);
    ReconcileIsLocal(Calm(env.sort), c, apps, n);
    if Proceeds(env, c) && n in Targets(c) {
      var i := TargetIndex(c, n);
      LocalTarget(env, c, i, v);
      LocalTarget(Calm(env.sort), c, i, v);
      if v.Some? {
        PromoteFacts(env.sort, v.value, c, Charts(c)[i]);
      }
      forall j | 0 <= j < |Charts(c)| && GetAppName(Charts(c)[j]) == n
        ensures j == i
      {
        assert !(i < j) && !(j < i);
      }
    } else {
      forall j | 0 <= j < |Charts(c)| && GetAppName(Charts(c)[j]) == n
        ensures Lookup(Sync(env, c, apps).apps, n) == v
      {
        IndexIsTarget(c, j);
      }
    }
  }
}
