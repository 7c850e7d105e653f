/** What a reconcile does, told on the fields of the resources and the labels as they are written in the cluster,
    without any of the functions that the controller is made of. */
module PlainTerms {
  import opened CatalogTypes
  import opened LexOrder
  import opened Sorting
  import opened Converter
  import opened VersionMerge
  import opened AppUpdate
  import opened Reconciler
  import opened Locality
  import opened SyncEffect

  /** Defaults were requested, and the chart list is missing. */
  ghost predicate AwaitsDefaults(c: Catalog) {
    c.helm.Some? && c.helm.value.includeDefaults && c.helm.value.charts == None
  }

  ghost predicate ClaimsApp(c: Catalog, app: string) {
    c.helm.Some? && c.helm.value.charts.Some?
    && exists i :: 0 <= i < |c.helm.value.charts.value| && GoesBy(c.helm.value.charts.value[i], app)
  }

  /** The platform manages the definition itself; the value of the label does not matter. */
  ghost predicate PlatformManaged(v: Option<AppDef>) {
    v.Some? && "apps.kubermatic.k8c.io/managed-by" in v.value.labels
  }

  ghost predicate HasLabel(a: AppDef, key: string, value: string) {
    key in a.labels && a.labels[key] == value
  }

  /** Both catalog labels are gone; every other label, the annotations and the specification are as before. */
  ghost predicate Released(a: AppDef, b: AppDef) {
    && "applicationcatalog.k8c.io/managed-by" !in b.labels
    && "applicationcatalog.k8c.io/catalog-name" !in b.labels
    && (forall k :: k != "applicationcatalog.k8c.io/managed-by" && k != "applicationcatalog.k8c.io/catalog-name" ==>
          (k in b.labels <==> k in a.labels) && (k in a.labels ==> b.labels[k] == a.labels[k]))
    && b.annotations == a.annotations
    && b.spec == a.spec
  }

  ghost predicate NothingFailed(env: Env, r: Report) {
    forall k :: k in r.issued ==> env.outcome(k) == Ok
  }

  lemma ClaimsExactly(c: Catalog, app: string)
    ensures app in Targets(c) <==> ClaimsApp(c, app)
  {
    if app in Targets(c) {
      var i := TargetIndex(c, app);
      assert GoesBy(c.helm.value.charts.value[i], app);
    }
    if ClaimsApp(c, app) {
      var i :| 0 <= i < |c.helm.value.charts.value| && GoesBy(c.helm.value.charts.value[i], app);
      assert c.helm.value.charts.value[i] == Charts(c)[i];
      IndexIsTarget(c, i);
    }
  }

  /** While the webhook has not filled in the defaults, a reconcile reads the catalog and does nothing else. */
  lemma AwaitingChangesNothing(env: Env, name: string, c: Catalog, apps: Apps)
    requires AwaitsDefaults(c)
    ensures Reconcile(env, name, Some(c), apps).apps == apps
    ensures Reconcile(env, name, Some(c), apps).issued == {GetCatalog}
  {
  }

  lemma StripReleases(a: AppDef)
    ensures Released(a, Strip(a))
  {
    assert CATALOG_LABELS == {"applicationcatalog.k8c.io/managed-by", "applicationcatalog.k8c.io/catalog-name"};
  }

  /** An error-free reconcile of any other catalog: what it claims carries its labels, unless the platform manages it;
      what it does not claim any more is released; everything else is untouched. */
  lemma PlainEffect(env: Env, c: Catalog, apps: Apps, n: string)
    requires NothingFailed(env, Reconcile(env, c.name, Some(c), apps)) && !AwaitsDefaults(c)
    ensures var before, after := Lookup(apps, n), Lookup(Reconcile(env, c.name, Some(c), apps).apps, n);
            && (ClaimsApp(c, n) && !PlatformManaged(before) ==>
                  && after.Some?
                  && HasLabel(after.value, "applicationcatalog.k8c.io/managed-by", "true")
                  && HasLabel(after.value, "applicationcatalog.k8c.io/catalog-name", c.name))
            && (ClaimsApp(c, n) && PlatformManaged(before) ==> after == before)
            && (!ClaimsApp(c, n) && before.Some?
                && HasLabel(before.value, "applicationcatalog.k8c.io/catalog-name", c.name) ==>
                  after.Some? && Released(before.value, after.value))
            && (!ClaimsApp(c, n)
                && (before.None? || !HasLabel(before.value, "applicationcatalog.k8c.io/catalog-name", c.name)) ==>
                  after == before)
  {
    ClaimsExactly(c, n);
    ExactEffectAt(env, c, apps, n);
    if n in apps {
      StripReleases(apps[n]);
    }
  }

  /** After the deletion of a catalog, everything that carries its name is released. */
  lemma PlainDeletion(env: Env, name: string, apps: Apps, n: string)
    requires NothingFailed(env, Reconcile(env, name, None, apps))
    ensures var before, after := Lookup(apps, n), Lookup(Reconcile(env, name, None, apps).apps, n);
            && (before.Some? && HasLabel(before.value, "applicationcatalog.k8c.io/catalog-name", name) ==>
                  after.Some? && Released(before.value, after.value))
            && (before.None? || !HasLabel(before.value, "applicationcatalog.k8c.io/catalog-name", name) ==>
                  after == before)
  {
    var c := Catalog(name, map[], None);
    DeletionIsEmptyCatalog(env, name, apps);
    PlainEffect(env, c, apps, n);
  }

  /** Without the catalog nothing happens; without the list, or if its patch is refused, a definition that the catalog
      does not claim is left alone. */
  lemma FailedCallsChangeNothing(env: Env, c: Catalog, apps: Apps, n: string)
    ensures env.outcome(GetCatalog) != Ok ==> Reconcile(env, c.name, Some(c), apps) == Report(apps, {GetCatalog})
    ensures !ClaimsApp(c, n) && (env.outcome(ListApps) != Ok || env.outcome(Unmanage(n)) == Rejected) ==>
              Lookup(Reconcile(env, c.name, Some(c), apps).apps, n) == Lookup(apps, n)
  {
    ClaimsExactly(c, n);
    ReconcileIsLocal(env, c, apps, n);
  }

  /** A definition whose read succeeded and whose write was not refused ends as if nothing had failed, even if the write
      was reported as failed. */
  lemma UnrefusedWriteLands(env: Env, c: Catalog, apps: Apps, i: nat)
    requires DistinctAppNames(c) && !AwaitsDefaults(c) && i < |Charts(c)|
    requires env.outcome(GetCatalog) == Ok && env.outcome(GetApp(i)) == Ok && env.outcome(WriteApp(i)) != Rejected
    ensures var n := GetAppName(Charts(c)[i]);
            Lookup(Sync(env, c, apps).apps, n) == Lookup(Sync(Calm(env.sort), c, apps).apps, n)
  {
    var n := GetAppName(Charts(c)[i]);
    ReconcileIsLocal(env, c, apps, n);
    ReconcileIsLocal(Calm(env.sort), c, apps, n);
    LocalTarget(env, c, i, Lookup(apps, n));
    LocalTarget(Calm(env.sort), c, i, Lookup(apps, n));
  }

  ghost predicate Ascending(vs: seq<AppVersion>) {
    forall i :: 0 <= i < |vs| - 1 ==> vs[i].version == vs[i + 1].version || Precedes(vs[i].version, vs[i + 1].version)
  }

  /** An update leaves the versions in ascending order, and they are those of the merge. */
  lemma UpdatedVersionsAscend(sort: VersionSorter, a: AppDef, d: AppDef)
    ensures Ascending(Promote(sort, a, d).spec.versions)
    ensures multiset(Promote(sort, a, d).spec.versions) == multiset(Merge(a.spec.versions, d.spec.versions))
  {
    var m := Merge(a.spec.versions, d.spec.versions);
    assert IsSortOf(VersionKey, m, sort(m));
    forall i | 0 <= i < |sort(m)| - 1
      ensures sort(m)[i].version == sort(m)[i + 1].version || Precedes(sort(m)[i].version, sort(m)[i + 1].version)
    {
      NeighboursAscend(VersionKey, sort(m), i);
    }
  }

  /** After an error-free reconcile every definition that existed and is the catalog's to update has its versions in
      ascending order. */
  lemma StoredVersionsAscend(env: Env, c: Catalog, apps: Apps, i: nat)
    requires NothingFailed(env, Reconcile(env, c.name, Some(c), apps)) && !AwaitsDefaults(c)
    requires DistinctAppNames(c) && i < |Charts(c)| && GetAppName(Charts(c)[i]) in apps
    requires !PlatformManaged(Some(apps[GetAppName(Charts(c)[i])]))
    ensures var n := GetAppName(Charts(c)[i]);
            n in Sync(env, c, apps).apps && Ascending(Sync(env, c, apps).apps[n].spec.versions)
  {
    var n := GetAppName(Charts(c)[i]);
    ReconcileIsLocal(env, c, apps, n);
    CleanIsCalm(env, c, apps, n);
    LocalTarget(Calm(env.sort), c, i, Some(apps[n]));
    UpdatedVersionsAscend(env.sort, apps[n], Convert(c, Charts(c)[i]));
  }
}
