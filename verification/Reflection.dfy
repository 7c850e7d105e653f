/** What users of a catalog get: after an error-free reconcile every application of the catalog looks as its chart says,
    except where the cluster's own customisations take precedence. */
module Reflection {
  import opened CatalogTypes
  import opened Converter
  import opened Sorting
  import opened VersionMerge
  import opened AppUpdate
  import opened Reconciler
  import opened Locality
  import opened SyncEffect

  /** The definition offers the given version of the chart, from the repository that takes precedence. */
  ghost predicate Offers(c: Catalog, chart: ChartConfig, v: ChartVersion, x: AppVersion) {
    && x.version == v.appVersion
    && x.source.HelmSource?
    && x.source.chartName == chart.chartName
    && x.source.chartVersion == v.chartVersion
    && Coherent(c, chart, v, x)
  }

  /** The chart version is the last of its application version, or the application version is new to the definition.
      Of several chart versions for an application version that is already there, only the last gets in. */
  ghost predicate Wins(chart: ChartConfig, before: Option<AppDef>, j: nat)
    requires j < |chart.chartVersions|
  {
    || (forall k :: j < k < |chart.chartVersions| ==>
          chart.chartVersions[k].appVersion != chart.chartVersions[j].appVersion)
    || before.None?
    || chart.chartVersions[j].appVersion !in Names(before.value.spec.versions)
  }

  ghost predicate Reflects(c: Catalog, chart: ChartConfig, before: Option<AppDef>, a: AppDef) {
    && Owned(a, c.name)
    && a.spec.method_ == "helm"
    && (chart.metadata.Some? ==> a.spec.info == chart.metadata.value.info)
    && (chart.metadata.None? ==> a.spec.info == NO_DISPLAY_INFO)
    && a.spec.defaultDeployOptions == chart.defaultDeployOptions
    && (before.Some? && before.value.spec.defaultValuesBlock !in {"", "{}"} ==>
          a.spec.defaultValuesBlock == before.value.spec.defaultValuesBlock)
    && (before.None? || before.value.spec.defaultValuesBlock in {"", "{}"} ==>
          a.spec.defaultValuesBlock == chart.defaultValuesBlock)
    && (forall j :: 0 <= j < |chart.chartVersions| && Wins(chart, before, j) ==>
          exists x :: x in a.spec.versions && Offers(c, chart, chart.chartVersions[j], x))
    && (before.None? ==> |a.spec.versions| == |chart.chartVersions|
                         && forall j :: 0 <= j < |chart.chartVersions| ==>
                              Offers(c, chart, chart.chartVersions[j], a.spec.versions[j]))
    && a.spec.others == ""
  }

  lemma WinnerIsMerged(c: Catalog, chart: ChartConfig, a: AppDef, j: nat)
    requires j < |chart.chartVersions| && Wins(chart, Some(a), j)
    ensures VersionsOf(c, chart)[j] in Merge(a.spec.versions, VersionsOf(c, chart))
  {
    var d := VersionsOf(c, chart);
    if d[j].version !in Names(a.spec.versions) {
      assert d[j] in d;
      AddedEntries(a.spec.versions, d, d[j]);
    } else {
      LastIndexUnique(d, d[j].version, j);
      LastDesiredIsMerged(a.spec.versions, d, d[j].version);
    }
  }

  lemma WrittenReflects(sort: VersionSorter, c: Catalog, chart: ChartConfig, v: Option<AppDef>)
    requires !IsSystem(v)
    ensures var u := WriteOnce(sort, Convert(c, chart), v);
            u.Some? && Reflects(c, chart, v, u.value)
  {
    var d := Convert(c, chart);
    var a := WriteOnce(sort, d, v).value;
    PromoteFacts(sort, if v.Some? then v.value else d, c, chart);
    forall j | 0 <= j < |chart.chartVersions| && v.None?
      ensures Offers(c, chart, chart.chartVersions[j], a.spec.versions[j])
    {
      ConversionIsCoherent(c, chart, chart.chartVersions[j]);
    }
    forall j | 0 <= j < |chart.chartVersions| && Wins(chart, v, j)
      ensures exists x :: x in a.spec.versions && Offers(c, chart, chart.chartVersions[j], x)
    {
      var x := ConvertVersion(c, chart, chart.chartVersions[j]);
      ConversionIsCoherent(c, chart, chart.chartVersions[j]);
      assert d.spec.versions[j] == x;
      if v.Some? {
        var m := Merge(v.value.spec.versions, d.spec.versions);
        WinnerIsMerged(c, chart, v.value, j);
        assert IsSortOf(VersionKey, m, sort(m));
        assert x in multiset(sort(m));
      }
      assert x in a.spec.versions && Offers(c, chart, chart.chartVersions[j], x);
    }
  }

  /** After an error-free reconcile, every non-system application of the catalog reflects its chart. */
  lemma CatalogIsReflected(env: Env, c: Catalog, apps: Apps, i: nat)
    requires Clean(env, c, apps) && !Waiting(c) && DistinctAppNames(c)
    requires i < |Charts(c)|
    requires !IsSystem(Lookup(apps, GetAppName(Charts(c)[i])))
    ensures var n := GetAppName(Charts(c)[i]);
            var after := Lookup(Sync(env, c, apps).apps, n);
            after.Some? && Reflects(c, Charts(c)[i], Lookup(apps, n), after.value)
  {
    var n := GetAppName(Charts(c)[i]);
    ReconcileIsLocal(env, c, apps, n);
    CleanIsCalm(env, c, apps, n);
    LocalTarget(Calm(env.sort), c, i, Lookup(apps, n));
    WrittenReflects(env.sort, c, Charts(c)[i], Lookup(apps, n));
  }
}
