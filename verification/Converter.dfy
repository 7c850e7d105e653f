/** Conversion of a catalog's charts to ApplicationDefinitions (internal/controllers/synchronizer/converter.go). */
module Converter {
  import opened CatalogTypes

  function ConvertVersion(c: Catalog, chart: ChartConfig, v: ChartVersion): AppVersion {
    AppVersion(
      v.appVersion,
      HelmSource(chart.chartName, v.chartVersion, ResolveChartURL(c, chart, v), ResolveChartCredentials(c, chart, v)))
  }

  function VersionsOf(c: Catalog, chart: ChartConfig): (r: seq<AppVersion>)
    ensures |r| == |chart.chartVersions|
  {
    seq(|chart.chartVersions|, i requires 0 <= i < |chart.chartVersions| =>
      ConvertVersion(c, chart, chart.chartVersions[i]))
  }

  function CatalogLabels(catalogName: string): map<string, string> {
    map[LABEL_MANAGED_BY := "true", LABEL_CATALOG_NAME := catalogName]
  }

  function Convert(c: Catalog, chart: ChartConfig): AppDef {
    AppDef(
      CatalogLabels(c.name),
      map[],
      AppSpec(
        HELM_METHOD,
        if chart.metadata.Some? then chart.metadata.value.info else NO_DISPLAY_INFO,
        chart.defaultValuesBlock,
        chart.defaultDeployOptions,
        "", false, false, None,
        VersionsOf(c, chart),
        ""))
  }

  method ConvertVersions(c: Catalog, chart: ChartConfig) returns (versions: seq<AppVersion>)
    ensures versions == VersionsOf(c, chart)
  {
    versions := [];
    for i := 0 to |chart.chartVersions|
      invariant versions == VersionsOf(c, chart)[..i]
    {
      var chartVersion := chart.chartVersions[i];
      var url := ResolveChartURL(c, chart, chartVersion);
      var creds := ResolveChartCredentials(c, chart, chartVersion);
      var version := AppVersion(
        chartVersion.appVersion, HelmSource(chart.chartName, chartVersion.chartVersion, url, None));
      if creds.Some? {
        version := version.(source := version.source.(credentials := creds));
      }
      versions := versions + [version];
    }
  }

  method ConvertChartToApplicationDefinition(c: Catalog, chart: ChartConfig)
    returns (name: string, desired: AppDef)
    ensures name == GetAppName(chart) && desired == Convert(c, chart)
    ensures GoesBy(chart, name)
  {
    name := GetAppName(chart);
    var versions := ConvertVersions(c, chart);
    var spec := AppSpec(
      HELM_METHOD, NO_DISPLAY_INFO, chart.defaultValuesBlock, None, "", false, false, None, versions, "");
    if chart.defaultDeployOptions.Some? {
      spec := spec.(defaultDeployOptions := chart.defaultDeployOptions);
    }
    if chart.metadata.Some? {
      spec := spec.(info := chart.metadata.value.info);
    }
    desired := AppDef(map[LABEL_MANAGED_BY := "true", LABEL_CATALOG_NAME := c.name], map[], spec);
  }

  // ---- Repository precedence ----

  /** The three levels at which a repository can be configured, strongest first. */
  ghost function Levels(c: Catalog, chart: ChartConfig, v: ChartVersion): (r: seq<Option<RepositorySettings>>)
    ensures |r| == 3
  {
    [v.repository, chart.repository, if c.helm.Some? then c.helm.value.repository else None]
  }

  /** The level that decides: the strongest one that has a base URL, and 3 when none has. */
  ghost predicate Decides(c: Catalog, chart: ChartConfig, v: ChartVersion, level: nat) {
    && level <= 3
    && (forall k :: 0 <= k < level ==>
          Levels(c, chart, v)[k] == None || Levels(c, chart, v)[k].value.baseURL == "")
    && (level < 3 ==> Levels(c, chart, v)[level].Some? && Levels(c, chart, v)[level].value.baseURL != "")
  }

  /** URL and credentials of a converted version come from one and the same level;
      the default repository is never combined with credentials. */
  ghost predicate Coherent(c: Catalog, chart: ChartConfig, v: ChartVersion, x: AppVersion) {
    x.source.HelmSource?
    && (exists level: nat ::
          && Decides(c, chart, v, level)
          && (level < 3 ==> x.source.url == Levels(c, chart, v)[level].value.baseURL)
          && (level < 3 ==> x.source.credentials == Levels(c, chart, v)[level].value.credentials)
          && (level == 3 ==> x.source.url == "oci://quay.io/kubermatic-mirror/helm-charts")
          && (level == 3 ==> x.source.credentials == None))
  }

  lemma ConversionIsCoherent(c: Catalog, chart: ChartConfig, v: ChartVersion)
    ensures Coherent(c, chart, v, ConvertVersion(c, chart, v))
    ensures forall level: nat, other: nat ::
              Decides(c, chart, v, level) && Decides(c, chart, v, other) ==> level == other
  {
    var level := if HasURL(v.repository) then 0 else if HasURL(chart.repository) then 1
                 else if HasURL(GetGlobalRepositorySettings(c)) then 2 else 3;
    assert Decides(c, chart, v, level);
  }

  /** The precedence rules one by one: version, then chart, then catalog, then the default repository. */
  lemma RepositoryByLevel(c: Catalog, chart: ChartConfig, v: ChartVersion, settings: RepositorySettings)
    requires settings.baseURL != ""
    ensures var x := ConvertVersion(c, chart, v).source;
            var noVersion := v.repository == None || v.repository.value.baseURL == "";
            var noChart := chart.repository == None || chart.repository.value.baseURL == "";
            && (v.repository == Some(settings) ==> x.url == settings.baseURL && x.credentials == settings.credentials)
            && (noVersion && chart.repository == Some(settings) ==>
                  x.url == settings.baseURL && x.credentials == settings.credentials)
            && (noVersion && noChart && c.helm.Some? && c.helm.value.repository == Some(settings) ==>
                  x.url == settings.baseURL && x.credentials == settings.credentials)
            && (noVersion && noChart
                && (c.helm == None || c.helm.value.repository == None
                    || c.helm.value.repository.value.baseURL == "") ==>
                  x.url == "oci://quay.io/kubermatic-mirror/helm-charts" && x.credentials == None)
  {
  }
}
