/** The ApplicationCatalog and ApplicationDefinition resources, as values. */
module CatalogTypes {

  datatype Option<+T> = None | Some(value: T)

  const LABEL_MANAGED_BY := "applicationcatalog.k8c.io/managed-by"
  const LABEL_CATALOG_NAME := "applicationcatalog.k8c.io/catalog-name"
  const LABEL_SYSTEM := "apps.kubermatic.k8c.io/managed-by"
  const INCLUDE_ANNOTATION := "defaultcatalog.k8c.io/include"
  const DEFAULT_HELM_REPOSITORY := "oci://quay.io/kubermatic-mirror/helm-charts"
  const HELM_METHOD := "helm"

  const CATALOG_LABELS := {LABEL_MANAGED_BY, LABEL_CATALOG_NAME}

  // ---- ApplicationCatalog ----

  datatype SecretKey = SecretKey(name: string, key: string)

  datatype Credentials = Credentials(
    username: Option<SecretKey>,
    password: Option<SecretKey>,
    registryConfigFile: Option<SecretKey>)

  datatype RepositorySettings = RepositorySettings(baseURL: string, credentials: Option<Credentials>)

  datatype DisplayInfo = DisplayInfo(
    displayName: string,
    description: string,
    documentationURL: string,
    sourceURL: string,
    logo: string,
    logoFormat: string)

  const NO_DISPLAY_INFO := DisplayInfo("", "", "", "", "", "")

  datatype ChartMetadata = ChartMetadata(appName: string, info: DisplayInfo)

  datatype HelmDeployOptions = HelmDeployOptions(wait: bool)
  datatype DeployOptions = DeployOptions(helm: Option<HelmDeployOptions>)

  datatype ChartVersion = ChartVersion(
    chartVersion: string,
    appVersion: string,
    repository: Option<RepositorySettings>)

  datatype ChartConfig = ChartConfig(
    chartName: string,
    metadata: Option<ChartMetadata>,
    repository: Option<RepositorySettings>,
    defaultValuesBlock: string,
    defaultDeployOptions: Option<DeployOptions>,
    chartVersions: seq<ChartVersion>)

  /** `charts` distinguishes nil from the empty list: only nil makes the controller wait. */
  datatype HelmSpec = HelmSpec(
    repository: Option<RepositorySettings>,
    charts: Option<seq<ChartConfig>>,
    includeDefaults: bool)

  datatype Catalog = Catalog(name: string, annotations: map<string, string>, helm: Option<HelmSpec>)

  function GetAppName(chart: ChartConfig): string {
    if chart.metadata.Some? && chart.metadata.value.appName != "" then
      chart.metadata.value.appName
    else
      chart.chartName
  }

  /** What the documentation promises: the application name if the metadata gives one, else the chart name. */
  ghost predicate GoesBy(chart: ChartConfig, app: string) {
    && (forall m :: chart.metadata == Some(m) && m.appName != "" ==> app == m.appName)
    && ((chart.metadata == None || chart.metadata.value.appName == "") ==> app == chart.chartName)
  }

  function GetHelmCharts(c: Catalog): Option<seq<ChartConfig>> {
    if c.helm.None? then None else c.helm.value.charts
  }

  function GetGlobalRepositorySettings(c: Catalog): Option<RepositorySettings> {
    if c.helm.None? then None else c.helm.value.repository
  }

  predicate HasURL(settings: Option<RepositorySettings>) {
    settings.Some? && settings.value.baseURL != ""
  }

  function ResolveChartURL(c: Catalog, chart: ChartConfig, version: ChartVersion): string {
    if HasURL(version.repository) then version.repository.value.baseURL
    else if HasURL(chart.repository) then chart.repository.value.baseURL
    else if HasURL(GetGlobalRepositorySettings(c)) then GetGlobalRepositorySettings(c).value.baseURL
    else DEFAULT_HELM_REPOSITORY
  }

  function ResolveChartCredentials(c: Catalog, chart: ChartConfig, version: ChartVersion): Option<Credentials> {
    if HasURL(version.repository) then version.repository.value.credentials
    else if HasURL(chart.repository) then chart.repository.value.credentials
    else if HasURL(GetGlobalRepositorySettings(c)) then GetGlobalRepositorySettings(c).value.credentials
    else None
  }

  /** The charts a reconcile works through: nil counts as the empty list. */
  function Charts(c: Catalog): seq<ChartConfig> {
    if GetHelmCharts(c).Some? then GetHelmCharts(c).value else []
  }

  /** The names of the definitions that a catalog claims. */
  function Targets(c: Catalog): set<string> {
    set i | 0 <= i < |Charts(c)| :: GetAppName(Charts(c)[i])
  }

  /** Defaults were requested and never filled in: the webhook has not run yet. */
  predicate Waiting(c: Catalog) {
    GetHelmCharts(c).None? && c.helm.Some? && c.helm.value.includeDefaults
  }

  predicate DistinctNames(charts: seq<ChartConfig>) {
    forall i, j :: 0 <= i < j < |charts| ==> GetAppName(charts[i]) != GetAppName(charts[j])
  }

  predicate DistinctAppNames(c: Catalog) {
    DistinctNames(Charts(c))
  }

  // ---- ApplicationDefinition ----

  /** Where a version is installed from. A definition that users wrote may use something other than Helm. */
  datatype Source =
    | HelmSource(chartName: string, chartVersion: string, url: string, credentials: Option<Credentials>)
    | OtherSource(description: string)

  datatype AppVersion = AppVersion(version: string, source: Source)

  /** `others` stands for the fields of the specification that a catalog never sets; `""` is their zero value. */
  datatype AppSpec = AppSpec(
    method_: string,
    info: DisplayInfo,
    defaultValuesBlock: string,
    defaultDeployOptions: Option<DeployOptions>,
    defaultVersion: string,
    enforced: bool,
    isDefault: bool,
    datacenters: Option<seq<string>>,
    versions: seq<AppVersion>,
    others: string)

  datatype AppDef = AppDef(labels: map<string, string>, annotations: map<string, string>, spec: AppSpec)

  type Apps = map<string, AppDef>

  function VersionKey(v: AppVersion): string { v.version }

  function Lookup<T>(m: map<string, T>, name: string): Option<T> {
    if name in m then Some(m[name]) else None
  }

  predicate IsSystemApplication(a: AppDef) {
    LABEL_SYSTEM in a.labels
  }

  predicate IsSystem(a: Option<AppDef>) {
    a.Some? && IsSystemApplication(a.value)
  }

  /** The selector of the controller's list call. */
  predicate Labelled(a: AppDef, catalogName: string) {
    LABEL_CATALOG_NAME in a.labels && a.labels[LABEL_CATALOG_NAME] == catalogName
  }

  /** Both catalog labels are present and name the given catalog. */
  predicate Owned(a: AppDef, catalogName: string) {
    Labelled(a, catalogName) && LABEL_MANAGED_BY in a.labels && a.labels[LABEL_MANAGED_BY] == "true"
  }

  lemma SameStore(s: Apps, t: Apps)
    requires forall n :: Lookup(s, n) == Lookup(t, n)
    ensures s == t
  {
    forall n
      ensures n in s <==> n in t
      ensures n in s ==> s[n] == t[n]
    {
      assert Lookup(s, n) == Lookup(t, n);
    }
  }

  lemma TargetIndex(c: Catalog, n: string) returns (i: nat)
    requires n in Targets(c)
    ensures i < |Charts(c)| && GetAppName(Charts(c)[i]) == n
  {
    i :| 0 <= i < |Charts(c)| && GetAppName(Charts(c)[i]) == n;
  }

  lemma IndexIsTarget(c: Catalog, i: nat)
    requires i < |Charts(c)|
    ensures GetAppName(Charts(c)[i]) in Targets(c)
  {
  }

  // ---- A catalog for examples ----

  /** A catalog with a single chart that has a single version. */
  function SingleChart(name: string, app: string): Catalog {
    var versions := [ChartVersion("1.0.0", "1.0.0", None)];
    Catalog(name, map[], Some(HelmSpec(None, Some([ChartConfig(app, None, None, "", None, versions)]), false)))
  }

  lemma SingleChartTargets(name: string, app: string)
    ensures Targets(SingleChart(name, app)) == {app} && DistinctAppNames(SingleChart(name, app))
  {
    var c := SingleChart(name, app);
    assert |Charts(c)| == 1 && GetAppName(Charts(c)[0]) == app;
  }
}
