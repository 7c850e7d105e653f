/** The validating webhook (internal/pkg/admission/applicationcatalog/validation/validation.go). */
module Validation {
  import opened CatalogTypes
  import opened IncludeList
  import opened Defaulting

  /** A duplicate inside the catalog, or a definition that another catalog manages. */
  datatype Conflict =
    | Duplicate(app: string, firstChart: string, chart: string)
    | External(app: string, owner: string)

  datatype Detection = Detected(conflicts: seq<Conflict>) | ListFailed

  datatype Verdict = Allowed | InvalidAnnotation(names: seq<string>) | Conflicting(conflicts: seq<Conflict>) | Errored

  function Owner(a: AppDef): string {
    if LABEL_CATALOG_NAME in a.labels then a.labels[LABEL_CATALOG_NAME] else ""
  }

  /** The selector of the webhook's list call. */
  predicate Managed(a: AppDef) {
    LABEL_MANAGED_BY in a.labels && a.labels[LABEL_MANAGED_BY] == "true"
  }

  /** The definition called `n` is managed by a catalog other than the given one. */
  predicate Foreign(apps: Apps, catalogName: string, n: string) {
    n in apps && Managed(apps[n]) && Owner(apps[n]) != "" && Owner(apps[n]) != catalogName
  }

  function ForeignAmong(apps: Apps, catalogName: string, names: set<string>): set<string> {
    set n | n in names && Foreign(apps, catalogName, n)
  }

  function ForeignTargets(apps: Apps, c: Catalog): set<string> {
    ForeignAmong(apps, c.name, Targets(c))
  }

  function NamesUpTo(c: Catalog, k: nat): set<string>
    requires k <= |Charts(c)|
  {
    set i | 0 <= i < k :: GetAppName(Charts(c)[i])
  }

  /** The first chart with a given application name. */
  function FirstChart(c: Catalog, k: nat, app: string): (r: string)
    requires k <= |Charts(c)| && app in NamesUpTo(c, k)
  {
    if k > 1 && app in NamesUpTo(c, k - 1) then FirstChart(c, k - 1, app) else Charts(c)[k - 1].chartName
  }

  /** The duplicates among the first `k` charts: one for every chart whose application name occurred before. */
  function Duplicates(c: Catalog, k: nat): seq<Conflict>
    requires k <= |Charts(c)|
  {
    if k == 0 then []
    else
      var app := GetAppName(Charts(c)[k - 1]);
      Duplicates(c, k - 1)
      + if app in NamesUpTo(c, k - 1)
        then [Duplicate(app, FirstChart(c, k - 1, app), Charts(c)[k - 1].chartName)] else []
  }

  lemma {:induction false} CountDuplicates(c: Catalog, k: nat)
    requires k <= |Charts(c)|
    ensures |Duplicates(c, k)| + |NamesUpTo(c, k)| == k
  {
    if k > 0 {
      var app := GetAppName(Charts(c)[k - 1]);
      CountDuplicates(c, k - 1);
      assert NamesUpTo(c, k) == NamesUpTo(c, k - 1) + {app};
      if app in NamesUpTo(c, k - 1) {
        assert NamesUpTo(c, k) == NamesUpTo(c, k - 1);
      }
    }
  }

  lemma {:induction false} NoDuplicates(c: Catalog, k: nat)
    requires k <= |Charts(c)|
    ensures Duplicates(c, k) == [] <==>
            forall i, j :: 0 <= i < j < k ==> GetAppName(Charts(c)[i]) != GetAppName(Charts(c)[j])
  {
    if k > 0 {
      NoDuplicates(c, k - 1);
      var app := GetAppName(Charts(c)[k - 1]);
      if app in NamesUpTo(c, k - 1) {
        assert |Duplicates(c, k)| > 0;
        var i :| 0 <= i < k - 1 && GetAppName(Charts(c)[i]) == app;
      } else {
        assert Duplicates(c, k) == Duplicates(c, k - 1);
        assert forall i :: 0 <= i < k - 1 ==> GetAppName(Charts(c)[i]) in NamesUpTo(c, k - 1);
      }
    }
  }

  /** The first chart with an application name is the one with the lowest position. */
  lemma {:induction false} FirstChartExactly(c: Catalog, k: nat, app: string) returns (i: nat)
    requires k <= |Charts(c)| && app in NamesUpTo(c, k)
    ensures i < k && GetAppName(Charts(c)[i]) == app && FirstChart(c, k, app) == Charts(c)[i].chartName
    ensures forall h :: 0 <= h < i ==> GetAppName(Charts(c)[h]) != app
  {
    if k > 1 && app in NamesUpTo(c, k - 1) {
      i := FirstChartExactly(c, k - 1, app);
    } else {
      i := k - 1;
      assert forall h :: 0 <= h < k - 1 ==> GetAppName(Charts(c)[h]) in NamesUpTo(c, k - 1);
    }
  }

  /** The charts at `i` and `j` go by one application name, and no chart before `i` does. */
  ghost predicate Clash(c: Catalog, i: nat, j: nat, x: Conflict) {
    && i < j < |Charts(c)| && GoesBy(Charts(c)[i], x.app) && GoesBy(Charts(c)[j], x.app)
    && (forall h :: 0 <= h < i ==> !GoesBy(Charts(c)[h], x.app))
    && x == Duplicate(x.app, Charts(c)[i].chartName, Charts(c)[j].chartName)
  }

  lemma {:induction false} DuplicateIsClash(c: Catalog, k: nat, x: Conflict) returns (i: nat, j: nat)
    requires k <= |Charts(c)| && x in Duplicates(c, k)
    ensures j < k && Clash(c, i, j, x)
  {
    if x in Duplicates(c, k - 1) {
      i, j := DuplicateIsClash(c, k - 1, x);
    } else {
      var app := GetAppName(Charts(c)[k - 1]);
      i := FirstChartExactly(c, k - 1, app);
      j := k - 1;
      assert x == Duplicate(app, Charts(c)[i].chartName, Charts(c)[j].chartName);
    }
  }

  lemma {:induction false} ClashIsDuplicate(c: Catalog, k: nat, i: nat, j: nat, x: Conflict)
    requires k <= |Charts(c)| && j < k && Clash(c, i, j, x)
    ensures x in Duplicates(c, k)
  {
    if j < k - 1 {
      ClashIsDuplicate(c, k - 1, i, j, x);
    } else {
      var app := GetAppName(Charts(c)[j]);
      assert app == x.app == GetAppName(Charts(c)[i]);
      assert app in NamesUpTo(c, k - 1);
      var h := FirstChartExactly(c, k - 1, app);
      assert !(h < i) && !(i < h);
      assert Duplicates(c, k) == Duplicates(c, k - 1) + [x];
    }
  }

  /** The reported duplicates are exactly the clashes: each names the first chart of its application name and a later
      one. */
  lemma DuplicatesExactly(c: Catalog, x: Conflict)
    ensures x in Duplicates(c, |Charts(c)|) <==> exists i: nat, j: nat :: Clash(c, i, j, x)
  {
    if x in Duplicates(c, |Charts(c)|) {
      var i, j := DuplicateIsClash(c, |Charts(c)|, x);
    }
    if i: nat, j: nat :| Clash(c, i, j, x) {
      ClashIsDuplicate(c, |Charts(c)|, i, j, x);
    }
  }

  /** The external conflicts of a set of names, listed in some order. */
  ghost predicate ListsForeign(apps: Apps, names: set<string>, ext: seq<Conflict>) {
    && |ext| == |names|
    && (forall n :: n in names ==> n in apps && External(n, Owner(apps[n])) in ext)
    && (forall x :: x in ext ==> x.External? && x.app in names && x.app in apps && x.owner == Owner(apps[x.app]))
  }

  /** Exactly the conflicts there are: the duplicates in chart order, then the external ones in some order. */
  ghost predicate ListsConflicts(apps: Apps, c: Catalog, conflicts: seq<Conflict>) {
    && Duplicates(c, |Charts(c)|) <= conflicts
    && ListsForeign(apps, ForeignTargets(apps, c), conflicts[|Duplicates(c, |Charts(c)|)|..])
  }

  /** Application names are distinct and none of them is managed by another catalog. */
  predicate ConflictFree(c: Catalog, apps: Apps) {
    DistinctAppNames(c) && ForeignTargets(apps, c) == {}
  }

  /** The number of conflicts, and when there are none. */
  lemma ConflictCount(apps: Apps, c: Catalog, ext: seq<Conflict>)
    requires ListsForeign(apps, ForeignTargets(apps, c), ext)
    ensures |Duplicates(c, |Charts(c)|) + ext| == |Charts(c)| - |Targets(c)| + |ForeignTargets(apps, c)|
    ensures |Duplicates(c, |Charts(c)|) + ext| == 0 <==> ConflictFree(c, apps)
  {
    CountDuplicates(c, |Charts(c)|);
    NoDuplicates(c, |Charts(c)|);
    assert NamesUpTo(c, |Charts(c)|) == Targets(c);
    assert DistinctAppNames(c) <==> Duplicates(c, |Charts(c)|) == [];
    assert ext == [] <==> ForeignTargets(apps, c) == {};
  }

  method DetectConflicts(listOk: bool, c: Catalog, apps: Apps) returns (r: Detection)
    ensures r.ListFailed? <==> Charts(c) != [] && !listOk
    ensures r.Detected? ==> ListsConflicts(apps, c, r.conflicts)
    ensures r.Detected? ==> |r.conflicts| == |Charts(c)| - |Targets(c)| + |ForeignTargets(apps, c)|
    ensures r.Detected? ==> (|r.conflicts| == 0 <==> ConflictFree(c, apps))
  {
    if |Charts(c)| == 0 {
      assert Targets(c) == {} && ForeignTargets(apps, c) == {};
      return Detected([]);
    }
    var conflicts, appNames := FindDuplicates(c);
    if !listOk {
      return ListFailed;
    }
    var existing := map n | n in apps && Managed(apps[n]) && n in appNames :: apps[n];
    var ext := FindForeign(c, appNames.Keys, existing);
    assert ForeignAmong(existing, c.name, appNames.Keys) == ForeignTargets(apps, c);
    ConflictCount(apps, c, ext);
    r := Detected(conflicts + ext);
    assert r.conflicts[|conflicts|..] == ext;
  }

  /** The first loop: remembers the chart that first used each application name. */
  method FindDuplicates(c: Catalog) returns (conflicts: seq<Conflict>, appNames: map<string, string>)
    ensures conflicts == Duplicates(c, |Charts(c)|)
    ensures appNames.Keys == Targets(c)
  {
    var charts := Charts(c);
    conflicts := [];
    appNames := map[];
    for i := 0 to |charts|
      invariant appNames.Keys == NamesUpTo(c, i)
      invariant forall n :: n in appNames ==> appNames[n] == FirstChart(c, i, n)
      invariant conflicts == Duplicates(c, i)
    {
      var app := GetAppName(charts[i]);
      assert NamesUpTo(c, i + 1) == NamesUpTo(c, i) + {app};
      if app in appNames {
        conflicts := conflicts + [Duplicate(app, appNames[app], charts[i].chartName)];
        continue;
      }
      appNames := appNames[app := charts[i].chartName];
    }
    assert NamesUpTo(c, |charts|) == Targets(c);
  }

  /** The last loop: over the application names, in whatever order Go visits them. */
  method FindForeign(c: Catalog, names: set<string>, existing: Apps) returns (ext: seq<Conflict>)
    requires forall n :: n in existing ==> Managed(existing[n])
    ensures ListsForeign(existing, ForeignAmong(existing, c.name, names), ext)
  {
    ext := [];
    var todo := names;
    ghost var found: set<string> := {};
    while todo != {}
      invariant todo <= names
      invariant found == ForeignAmong(existing, c.name, names - todo)
      invariant ListsForeign(existing, found, ext)
      decreases todo
    {
      var app :| app in todo;
      todo := todo - {app};
      if app !in existing {
        continue;
      }
      var owner := Owner(existing[app]);
      if owner == "" || owner == c.name {
        continue;
      }
      assert app !in found;
      ext := ext + [External(app, owner)];
      found := found + {app};
    }
    assert names - todo == names;
  }

  predicate AnnotationOk(defaults: seq<ChartConfig>, c: Catalog) {
    c.helm.Some? && c.helm.value.includeDefaults ==> |InvalidNames(defaults, IncludeAnnotation(c))| == 0
  }

  /** What the validating webhook lets through, independently of how it finds out. */
  predicate Accepted(defaults: seq<ChartConfig>, listOk: bool, c: Catalog, apps: Apps) {
    && AnnotationOk(defaults, c)
    && (Charts(c) != [] ==> listOk)
    && ConflictFree(c, apps)
  }

  // ---- The same on fields and labels ----

  /** The include annotation requests a name that is not blank and not that of a default. */
  ghost predicate UnknownRequest(defaults: seq<ChartConfig>, c: Catalog, x: string) {
    && "defaultcatalog.k8c.io/include" in c.annotations
    && x in Requested(c.annotations["defaultcatalog.k8c.io/include"]) && x != ""
    && forall i :: 0 <= i < |defaults| ==> defaults[i].chartName != x
  }

  /** Only a catalog that includes defaults can misname one. */
  ghost predicate Misnames(defaults: seq<ChartConfig>, c: Catalog) {
    c.helm.Some? && c.helm.value.includeDefaults && exists x :: UnknownRequest(defaults, c, x)
  }

  ghost predicate HasCharts(c: Catalog) {
    c.helm.Some? && c.helm.value.charts.Some? && |c.helm.value.charts.value| > 0
  }

  /** The cluster says that another catalog manages the application. */
  ghost predicate TakenByOther(apps: Apps, catalogName: string, app: string) {
    var managed, owner := "applicationcatalog.k8c.io/managed-by", "applicationcatalog.k8c.io/catalog-name";
    && app in apps
    && managed in apps[app].labels && apps[app].labels[managed] == "true"
    && owner in apps[app].labels && apps[app].labels[owner] != "" && apps[app].labels[owner] != catalogName
  }

  /** No two charts go by one application name, and no chart by a name that another catalog has taken. */
  ghost predicate PlainlyFree(c: Catalog, apps: Apps) {
    c.helm.Some? && c.helm.value.charts.Some? ==>
      var charts := c.helm.value.charts.value;
      && (forall i, j, app :: 0 <= i < j < |charts| && GoesBy(charts[i], app) ==> !GoesBy(charts[j], app))
      && (forall i, app :: 0 <= i < |charts| && GoesBy(charts[i], app) ==> !TakenByOther(apps, c.name, app))
  }

  lemma AnnotationPlainly(defaults: seq<ChartConfig>, c: Catalog)
    ensures AnnotationOk(defaults, c) <==> !Misnames(defaults, c)
    ensures forall x :: x in InvalidNames(defaults, IncludeAnnotation(c)) <==> UnknownRequest(defaults, c, x)
  {
    var names := InvalidNames(defaults, IncludeAnnotation(c));
    forall x
      ensures x in names <==> UnknownRequest(defaults, c, x)
    {
      UnknownMembers(Requested(IncludeAnnotation(c)), ChartNames(defaults), x);
    }
    if |names| > 0 {
      assert names[0] in names;
    }
  }

  lemma GoesByItsName(chart: ChartConfig, app: string)
    ensures GoesBy(chart, app) <==> app == GetAppName(chart)
  {
  }

  lemma ForeignPlainly(apps: Apps, catalogName: string, app: string)
    ensures Foreign(apps, catalogName, app) <==> TakenByOther(apps, catalogName, app)
  {
  }

  lemma ConflictFreePlainly(c: Catalog, apps: Apps)
    ensures ConflictFree(c, apps) <==> PlainlyFree(c, apps)
  {
    forall i, app | 0 <= i < |Charts(c)|
      ensures GoesBy(Charts(c)[i], app) <==> app == GetAppName(Charts(c)[i])
      ensures Foreign(apps, c.name, app) <==> TakenByOther(apps, c.name, app)
    {
      GoesByItsName(Charts(c)[i], app);
      ForeignPlainly(apps, c.name, app);
    }
    if PlainlyFree(c, apps) {
      forall i, j | 0 <= i < j < |Charts(c)|
        ensures GetAppName(Charts(c)[i]) != GetAppName(Charts(c)[j])
      {
        assert GoesBy(Charts(c)[i], GetAppName(Charts(c)[i]));
      }
      forall n | n in Targets(c)
        ensures !Foreign(apps, c.name, n)
      {
        var i := TargetIndex(c, n);
        assert GoesBy(Charts(c)[i], n);
      }
    }
    if ConflictFree(c, apps) {
      forall i, app | 0 <= i < |Charts(c)| && GoesBy(Charts(c)[i], app)
        ensures !TakenByOther(apps, c.name, app)
      {
        IndexIsTarget(c, i);
        assert app !in ForeignTargets(apps, c);
      }
    }
  }

  method HandleValidation(defaults: seq<ChartConfig>, listOk: bool, c: Catalog, apps: Apps) returns (verdict: Verdict)
    ensures verdict.Allowed? <==> Accepted(defaults, listOk, c, apps)
    ensures verdict.InvalidAnnotation? <==> Misnames(defaults, c)
    ensures verdict.InvalidAnnotation? ==> forall x :: x in verdict.names <==> UnknownRequest(defaults, c, x)
    ensures verdict.InvalidAnnotation? ==> verdict.names == InvalidNames(defaults, IncludeAnnotation(c))
    ensures verdict.Errored? <==> !Misnames(defaults, c) && HasCharts(c) && !listOk
    ensures verdict.Conflicting? <==> !Misnames(defaults, c) && (HasCharts(c) ==> listOk) && !PlainlyFree(c, apps)
    ensures verdict.Allowed? <==> !Misnames(defaults, c) && (HasCharts(c) ==> listOk) && PlainlyFree(c, apps)
    ensures verdict.Conflicting? ==> ListsConflicts(apps, c, verdict.conflicts)
    ensures verdict.Conflicting? ==> |verdict.conflicts| == |Charts(c)| - |Targets(c)| + |ForeignTargets(apps, c)|
  {
    AnnotationPlainly(defaults, c);
    ConflictFreePlainly(c, apps);
    if c.helm.Some? && c.helm.value.includeDefaults {
      var invalidNames := ValidateIncludeAnnotation(defaults, IncludeAnnotation(c));
      if |invalidNames| > 0 {
        return InvalidAnnotation(invalidNames);
      }
    }
    var detection := DetectConflicts(listOk, c, apps);
    if detection.ListFailed? {
      return Errored;
    }
    if |detection.conflicts| > 0 {
      return Conflicting(detection.conflicts);
    }
    verdict := Allowed;
  }
}
