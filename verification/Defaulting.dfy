/** Defaulting of catalogs (internal/pkg/defaulting/applicationcatalog.go). The built-in charts are a parameter. */
module Defaulting {
  import opened CatalogTypes
  import opened Sorting
  import opened IncludeList

  function ChartKey(chart: ChartConfig): string { chart.chartName }
  function ChartVersionKey(v: ChartVersion): string { v.chartVersion }

  type ChartSorter = f: seq<ChartConfig> -> seq<ChartConfig> | Sorts(ChartKey, f)
    witness ReferenceSorter(ChartKey)
  type ChartVersionSorter = f: seq<ChartVersion> -> seq<ChartVersion> | Sorts(ChartVersionKey, f)
    witness ReferenceSorter(ChartVersionKey)

  /** Any behaviour `sort.Slice` may have on charts and on their versions. */
  datatype Sorters = Sorters(charts: ChartSorter, versions: ChartVersionSorter)

  // ---- Sorting charts ----

  function SortedVersions(s: Sorters, chart: ChartConfig): ChartConfig {
    chart.(chartVersions := s.versions(chart.chartVersions))
  }

  function AllSorted(s: Sorters, charts: seq<ChartConfig>): (r: seq<ChartConfig>)
    ensures |r| == |charts|
  {
    seq(|charts|, i requires 0 <= i < |charts| => SortedVersions(s, charts[i]))
  }

  function Sorted(s: Sorters, charts: seq<ChartConfig>): seq<ChartConfig> {
    s.charts(AllSorted(s, charts))
  }

  /** Sorts the versions of each chart and then the charts, in place. */
  method SortCharts(s: Sorters, charts: array<ChartConfig>)
    modifies charts
    ensures charts[..] == Sorted(s, old(charts[..]))
  {
    ghost var given := charts[..];
    for i := 0 to charts.Length
      invariant charts[..i] == AllSorted(s, given)[..i]
      invariant charts[i..] == given[i..]
    {
      var chart := charts[i];
      assert chart == given[i];
      charts[i] := chart.(chartVersions := s.versions(chart.chartVersions));
    }
    assert charts[..] == AllSorted(s, given);
    var ordered := s.charts(charts[..]);
    assert IsSortOf(ChartKey, charts[..], ordered);
    SameMembers(charts[..], ordered);
    for i := 0 to charts.Length
      invariant charts[..i] == ordered[..i]
    {
      charts[i] := ordered[i];
    }
  }

  // ---- Merging charts ----

  /** The chart that a list means by a name: the last one. */
  function LastChart(charts: seq<ChartConfig>, name: string): (r: Option<ChartConfig>)
    ensures r.Some? ==> r.value in charts && r.value.chartName == name
  {
    if charts == [] then None
    else if charts[|charts| - 1].chartName == name then Some(charts[|charts| - 1])
    else LastChart(charts[..|charts| - 1], name)
  }

  /** The last chart of each name, in list order. */
  function LastOfEach(charts: seq<ChartConfig>): seq<ChartConfig> {
    if charts == [] then []
    else (if LastChart(charts[1..], charts[0].chartName).Some? then [] else [charts[0]]) + LastOfEach(charts[1..])
  }

  function Merged(s: Sorters, user: seq<ChartConfig>, defaults: seq<ChartConfig>): seq<ChartConfig> {
    Sorted(s, LastOfEach(defaults + user))
  }

  lemma {:induction false} LastChartConcat(xs: seq<ChartConfig>, ys: seq<ChartConfig>, name: string)
    ensures LastChart(xs + ys, name) == if LastChart(ys, name).Some? then LastChart(ys, name) else LastChart(xs, name)
  {
    if ys == [] {
      assert xs + ys == xs;
    } else {
      assert (xs + ys)[..|xs + ys| - 1] == xs + ys[..|ys| - 1];
      LastChartConcat(xs, ys[..|ys| - 1], name);
    }
  }

  lemma LastChartSnoc(xs: seq<ChartConfig>, x: ChartConfig)
    ensures forall name :: LastChart(xs + [x], name) == if x.chartName == name then Some(x) else LastChart(xs, name)
  {
  }

  lemma LastChartCons(x: ChartConfig, xs: seq<ChartConfig>, name: string)
    ensures LastChart([x] + xs, name) ==
            if LastChart(xs, name).Some? then LastChart(xs, name) else if x.chartName == name then Some(x) else None
  {
    LastChartConcat([x], xs, name);
    assert [x][..0] == [];
  }

  lemma {:induction false} NamedChart(charts: seq<ChartConfig>, x: ChartConfig)
    requires x in charts
    ensures LastChart(charts, x.chartName).Some?
  {
    if charts[|charts| - 1].chartName != x.chartName {
      assert charts == charts[..|charts| - 1] + [charts[|charts| - 1]];
      NamedChart(charts[..|charts| - 1], x);
    }
  }

  lemma {:induction false} LastOfEachMembers(charts: seq<ChartConfig>, x: ChartConfig)
    ensures x in LastOfEach(charts) <==> LastChart(charts, x.chartName) == Some(x)
  {
    if charts != [] {
      LastOfEachMembers(charts[1..], x);
      assert charts == [charts[0]] + charts[1..];
      LastChartCons(charts[0], charts[1..], x.chartName);
    }
  }

  lemma {:induction false} LastOfEachDistinct(charts: seq<ChartConfig>)
    ensures DistinctKeys(ChartKey, LastOfEach(charts))
  {
    if charts != [] {
      var rest := LastOfEach(charts[1..]);
      LastOfEachDistinct(charts[1..]);
      if LastChart(charts[1..], charts[0].chartName).None? {
        forall j | 0 <= j < |rest|
          ensures ChartKey(charts[0]) != ChartKey(rest[j])
        {
          LastOfEachMembers(charts[1..], rest[j]);
        }
      }
    }
  }

  // ---- Sequences with the same members ----

  lemma DistinctSameMembers<T>(key: T -> string, xs: seq<T>, ys: seq<T>)
    requires DistinctKeys(key, xs) && DistinctKeys(key, ys)
    requires forall x :: x in xs <==> x in ys
    ensures multiset(xs) == multiset(ys)
  {
    forall x
      ensures multiset(xs)[x] == multiset(ys)[x]
    {
      DistinctOnce(key, xs, x);
      DistinctOnce(key, ys, x);
      assert x in multiset(xs) <==> x in xs;
      assert x in multiset(ys) <==> x in ys;
    }
  }

  lemma AllSortedDistinct(s: Sorters, charts: seq<ChartConfig>)
    requires DistinctKeys(ChartKey, charts)
    ensures DistinctKeys(ChartKey, AllSorted(s, charts))
  {
  }

  lemma AllSortedMembers(s: Sorters, xs: seq<ChartConfig>, ys: seq<ChartConfig>, y: ChartConfig)
    requires forall x :: x in xs ==> x in ys
    requires y in AllSorted(s, xs)
    ensures y in AllSorted(s, ys)
  {
    var i :| 0 <= i < |xs| && AllSorted(s, xs)[i] == y;
    assert xs[i] in ys;
    var j :| 0 <= j < |ys| && ys[j] == xs[i];
    assert AllSorted(s, ys)[j] == y;
  }

  /** Sorting charts with distinct names does not depend on the order they come in. */
  lemma SortIgnoresOrder(s: Sorters, xs: seq<ChartConfig>, ys: seq<ChartConfig>)
    requires DistinctKeys(ChartKey, xs) && DistinctKeys(ChartKey, ys)
    requires forall x :: x in xs <==> x in ys
    ensures Sorted(s, xs) == Sorted(s, ys)
  {
    var xs', ys' := AllSorted(s, xs), AllSorted(s, ys);
    AllSortedDistinct(s, xs);
    AllSortedDistinct(s, ys);
    forall y
      ensures y in xs' <==> y in ys'
    {
      if y in xs' { AllSortedMembers(s, xs, ys, y); }
      if y in ys' { AllSortedMembers(s, ys, xs, y); }
    }
    DistinctSameMembers(ChartKey, xs', ys');
    assert IsSortOf(ChartKey, xs', s.charts(xs')) && IsSortOf(ChartKey, ys', s.charts(ys'));
    DistinctPermutation(ChartKey, xs', s.charts(xs'));
    SortUnique(ChartKey, s.charts(xs'), s.charts(ys'));
  }

  /** The merge of user charts with defaults, whatever order Go visits the map in. */
  method MergeCharts(s: Sorters, user: seq<ChartConfig>, defaults: seq<ChartConfig>) returns (r: seq<ChartConfig>)
    ensures r == Merged(s, user, defaults)
  {
    var result: map<string, ChartConfig> := map[];
    for i := 0 to |defaults|
      invariant forall name :: Lookup(result, name) == LastChart(defaults[..i], name)
    {
      LastChartSnoc(defaults[..i], defaults[i]);
      assert defaults[..i + 1] == defaults[..i] + [defaults[i]];
      result := result[defaults[i].chartName := defaults[i]];
    }
    assert defaults[..|defaults|] == defaults && defaults + user[..0] == defaults;
    for i := 0 to |user|
      invariant forall name :: Lookup(result, name) == LastChart(defaults + user[..i], name)
    {
      LastChartSnoc(defaults + user[..i], user[i]);
      assert defaults + user[..i + 1] == defaults + user[..i] + [user[i]];
      result := result[user[i].chartName := user[i]];
    }
    ghost var all := defaults + user;
    assert user[..|user|] == user;
    forall name | name in result
      ensures result[name].chartName == name
    {
      assert Lookup(result, name) == LastChart(all, name);
    }
    var slice := Values(result);
    var charts := new ChartConfig[|slice|](i requires 0 <= i < |slice| => slice[i]);
    assert charts[..] == slice;
    SortCharts(s, charts);
    r := charts[..];
    LastOfEachDistinct(all);
    forall x
      ensures x in slice <==> x in LastOfEach(all)
    {
      LastOfEachMembers(all, x);
      assert Lookup(result, x.chartName) == LastChart(all, x.chartName);
    }
    SortIgnoresOrder(s, slice, LastOfEach(all));
  }

  /** Ranging over the map: its values in some order. */
  method Values(m: map<string, ChartConfig>) returns (r: seq<ChartConfig>)
    requires forall name :: name in m ==> m[name].chartName == name
    ensures DistinctKeys(ChartKey, r)
    ensures forall x :: x in r <==> Lookup(m, x.chartName) == Some(x)
  {
    r := [];
    var todo := m.Keys;
    while todo != {}
      invariant todo <= m.Keys
      invariant DistinctKeys(ChartKey, r)
      invariant forall x :: x in r <==> x.chartName !in todo && Lookup(m, x.chartName) == Some(x)
      decreases todo
    {
      var name :| name in todo;
      todo := todo - {name};
      forall i | 0 <= i < |r|
        ensures ChartKey(r[i]) != ChartKey(m[name])
      {
        assert r[i] in r;
      }
      r := r + [m[name]];
    }
  }

  // ---- Selecting defaults ----

  function NameSet(names: seq<string>): set<string> {
    set x | x in names
  }

  function ChartNames(charts: seq<ChartConfig>): set<string> {
    set i | 0 <= i < |charts| :: charts[i].chartName
  }

  function Filter(charts: seq<ChartConfig>, names: set<string>): seq<ChartConfig> {
    if charts == [] then []
    else Filter(charts[..|charts| - 1], names)
         + if charts[|charts| - 1].chartName in names then [charts[|charts| - 1]] else []
  }

  function FilteredByName(charts: seq<ChartConfig>, includeList: seq<string>): seq<ChartConfig> {
    if |includeList| == 0 then charts else Filter(charts, NameSet(includeList))
  }

  method FilterDefaultsByName(charts: seq<ChartConfig>, includeList: seq<string>) returns (filtered: seq<ChartConfig>)
    ensures filtered == FilteredByName(charts, includeList)
  {
    if |includeList| == 0 {
      return charts;
    }
    var includeSet: set<string> := {};
    for i := 0 to |includeList|
      invariant includeSet == NameSet(includeList[..i])
    {
      includeSet := includeSet + {includeList[i]};
    }
    assert includeList[..|includeList|] == includeList;
    filtered := [];
    for i := 0 to |charts|
      invariant filtered == Filter(charts[..i], includeSet)
    {
      assert charts[..i + 1][..i] == charts[..i];
      if charts[i].chartName in includeSet {
        filtered := filtered + [charts[i]];
      }
    }
    assert charts[..|charts|] == charts;
  }

  function IncludeAnnotation(c: Catalog): string {
    if INCLUDE_ANNOTATION in c.annotations then c.annotations[INCLUDE_ANNOTATION] else ""
  }

  /** The defaults that an annotation asks for: all of them when it is empty. */
  function Selected(defaults: seq<ChartConfig>, annotation: string): seq<ChartConfig> {
    if annotation == "" then defaults else FilteredByName(defaults, Requested(annotation))
  }

  // ---- Defaulting a catalog ----

  function Defaulted(s: Sorters, defaults: seq<ChartConfig>, c: Catalog): Catalog {
    var helm := if c.helm.None? then HelmSpec(None, None, false) else c.helm.value;
    if !helm.includeDefaults then c.(helm := Some(helm))
    else
      var chosen := Sorted(s, Selected(defaults, IncludeAnnotation(c)));
      c.(helm := Some(helm.(charts := Some(Merged(s, Charts(c), chosen)))))
  }

  method DefaultApplicationCatalog(s: Sorters, defaults: seq<ChartConfig>, c: Catalog) returns (r: Catalog)
    ensures r == Defaulted(s, defaults, c)
  {
    r := c;
    if r.helm.None? {
      r := r.(helm := Some(HelmSpec(None, None, false)));
    }
    if !r.helm.value.includeDefaults {
      return;
    }
    var charts := defaults;
    var annotation := IncludeAnnotation(c);
    if annotation != "" {
      var includeList := ParseIncludeList(annotation);
      charts := FilterDefaultsByName(charts, includeList);
    }
    var slice := new ChartConfig[|charts|](i requires 0 <= i < |charts| => charts[i]);
    assert slice[..] == charts;
    SortCharts(s, slice);
    var merged := MergeCharts(s, Charts(c), slice[..]);
    r := r.(helm := Some(r.helm.value.(charts := Some(merged))));
  }

  // ---- Validating the annotation ----

  function Unknown(names: seq<string>, valid: set<string>): seq<string> {
    if names == [] then []
    else Unknown(names[..|names| - 1], valid)
         + if names[|names| - 1] == "" || names[|names| - 1] in valid then [] else [names[|names| - 1]]
  }

  function InvalidNames(defaults: seq<ChartConfig>, annotation: string): seq<string> {
    Unknown(Requested(annotation), ChartNames(defaults))
  }

  lemma {:induction false} UnknownMembers(names: seq<string>, valid: set<string>, x: string)
    ensures x in Unknown(names, valid) <==> x in names && x != "" && x !in valid
  {
    if names != [] {
      UnknownMembers(names[..|names| - 1], valid, x);
      assert names == names[..|names| - 1] + [names[|names| - 1]];
    }
  }

  method ValidateIncludeAnnotation(defaults: seq<ChartConfig>, annotation: string) returns (invalid: seq<string>)
    ensures invalid == InvalidNames(defaults, annotation)
  {
    if annotation == "" {
      return [];
    }
    var validNames: set<string> := {};
    for i := 0 to |defaults|
      invariant validNames == set j | 0 <= j < i :: defaults[j].chartName
    {
      validNames := validNames + {defaults[i].chartName};
    }
    var requestedNames := ParseIncludeList(annotation);
    invalid := [];
    for i := 0 to |requestedNames|
      invariant invalid == Unknown(requestedNames[..i], validNames)
    {
      assert requestedNames[..i + 1][..i] == requestedNames[..i];
      var name := requestedNames[i];
      if name == "" {
        continue;
      }
      if name !in validNames {
        invalid := invalid + [name];
      }
    }
    assert requestedNames[..|requestedNames|] == requestedNames;
  }
}
