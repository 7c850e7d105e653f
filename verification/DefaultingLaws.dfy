/** What defaulting promises: which charts come out, that repeating it changes nothing, and that it only ever adds. */
module DefaultingLaws {
  import opened CatalogTypes
  import opened LexOrder
  import opened Sorting
  import opened Favouring
  import opened IncludeList
  import opened Defaulting

  ghost predicate StrictlyIncreasing(charts: seq<ChartConfig>) {
    forall i, j :: 0 <= i < j < |charts| ==> Less(charts[i].chartName, charts[j].chartName)
  }

  // ---- Which charts come out of a merge ----

  lemma SortedMembers(s: Sorters, charts: seq<ChartConfig>, y: ChartConfig)
    ensures y in Sorted(s, charts) <==> exists x :: x in charts && y == SortedVersions(s, x)
  {
    var all := AllSorted(s, charts);
    assert IsSortOf(ChartKey, all, s.charts(all));
    SameMembers(all, s.charts(all));
    assert y in s.charts(all) <==> y in all;
    if y in all {
      var i :| 0 <= i < |all| && all[i] == y;
      assert charts[i] in charts && y == SortedVersions(s, charts[i]);
    }
    if x :| x in charts && y == SortedVersions(s, x) {
      var i :| 0 <= i < |charts| && charts[i] == x;
      assert all[i] == y;
    }
  }

  lemma SortedDistinct(s: Sorters, charts: seq<ChartConfig>)
    requires DistinctKeys(ChartKey, charts)
    ensures DistinctKeys(ChartKey, Sorted(s, charts)) && StrictlyIncreasing(Sorted(s, charts))
  {
    var all := AllSorted(s, charts);
    AllSortedDistinct(s, charts);
    assert IsSortOf(ChartKey, all, s.charts(all));
    DistinctPermutation(ChartKey, all, s.charts(all));
    var r := Sorted(s, charts);
    forall i, j | 0 <= i < j < |r|
      ensures Less(r[i].chartName, r[j].chartName)
    {
      assert AtMost(ChartKey(r[i]), ChartKey(r[j])) && ChartKey(r[i]) != ChartKey(r[j]);
    }
  }

  /** In a list with distinct names, a name means the chart that has it. */
  lemma OnlyChart(charts: seq<ChartConfig>, x: ChartConfig)
    requires DistinctKeys(ChartKey, charts) && x in charts
    ensures LastChart(charts, x.chartName) == Some(x)
  {
  }

  function Resolved(user: seq<ChartConfig>, defaults: seq<ChartConfig>, name: string): Option<ChartConfig> {
    if LastChart(user, name).Some? then LastChart(user, name) else LastChart(defaults, name)
  }

  /** The merge, characterised without any map: names strictly increase, and each name stands for the last user chart
      of that name or else the last default, with its versions sorted. */
  lemma MergeChartsMeaning(s: Sorters, user: seq<ChartConfig>, defaults: seq<ChartConfig>, name: string)
    ensures StrictlyIncreasing(Merged(s, user, defaults))
    ensures DistinctKeys(ChartKey, Merged(s, user, defaults))
    ensures var r := Resolved(user, defaults, name);
            LastChart(Merged(s, user, defaults), name) == if r.Some? then Some(SortedVersions(s, r.value)) else None
  {
    var all := defaults + user;
    var r := Merged(s, user, defaults);
    LastOfEachDistinct(all);
    SortedDistinct(s, LastOfEach(all));
    LastChartConcat(defaults, user, name);
    if LastChart(all, name).Some? {
      var x := LastChart(all, name).value;
      LastOfEachMembers(all, x);
      SortedMembers(s, LastOfEach(all), SortedVersions(s, x));
      OnlyChart(r, SortedVersions(s, x));
    } else if LastChart(r, name).Some? {
      var y := LastChart(r, name).value;
      SortedMembers(s, LastOfEach(all), y);
      var x :| x in LastOfEach(all) && y == SortedVersions(s, x);
      LastOfEachMembers(all, x);
      assert false;
    }
  }

  /** A list with strictly increasing names is determined by what its names mean. */
  lemma MeaningDetermines(xs: seq<ChartConfig>, ys: seq<ChartConfig>)
    requires DistinctKeys(ChartKey, xs) && DistinctKeys(ChartKey, ys)
    requires StrictlyIncreasing(xs) && StrictlyIncreasing(ys)
    requires forall name :: LastChart(xs, name) == LastChart(ys, name)
    ensures xs == ys
  {
    forall x
      ensures x in xs <==> x in ys
    {
      assert LastChart(xs, x.chartName) == LastChart(ys, x.chartName);
      if x in xs { OnlyChart(xs, x); }
      if x in ys { OnlyChart(ys, x); }
    }
    DistinctSameMembers(ChartKey, xs, ys);
    assert Ordered(ChartKey, xs) && Ordered(ChartKey, ys);
    SortUnique(ChartKey, xs, ys);
  }

  /** No chart that comes out of the merge lists two different entries under one chart version; in particular if none
      lists a version twice. */
  ghost predicate ResolvedAgree(user: seq<ChartConfig>, defaults: seq<ChartConfig>) {
    forall name :: Resolved(user, defaults, name).Some? ==>
      TiesAgree(ChartVersionKey, Resolved(user, defaults, name).value.chartVersions)
  }

  /** Where chart versions agree, the merge does not depend on the sorters either. */
  lemma MergeChartsUnique(s: Sorters, t: Sorters, user: seq<ChartConfig>, defaults: seq<ChartConfig>)
    requires ResolvedAgree(user, defaults)
    ensures Merged(s, user, defaults) == Merged(t, user, defaults)
  {
    forall name
      ensures LastChart(Merged(s, user, defaults), name) == LastChart(Merged(t, user, defaults), name)
    {
      MergeChartsMeaning(s, user, defaults, name);
      MergeChartsMeaning(t, user, defaults, name);
      var r := Resolved(user, defaults, name);
      if r.Some? {
        SortersAgree(ChartVersionKey, s.versions, t.versions, r.value.chartVersions);
      }
    }
    MergeChartsMeaning(s, user, defaults, "");
    MergeChartsMeaning(t, user, defaults, "");
    MeaningDetermines(Merged(s, user, defaults), Merged(t, user, defaults));
  }

  function FavouringSorters(w: ChartVersion): Sorters {
    Sorters(ReferenceSorter(ChartKey), FavouringSorter(ChartVersionKey, w))
  }

  /** The merge is the same under every sort if and only if the charts that come out of it agree on their versions. */
  lemma MergeUniqueExactly(user: seq<ChartConfig>, defaults: seq<ChartConfig>)
    ensures (forall s: Sorters, t: Sorters :: Merged(s, user, defaults) == Merged(t, user, defaults)) <==>
            ResolvedAgree(user, defaults)
  {
    if ResolvedAgree(user, defaults) {
      forall s: Sorters, t: Sorters
        ensures Merged(s, user, defaults) == Merged(t, user, defaults)
      {
        MergeChartsUnique(s, t, user, defaults);
      }
    } else {
      var name :| Resolved(user, defaults, name).Some?
                  && !TiesAgree(ChartVersionKey, Resolved(user, defaults, name).value.chartVersions);
      var xs := Resolved(user, defaults, name).value.chartVersions;
      var w, z := DisagreeingPair(ChartVersionKey, xs);
      MergeChartsMeaning(FavouringSorters(w), user, defaults, name);
      MergeChartsMeaning(FavouringSorters(z), user, defaults, name);
      FavouredDiffer(ChartVersionKey, xs, w, z);
    }
  }

  // ---- Filter and validator ----

  lemma {:induction false} FilterMembers(charts: seq<ChartConfig>, names: set<string>, x: ChartConfig)
    ensures x in Filter(charts, names) <==> x in charts && x.chartName in names
  {
    if charts != [] {
      FilterMembers(charts[..|charts| - 1], names, x);
      assert charts == charts[..|charts| - 1] + [charts[|charts| - 1]];
    }
  }

  lemma FilterNames(charts: seq<ChartConfig>, names: set<string>, x: string)
    ensures x in ChartNames(Filter(charts, names)) <==> x in names && x in ChartNames(charts)
  {
    var kept := Filter(charts, names);
    if x in ChartNames(kept) {
      var i :| 0 <= i < |kept| && kept[i].chartName == x;
      FilterMembers(charts, names, kept[i]);
      var j :| 0 <= j < |charts| && charts[j] == kept[i];
    }
    if x in names && x in ChartNames(charts) {
      var j :| 0 <= j < |charts| && charts[j].chartName == x;
      FilterMembers(charts, names, charts[j]);
      var i :| 0 <= i < |kept| && kept[i] == charts[j];
    }
  }

  /** Every non-blank requested name is either kept by the filter or reported as invalid, never both; so an accepted
      annotation yields exactly the defaults it asks for. */
  lemma FilterAndValidatorPartition(defaults: seq<ChartConfig>, annotation: string)
    requires annotation != "" && forall i :: 0 <= i < |defaults| ==> defaults[i].chartName != ""
    ensures var requested := NameSet(Requested(annotation)) - {""};
            var kept := ChartNames(Selected(defaults, annotation));
            var invalid := NameSet(InvalidNames(defaults, annotation));
            && requested == kept + invalid
            && kept !! invalid
            && (InvalidNames(defaults, annotation) == [] ==> kept == requested)
  {
    var names := Requested(annotation);
    assert |names| > 0;
    forall x
      ensures x in ChartNames(Selected(defaults, annotation)) <==> x in NameSet(names) && x in ChartNames(defaults)
      ensures x in NameSet(InvalidNames(defaults, annotation)) <==>
              x in NameSet(names) && x != "" && x !in ChartNames(defaults)
    {
      UnknownMembers(names, ChartNames(defaults), x);
      FilterNames(defaults, NameSet(names), x);
    }
  }

  /** The filter keeps the order of the charts: it works on each part of a list separately. */
  lemma {:induction false} FilterConcat(xs: seq<ChartConfig>, ys: seq<ChartConfig>, names: set<string>)
    ensures Filter(xs + ys, names) == Filter(xs, names) + Filter(ys, names)
  {
    if ys == [] {
      assert xs + ys == xs;
    } else {
      assert (xs + ys)[..|xs + ys| - 1] == xs + ys[..|ys| - 1];
      FilterConcat(xs, ys[..|ys| - 1], names);
    }
  }

  /** A single name is reported if it is neither blank nor valid. */
  lemma UnknownOne(x: string, valid: set<string>)
    ensures Unknown([x], valid) == if x == "" || x in valid then [] else [x]
  {
    assert [x][..0] == [];
  }

  /** The validator keeps the order, too, and reports a name as often as it is requested. */
  lemma {:induction false} UnknownConcat(xs: seq<string>, ys: seq<string>, valid: set<string>)
    ensures Unknown(xs + ys, valid) == Unknown(xs, valid) + Unknown(ys, valid)
  {
    if ys == [] {
      assert xs + ys == xs;
    } else {
      var rest, y := ys[..|ys| - 1], ys[|ys| - 1];
      assert (xs + ys)[..|xs + ys| - 1] == xs + rest;
      UnknownConcat(xs, rest, valid);
      var last := if y == "" || y in valid then [] else [y];
      assert Unknown(xs + ys, valid) == Unknown(xs + rest, valid) + last;
      assert Unknown(ys, valid) == Unknown(rest, valid) + last;
    }
  }

  /** An empty include list keeps all charts, any other those it names. */
  lemma FilteredMembers(charts: seq<ChartConfig>, includeList: seq<string>, x: ChartConfig)
    ensures x in FilteredByName(charts, includeList) <==>
            x in charts && (includeList == [] || x.chartName in includeList)
  {
    FilterMembers(charts, NameSet(includeList), x);
  }

  // ---- Sorting, on the characters of names and versions ----

  ghost predicate AscendingNames(charts: seq<ChartConfig>) {
    forall i :: 0 <= i < |charts| - 1 ==>
      charts[i].chartName == charts[i + 1].chartName || Precedes(charts[i].chartName, charts[i + 1].chartName)
  }

  ghost predicate AscendingVersions(vs: seq<ChartVersion>) {
    forall i :: 0 <= i < |vs| - 1 ==>
      vs[i].chartVersion == vs[i + 1].chartVersion || Precedes(vs[i].chartVersion, vs[i + 1].chartVersion)
  }

  lemma SortedVersionsAscend(s: Sorters, x: ChartConfig)
    ensures AscendingVersions(SortedVersions(s, x).chartVersions) && Reordered(x, SortedVersions(s, x))
  {
    var vs := s.versions(x.chartVersions);
    assert IsSortOf(ChartVersionKey, x.chartVersions, vs);
    forall i | 0 <= i < |vs| - 1
      ensures vs[i].chartVersion == vs[i + 1].chartVersion || Precedes(vs[i].chartVersion, vs[i + 1].chartVersion)
    {
      NeighboursAscend(ChartVersionKey, vs, i);
    }
  }

  /** Sorted charts ascend by chart name, each of them by chart version, and they are the charts that were given. */
  lemma SortedChartsAscend(s: Sorters, charts: seq<ChartConfig>)
    ensures var r := Sorted(s, charts);
            && |r| == |charts| && AscendingNames(r)
            && (forall y :: y in r ==> AscendingVersions(y.chartVersions))
            && (forall y :: y in r ==> exists x :: x in charts && Reordered(x, y))
            && (forall x :: x in charts ==> exists y :: y in r && Reordered(x, y))
  {
    var all, r := AllSorted(s, charts), Sorted(s, charts);
    assert IsSortOf(ChartKey, all, r);
    SameMembers(all, r);
    forall i | 0 <= i < |r| - 1
      ensures r[i].chartName == r[i + 1].chartName || Precedes(r[i].chartName, r[i + 1].chartName)
    {
      NeighboursAscend(ChartKey, r, i);
    }
    forall y | y in r
      ensures AscendingVersions(y.chartVersions) && exists x :: x in charts && Reordered(x, y)
    {
      SortedMembers(s, charts, y);
      var x :| x in charts && y == SortedVersions(s, x);
      SortedVersionsAscend(s, x);
    }
    forall x | x in charts
      ensures exists y :: y in r && Reordered(x, y)
    {
      SortedMembers(s, charts, SortedVersions(s, x));
      SortedVersionsAscend(s, x);
    }
  }

  // ---- Defaulting catalogs ----

  predicate IncludesDefaults(c: Catalog) {
    c.helm.Some? && c.helm.value.includeDefaults
  }

  lemma LastOfSorted(s: Sorters, charts: seq<ChartConfig>, name: string)
    requires DistinctKeys(ChartKey, charts)
    ensures LastChart(Sorted(s, charts), name) ==
            if LastChart(charts, name).Some? then Some(SortedVersions(s, LastChart(charts, name).value)) else None
  {
    SortedDistinct(s, charts);
    var r := Sorted(s, charts);
    if LastChart(charts, name).Some? {
      var x := LastChart(charts, name).value;
      SortedMembers(s, charts, SortedVersions(s, x));
      OnlyChart(r, SortedVersions(s, x));
    } else if LastChart(r, name).Some? {
      SortedMembers(s, charts, LastChart(r, name).value);
      var x :| x in charts && LastChart(r, name).value == SortedVersions(s, x);
      NamedChart(charts, x);
      assert false;
    }
  }

  lemma {:induction false} FilterDistinct(charts: seq<ChartConfig>, names: set<string>)
    requires DistinctKeys(ChartKey, charts)
    ensures DistinctKeys(ChartKey, Filter(charts, names))
  {
    if charts != [] {
      var rest, last := charts[..|charts| - 1], charts[|charts| - 1];
      FilterDistinct(rest, names);
      var kept := Filter(rest, names);
      forall i | 0 <= i < |kept|
        ensures ChartKey(kept[i]) != ChartKey(last)
      {
        FilterMembers(rest, names, kept[i]);
        var k :| 0 <= k < |rest| && rest[k] == kept[i];
        assert ChartKey(charts[k]) != ChartKey(charts[|charts| - 1]);
      }
    }
  }

  lemma SelectedDistinct(defaults: seq<ChartConfig>, annotation: string)
    requires DistinctKeys(ChartKey, defaults)
    ensures DistinctKeys(ChartKey, Selected(defaults, annotation))
  {
    FilterDistinct(defaults, NameSet(Requested(annotation)));
  }

  lemma SelectedMembers(defaults: seq<ChartConfig>, annotation: string, x: ChartConfig)
    requires x in Selected(defaults, annotation)
    ensures x in defaults
  {
    FilterMembers(defaults, NameSet(Requested(annotation)), x);
  }

  /** What a name means after defaulting: the user's chart if there is one, else the selected default. */
  lemma DefaultedMeaning(s: Sorters, defaults: seq<ChartConfig>, c: Catalog, name: string)
    requires IncludesDefaults(c) && DistinctKeys(ChartKey, defaults)
    ensures var user, chosen := LastChart(Charts(c), name), LastChart(Selected(defaults, IncludeAnnotation(c)), name);
            LastChart(Charts(Defaulted(s, defaults, c)), name) ==
              if user.Some? then Some(SortedVersions(s, user.value))
              else if chosen.Some? then Some(SortedVersions(s, SortedVersions(s, chosen.value)))
              else None
    ensures DistinctKeys(ChartKey, Charts(Defaulted(s, defaults, c)))
    ensures StrictlyIncreasing(Charts(Defaulted(s, defaults, c)))
  {
    var chosen := Selected(defaults, IncludeAnnotation(c));
    SelectedDistinct(defaults, IncludeAnnotation(c));
    LastOfSorted(s, chosen, name);
    MergeChartsMeaning(s, Charts(c), Sorted(s, chosen), name);
  }

  /** What defaulting leaves alone: everything but the chart list, and that too unless defaults were requested. A
      catalog without a Helm section gets an empty one. */
  lemma DefaultedFrame(s: Sorters, defaults: seq<ChartConfig>, c: Catalog)
    ensures var r := Defaulted(s, defaults, c);
            && r.name == c.name && r.annotations == c.annotations && r.helm.Some?
            && (c.helm.Some? ==> r.helm.value.repository == c.helm.value.repository)
            && (c.helm.Some? ==> r.helm.value.includeDefaults == c.helm.value.includeDefaults)
            && (c.helm.Some? && !c.helm.value.includeDefaults ==> r == c)
            && (c.helm == None ==> r.helm == Some(HelmSpec(None, None, false)))
            && (c.helm.Some? && c.helm.value.includeDefaults ==> r.helm.value.charts.Some?)
  {
  }

  lemma NamedExactly(charts: seq<ChartConfig>, name: string)
    ensures LastChart(charts, name).Some? <==> exists i :: 0 <= i < |charts| && charts[i].chartName == name
  {
    if i :| 0 <= i < |charts| && charts[i].chartName == name {
      NamedChart(charts, charts[i]);
    }
    if LastChart(charts, name).Some? {
      var i :| 0 <= i < |charts| && charts[i] == LastChart(charts, name).value;
    }
  }

  /** A default is asked for: there is no include annotation, or an empty one, or it lists the name. */
  ghost predicate AskedFor(c: Catalog, name: string) {
    var key := "defaultcatalog.k8c.io/include";
    key !in c.annotations || c.annotations[key] == "" || name in Requested(c.annotations[key])
  }

  ghost predicate HasChart(charts: Option<seq<ChartConfig>>, name: string) {
    charts.Some? && exists i :: 0 <= i < |charts.value| && charts.value[i].chartName == name
  }

  /** The chart names after defaulting: the user's, and those of the defaults asked for. */
  lemma DefaultedNamesExactly(s: Sorters, defaults: seq<ChartConfig>, c: Catalog, name: string)
    requires c.helm.Some? && c.helm.value.includeDefaults && DistinctKeys(ChartKey, defaults)
    ensures HasChart(Defaulted(s, defaults, c).helm.value.charts, name) <==>
            HasChart(c.helm.value.charts, name) || (HasChart(Some(defaults), name) && AskedFor(c, name))
  {
    var annotation := IncludeAnnotation(c);
    DefaultedMeaning(s, defaults, c, name);
    NamedExactly(Charts(c), name);
    NamedExactly(Charts(Defaulted(s, defaults, c)), name);
    NamedExactly(defaults, name);
    NamedExactly(Selected(defaults, annotation), name);
    if annotation != "" {
      FilterNames(defaults, NameSet(Requested(annotation)), name);
      assert |Requested(annotation)| > 0;
    }
  }

  lemma SortedTwice(s: Sorters, t: Sorters, x: ChartConfig)
    requires TiesAgree(ChartVersionKey, x.chartVersions)
    ensures SortedVersions(t, SortedVersions(s, x)) == SortedVersions(s, x)
    ensures TiesAgree(ChartVersionKey, SortedVersions(s, x).chartVersions)
    ensures SortedVersions(s, x) == x <==> Ordered(ChartVersionKey, x.chartVersions)
  {
    SortersAgree(ChartVersionKey, s.versions, t.versions, x.chartVersions);
    SortersAgree(ChartVersionKey, t.versions, s.versions, x.chartVersions);
  }

  /** The chart that a name stands for once defaults are filled in, before any sorting. */
  function Standing(defaults: seq<ChartConfig>, c: Catalog, name: string): Option<ChartConfig> {
    Resolved(Charts(c), Selected(defaults, IncludeAnnotation(c)), name)
  }

  /** No chart that stays lists two different entries under one chart version. */
  ghost predicate StandingAgree(defaults: seq<ChartConfig>, c: Catalog) {
    forall name :: Standing(defaults, c, name).Some? ==>
      TiesAgree(ChartVersionKey, Standing(defaults, c, name).value.chartVersions)
  }

  /** Defaulting twice is the same as defaulting once, even with different sorters. */
  lemma DefaultingIsIdempotent(s: Sorters, t: Sorters, defaults: seq<ChartConfig>, c: Catalog)
    requires DistinctKeys(ChartKey, defaults) && (IncludesDefaults(c) ==> StandingAgree(defaults, c))
    ensures Defaulted(t, defaults, Defaulted(s, defaults, c)) == Defaulted(s, defaults, c)
  {
    var once := Defaulted(s, defaults, c);
    var twice := Defaulted(t, defaults, once);
    if IncludesDefaults(c) {
      forall name
        ensures LastChart(Charts(twice), name) == LastChart(Charts(once), name)
      {
        DefaultedMeaning(s, defaults, c, name);
        DefaultedMeaning(t, defaults, once, name);
        var x := Standing(defaults, c, name);
        if x.Some? {
          SortedTwice(s, s, x.value);
          SortedTwice(s, t, x.value);
        }
      }
      DefaultedMeaning(s, defaults, c, "");
      DefaultedMeaning(t, defaults, once, "");
      MeaningDetermines(Charts(twice), Charts(once));
    }
  }

  /** A chart that stays and lists two different entries under one version is put in another order by another sort. */
  lemma DisagreeingChartMoves(defaults: seq<ChartConfig>, c: Catalog, name: string) returns (s: Sorters, t: Sorters)
    requires IncludesDefaults(c) && DistinctKeys(ChartKey, defaults)
    requires Standing(defaults, c, name).Some?
    requires !TiesAgree(ChartVersionKey, Standing(defaults, c, name).value.chartVersions)
    ensures Defaulted(t, defaults, Defaulted(s, defaults, c)) != Defaulted(s, defaults, c)
  {
    var xs := Standing(defaults, c, name).value.chartVersions;
    var w, z := DisagreeingPair(ChartVersionKey, xs);
    s, t := FavouringSorters(w), FavouringSorters(z);
    DefaultedMeaning(s, defaults, c, name);
    DefaultedMeaning(t, defaults, Defaulted(s, defaults, c), name);
    RivalSortsDiffer(ChartVersionKey, xs, w, z);
    assert IsSortOf(ChartVersionKey, xs, s.versions(xs));
    assert w in multiset(s.versions(xs)) && z in multiset(s.versions(xs));
    RivalSortsDiffer(ChartVersionKey, s.versions(xs), w, z);
  }

  /** Idempotence under every sort is equivalent to the charts that stay agreeing on their versions. */
  lemma IdempotentExactly(defaults: seq<ChartConfig>, c: Catalog)
    requires IncludesDefaults(c) && DistinctKeys(ChartKey, defaults)
    ensures (forall s: Sorters, t: Sorters ::
               Defaulted(t, defaults, Defaulted(s, defaults, c)) == Defaulted(s, defaults, c)) <==>
            StandingAgree(defaults, c)
  {
    if StandingAgree(defaults, c) {
      forall s: Sorters, t: Sorters
        ensures Defaulted(t, defaults, Defaulted(s, defaults, c)) == Defaulted(s, defaults, c)
      {
        DefaultingIsIdempotent(s, t, defaults, c);
      }
    } else {
      var name :| Standing(defaults, c, name).Some?
                  && !TiesAgree(ChartVersionKey, Standing(defaults, c, name).value.chartVersions);
      var s, t := DisagreeingChartMoves(defaults, c, name);
    }
  }

  // ---- Repeated defaulting ----

  /** One admission of an otherwise unchanged catalog: the built-in charts and the annotations may both be new. */
  datatype Round = Round(sorters: Sorters, defaults: seq<ChartConfig>, annotations: map<string, string>)

  function Readmitted(r: Round, c: Catalog): Catalog {
    Defaulted(r.sorters, r.defaults, c.(annotations := r.annotations))
  }

  function Rounds(rounds: seq<Round>, c: Catalog): Catalog {
    if |rounds| == 0 then c else Readmitted(rounds[|rounds| - 1], Rounds(rounds[..|rounds| - 1], c))
  }

  ghost predicate DistinctDefaults(rounds: seq<Round>) {
    forall k :: 0 <= k < |rounds| ==> DistinctKeys(ChartKey, rounds[k].defaults)
  }

  /** The same chart up to the order of its versions. */
  ghost predicate Reordered(x: ChartConfig, y: ChartConfig) {
    y == x.(chartVersions := y.chartVersions) && multiset(y.chartVersions) == multiset(x.chartVersions)
  }

  /** Reordered at most, and not even that if the versions agreed and were in order. */
  ghost predicate Retained(x: ChartConfig, y: ChartConfig) {
    && Reordered(x, y)
    && (TiesAgree(ChartVersionKey, x.chartVersions) && Ordered(ChartVersionKey, x.chartVersions) ==> y == x)
  }

  lemma SortedIsRetained(s: Sorters, x: ChartConfig)
    ensures Retained(x, SortedVersions(s, x))
  {
    assert IsSortOf(ChartVersionKey, x.chartVersions, s.versions(x.chartVersions));
    if TiesAgree(ChartVersionKey, x.chartVersions) {
      SortedTwice(s, s, x);
    }
  }

  lemma RoundKeeps(r: Round, c: Catalog, name: string)
    requires DistinctKeys(ChartKey, r.defaults)
    ensures var before, after := LastChart(Charts(c), name), LastChart(Charts(Readmitted(r, c)), name);
            && (before.Some? ==> after.Some? && Retained(before.value, after.value))
            && (after.Some? ==> before.Some? || name in ChartNames(r.defaults))
    ensures IncludesDefaults(Readmitted(r, c)) <==> IncludesDefaults(c)
  {
    var given := c.(annotations := r.annotations);
    var before := LastChart(Charts(c), name);
    if IncludesDefaults(given) {
      DefaultedMeaning(r.sorters, r.defaults, given, name);
      var chosen := LastChart(Selected(r.defaults, IncludeAnnotation(given)), name);
      if before.Some? {
        SortedIsRetained(r.sorters, before.value);
      } else if chosen.Some? {
        SelectedMembers(r.defaults, IncludeAnnotation(given), chosen.value);
        var i :| 0 <= i < |r.defaults| && r.defaults[i] == chosen.value;
      }
    } else if before.Some? {
      assert Retained(before.value, before.value);
    }
  }

  /** However often a catalog is defaulted again, with whatever built-in charts and annotations, the chart that a name
      stands for (the last one of that name) is kept, altered at most in the order of its versions; and a new name can
      only be that of a built-in chart. What happens to earlier charts of the same name: `ChartsSurviveExactly`. */
  lemma {:induction false} DefaultingOnlyAdds(rounds: seq<Round>, c: Catalog, name: string)
    requires DistinctDefaults(rounds)
    ensures var before, after := LastChart(Charts(c), name), LastChart(Charts(Rounds(rounds, c)), name);
            && (before.Some? ==> after.Some? && Retained(before.value, after.value))
            && (after.Some? ==> before.Some? || exists k :: 0 <= k < |rounds| && name in ChartNames(rounds[k].defaults))
    ensures IncludesDefaults(Rounds(rounds, c)) <==> IncludesDefaults(c)
  {
    if |rounds| == 0 {
      if LastChart(Charts(c), name).Some? {
        assert Retained(LastChart(Charts(c), name).value, LastChart(Charts(c), name).value);
      }
    } else {
      var rest, last := rounds[..|rounds| - 1], rounds[|rounds| - 1];
      DefaultingOnlyAdds(rest, c, name);
      RoundKeeps(last, Rounds(rest, c), name);
      assert forall k :: 0 <= k < |rest| ==> rest[k] == rounds[k];
    }
  }

  // ---- Charts that share a chart name ----

  /** Charts of one name are the same up to the order of their versions; in particular if names are distinct. */
  ghost predicate NamesakesAgree(charts: seq<ChartConfig>) {
    forall x, y :: x in charts && y in charts && x.chartName == y.chartName ==> Reordered(x, y)
  }

  ghost predicate Survives(x: ChartConfig, charts: seq<ChartConfig>) {
    exists y :: y in charts && Reordered(x, y)
  }

  lemma DefaultedNamesDistinct(rounds: seq<Round>, c: Catalog)
    requires |rounds| > 0 && DistinctDefaults(rounds) && IncludesDefaults(c)
    ensures DistinctKeys(ChartKey, Charts(Rounds(rounds, c)))
  {
    var rest, last := rounds[..|rounds| - 1], rounds[|rounds| - 1];
    DefaultingOnlyAdds(rest, c, "");
    DefaultedMeaning(last.sorters, last.defaults, Rounds(rest, c).(annotations := last.annotations), "");
  }

  /** Every chart of a catalog survives defaulting, once or any number of times, if and only if charts that share a
      chart name are the same up to the order of their versions: all but the last of a name are dropped. */
  lemma ChartsSurviveExactly(rounds: seq<Round>, c: Catalog)
    requires |rounds| > 0 && DistinctDefaults(rounds) && IncludesDefaults(c)
    ensures (forall x :: x in Charts(c) ==> Survives(x, Charts(Rounds(rounds, c)))) <==> NamesakesAgree(Charts(c))
  {
    var after := Charts(Rounds(rounds, c));
    DefaultedNamesDistinct(rounds, c);
    if NamesakesAgree(Charts(c)) {
      forall x | x in Charts(c)
        ensures Survives(x, after)
      {
        NamedChart(Charts(c), x);
        DefaultingOnlyAdds(rounds, c, x.chartName);
        var y := LastChart(after, x.chartName).value;
        assert Reordered(x, LastChart(Charts(c), x.chartName).value);
        assert y in after && Reordered(x, y);
      }
    }
    if forall x :: x in Charts(c) ==> Survives(x, after) {
      forall x, y | x in Charts(c) && y in Charts(c) && x.chartName == y.chartName
        ensures Reordered(x, y)
      {
        assert Survives(x, after) && Survives(y, after);
        var x' :| x' in after && Reordered(x, x');
        var y' :| y' in after && Reordered(y, y');
        KeyDetermines(ChartKey, after, x', y');
      }
    }
  }

  /** The applications a defaulted catalog claims: those of the charts that names stand for, and no others. */
  lemma DefaultedTargets(s: Sorters, defaults: seq<ChartConfig>, c: Catalog, app: string)
    requires IncludesDefaults(c) && DistinctKeys(ChartKey, defaults)
    ensures app in Targets(Defaulted(s, defaults, c)) <==>
            exists name :: Standing(defaults, c, name).Some? && GetAppName(Standing(defaults, c, name).value) == app
  {
    var d := Defaulted(s, defaults, c);
    if app in Targets(d) {
      var i := TargetIndex(d, app);
      var name := Charts(d)[i].chartName;
      DefaultedMeaning(s, defaults, c, name);
      OnlyChart(Charts(d), Charts(d)[i]);
      assert GetAppName(Standing(defaults, c, name).value) == app;
    }
    if name :| Standing(defaults, c, name).Some? && GetAppName(Standing(defaults, c, name).value) == app {
      DefaultedMeaning(s, defaults, c, name);
      var y := LastChart(Charts(d), name).value;
      var i :| 0 <= i < |Charts(d)| && Charts(d)[i] == y;
      IndexIsTarget(d, i);
    }
  }

  /** The application belongs to a chart that its chart name stands for. */
  ghost predicate Represented(defaults: seq<ChartConfig>, c: Catalog, app: string) {
    exists name :: Standing(defaults, c, name).Some? && GetAppName(Standing(defaults, c, name).value) == app
  }

  /** Defaulting keeps all applications of a catalog if and only if each belongs to the last chart of its name, or to a
      default that fills in; distinct chart names are enough. */
  lemma ApplicationsKeptExactly(s: Sorters, defaults: seq<ChartConfig>, c: Catalog)
    requires IncludesDefaults(c) && DistinctKeys(ChartKey, defaults)
    ensures Targets(c) <= Targets(Defaulted(s, defaults, c)) <==>
            forall app :: app in Targets(c) ==> Represented(defaults, c, app)
    ensures DistinctKeys(ChartKey, Charts(c)) ==> Targets(c) <= Targets(Defaulted(s, defaults, c))
  {
    forall app
      ensures app in Targets(Defaulted(s, defaults, c)) <==> Represented(defaults, c, app)
    {
      DefaultedTargets(s, defaults, c, app);
    }
    if DistinctKeys(ChartKey, Charts(c)) {
      forall app | app in Targets(c)
        ensures Represented(defaults, c, app)
      {
        var i := TargetIndex(c, app);
        OnlyChart(Charts(c), Charts(c)[i]);
        assert GetAppName(Standing(defaults, c, Charts(c)[i].chartName).value) == app;
      }
    }
  }

  /** A small catalog that loses an application: one chart offered under two application names. */
  function TwoFlavours(name: string): Catalog {
    var info, versions := DisplayInfo("Nginx", "", "", "", "", ""), [ChartVersion("1.0.0", "1.0.0", None)];
    Catalog(name, map[], Some(HelmSpec(None, Some([
      ChartConfig("nginx", Some(ChartMetadata("edge", info)), None, "", None, versions),
      ChartConfig("nginx", Some(ChartMetadata("internal", info)), None, "", None, versions)]), true)))
  }

  lemma TwoFlavoursStanding(defaults: seq<ChartConfig>, name: string, x: string)
    ensures var c := TwoFlavours(name);
            Standing(defaults, c, x) == if x == "nginx" then Some(Charts(c)[1]) else LastChart(defaults, x)
  {
    var charts := Charts(TwoFlavours(name));
    assert charts[..1] == [charts[0]] && [charts[0]][..0] == [];
  }

  /** It has no conflicts of its own, and defaulting drops its first application without a word, whatever the built-in
      charts are, unless another one of them goes by the name of that application. */
  lemma DefaultingDropsApplication(s: Sorters, defaults: seq<ChartConfig>, name: string)
    requires DistinctKeys(ChartKey, defaults)
    requires forall d :: d in defaults && GetAppName(d) == "edge" ==> d.chartName == "nginx"
    ensures DistinctAppNames(TwoFlavours(name)) && Targets(TwoFlavours(name)) == {"edge", "internal"}
    ensures "edge" !in Targets(Defaulted(s, defaults, TwoFlavours(name)))
    ensures "internal" in Targets(Defaulted(s, defaults, TwoFlavours(name)))
  {
    var c := TwoFlavours(name);
    assert |Charts(c)| == 2 && GetAppName(Charts(c)[0]) == "edge" && GetAppName(Charts(c)[1]) == "internal";
    DefaultedTargets(s, defaults, c, "edge");
    DefaultedTargets(s, defaults, c, "internal");
    TwoFlavoursStanding(defaults, name, "nginx");
    forall x | Standing(defaults, c, x).Some?
      ensures GetAppName(Standing(defaults, c, x).value) != "edge"
    {
      TwoFlavoursStanding(defaults, name, x);
    }
  }

  // ---- Keeping up with the built-in charts ----

  /** Nothing stands in the way of the built-in chart: the catalog has no chart of that name, or one like it. */
  ghost predicate Unobstructed(c: Catalog, d: ChartConfig) {
    var user := LastChart(Charts(c), d.chartName);
    user.None? || Reordered(d, user.value)
  }

  lemma DefaultArrives(s: Sorters, defaults: seq<ChartConfig>, c: Catalog, d: ChartConfig)
    requires IncludesDefaults(c) && DistinctKeys(ChartKey, defaults) && d in Selected(defaults, IncludeAnnotation(c))
    ensures Survives(d, Charts(Defaulted(s, defaults, c))) <==> Unobstructed(c, d)
  {
    var after := Charts(Defaulted(s, defaults, c));
    DefaultedMeaning(s, defaults, c, d.chartName);
    SelectedDistinct(defaults, IncludeAnnotation(c));
    OnlyChart(Selected(defaults, IncludeAnnotation(c)), d);
    var y := LastChart(after, d.chartName).value;
    SortedIsRetained(s, d);
    SortedIsRetained(s, SortedVersions(s, d));
    var user := LastChart(Charts(c), d.chartName);
    if user.Some? {
      SortedIsRetained(s, user.value);
    }
    if Survives(d, after) {
      var x :| x in after && Reordered(d, x);
      OnlyChart(after, x);
    } else {
      assert y in after && !Reordered(d, y);
    }
  }

  /** An admission brings a catalog up to date with all selected built-in charts if and only if the catalog has no chart
      of the same name that differs from the built-in one. */
  lemma InSyncExactly(s: Sorters, defaults: seq<ChartConfig>, c: Catalog)
    requires IncludesDefaults(c) && DistinctKeys(ChartKey, defaults)
    ensures (forall d :: d in Selected(defaults, IncludeAnnotation(c)) ==>
               Survives(d, Charts(Defaulted(s, defaults, c)))) <==>
            (forall d :: d in Selected(defaults, IncludeAnnotation(c)) ==> Unobstructed(c, d))
  {
    forall d | d in Selected(defaults, IncludeAnnotation(c))
      ensures Survives(d, Charts(Defaulted(s, defaults, c))) <==> Unobstructed(c, d)
    {
      DefaultArrives(s, defaults, c, d);
    }
  }

  function BuiltIn(version: string): ChartConfig {
    ChartConfig("nginx", None, None, "", None, [ChartVersion(version, version, None)])
  }

  /** A new release of the built-in charts never reaches a catalog that an older one was filled into, even if the
      catalog had no chart of its own. */
  lemma NewDefaultDoesNotArrive(s: Sorters, t: Sorters, name: string)
    ensures var c := Catalog(name, map[], Some(HelmSpec(None, None, true)));
            var filled := Defaulted(s, [BuiltIn("1.0.0")], c);
            && Survives(BuiltIn("1.0.0"), Charts(filled))
            && !Survives(BuiltIn("2.0.0"), Charts(Defaulted(t, [BuiltIn("2.0.0")], filled)))
  {
    var c := Catalog(name, map[], Some(HelmSpec(None, None, true)));
    var one, two := BuiltIn("1.0.0"), BuiltIn("2.0.0");
    var filled := Defaulted(s, [one], c);
    DefaultArrives(s, [one], c, one);
    var y :| y in Charts(filled) && Reordered(one, y);
    DefaultedMeaning(s, [one], c, "nginx");
    OnlyChart(Charts(filled), y);
    assert one.chartVersions[0] in multiset(y.chartVersions);
    assert one.chartVersions[0] !in multiset(two.chartVersions);
    DefaultArrives(t, [two], filled, two);
  }

  /** Mutation always leaves a chart list when defaults were requested. */
  lemma DefaultedNeverWaits(s: Sorters, defaults: seq<ChartConfig>, c: Catalog)
    ensures !Waiting(Defaulted(s, defaults, c))
    ensures Defaulted(s, defaults, c).name == c.name
  {
  }
}
