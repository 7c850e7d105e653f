/** Updating one stored ApplicationDefinition: the read-modify-write that the controller patches in. */
module AppUpdate {
  import opened CatalogTypes
  import opened Converter
  import opened Sorting
  import opened VersionMerge

  /** Any behaviour `sort.Slice` may have on application versions. */
  type VersionSorter = f: seq<AppVersion> -> seq<AppVersion> | Sorts(VersionKey, f)
    witness ReferenceSorter(VersionKey)

  const REFERENCE: VersionSorter := ReferenceSorter(VersionKey)

  /** A values block that counts as a user customisation. */
  predicate Customised(block: string) {
    block != "" && block != "{}"
  }

  /** The definition after a successful update: cluster state wins for the preserved fields,
      the catalog wins for everything else, and versions are merged and sorted. */
  function Promote(sort: VersionSorter, existing: AppDef, desired: AppDef): AppDef {
    AppDef(
      existing.labels + desired.labels,
      existing.annotations + desired.annotations,
      desired.spec.(
        enforced := existing.spec.enforced || desired.spec.enforced,
        isDefault := existing.spec.isDefault || desired.spec.isDefault,
        datacenters := if existing.spec.datacenters.Some? then existing.spec.datacenters else desired.spec.datacenters,
        defaultVersion := if existing.spec.defaultVersion != "" then existing.spec.defaultVersion
                          else desired.spec.defaultVersion,
        defaultValuesBlock := if Customised(existing.spec.defaultValuesBlock) then existing.spec.defaultValuesBlock
                              else desired.spec.defaultValuesBlock,
        versions := sort(Merge(existing.spec.versions, desired.spec.versions))))
  }

  /** The definition after its catalog labels have been removed. */
  function Strip(a: AppDef): AppDef {
    a.(labels := a.labels - CATALOG_LABELS)
  }

  /** `maps.Clone` followed by overwriting the given keys, in whatever order Go visits them. */
  method EnsureEntries(entries: map<string, string>, toEnsure: map<string, string>) returns (r: map<string, string>)
    ensures r == entries + toEnsure
  {
    r := entries;
    var todo := toEnsure.Keys;
    while todo != {}
      invariant todo <= toEnsure.Keys
      invariant r == entries + (map k | k in toEnsure && k !in todo :: toEnsure[k])
      decreases todo
    {
      var key :| key in todo;
      r := r[key := toEnsure[key]];
      todo := todo - {key};
    }
    assert (map k | k in toEnsure && k !in todo :: toEnsure[k]) == toEnsure;
  }

  /** The modification that the controller hands to `PatchObject`. */
  method UpdateApplicationDefinition(sort: VersionSorter, existing: AppDef, desired: AppDef) returns (patched: AppDef)
    ensures patched == Promote(sort, existing, desired)
  {
    var labels := EnsureEntries(existing.labels, desired.labels);
    var annotations := EnsureEntries(existing.annotations, desired.annotations);
    var spec := desired.spec;
    if existing.spec.enforced {
      spec := spec.(enforced := true);
    }
    if existing.spec.isDefault {
      spec := spec.(isDefault := true);
    }
    if existing.spec.datacenters.Some? {
      spec := spec.(datacenters := existing.spec.datacenters);
    }
    if existing.spec.defaultVersion != "" {
      spec := spec.(defaultVersion := existing.spec.defaultVersion);
    }
    if existing.spec.defaultValuesBlock != "" && existing.spec.defaultValuesBlock != "{}" {
      spec := spec.(defaultValuesBlock := existing.spec.defaultValuesBlock);
    }
    var merged := MergeVersions(existing.spec.versions, desired.spec.versions);
    spec := spec.(versions := sort(merged));
    patched := AppDef(labels, annotations, spec);
  }

  // ---- Settling ----

  /** Merging the two definitions gives no version two different entries. */
  ghost predicate Agreeing(existing: AppDef, desired: AppDef) {
    TiesAgree(VersionKey, Merge(existing.spec.versions, desired.spec.versions))
  }

  /** Then one update reaches a state that no further update with the same chart changes, and it does not matter how the
      sorter treats equal keys. */
  lemma PromoteSettles(f: VersionSorter, g: VersionSorter, a: AppDef, d: AppDef)
    requires Agreeing(a, d)
    ensures Promote(f, a, d) == Promote(g, a, d)
    ensures Promote(g, Promote(f, a, d), d) == Promote(f, a, d)
    ensures Agreeing(Promote(f, a, d), d)
  {
    MergeSortSettles(f, g, a.spec.versions, d.spec.versions);
    PromoteAgain(f, g, a, d);
  }

  /** Only the versions can keep an update from settling. */
  lemma PromoteAgain(f: VersionSorter, g: VersionSorter, a: AppDef, d: AppDef)
    ensures var r := f(Merge(a.spec.versions, d.spec.versions));
            Promote(g, Promote(f, a, d), d) == Promote(f, a, d) <==> g(Merge(r, d.spec.versions)) == r
  {
    assert (a.labels + d.labels) + d.labels == a.labels + d.labels;
    assert (a.annotations + d.annotations) + d.annotations == a.annotations + d.annotations;
    var b, b' := Promote(f, a, d), Promote(g, Promote(f, a, d), d);
    assert b'.labels == b.labels && b'.annotations == b.annotations;
    assert b'.spec == b.spec.(versions := b'.spec.versions);
  }

  /** A freshly created definition is already settled exactly when the catalog listed its versions in order. */
  lemma CreatedIsSettled(f: VersionSorter, d: AppDef)
    requires TiesAgree(VersionKey, d.spec.versions)
    ensures Promote(f, d, d) == d <==> Ordered(VersionKey, d.spec.versions)
  {
    MergeSelf(d.spec.versions);
    SortersAgree(VersionKey, f, f, d.spec.versions);
    assert d.labels + d.labels == d.labels && d.annotations + d.annotations == d.annotations;
  }

  /** Losing the catalog labels is undone by the next update. */
  lemma PromoteRestores(f: VersionSorter, a: AppDef, c: Catalog, chart: ChartConfig)
    ensures Promote(f, Strip(a), Convert(c, chart)) == Promote(f, a, Convert(c, chart))
  {
  }

  lemma StripFacts(a: AppDef, name: string)
    ensures !Labelled(Strip(a), name)
    ensures IsSystemApplication(Strip(a)) <==> IsSystemApplication(a)
    ensures Strip(Strip(a)) == Strip(a)
  {
  }

  lemma SystemLabelIsForeign()
    ensures LABEL_SYSTEM !in CATALOG_LABELS
    ensures LABEL_MANAGED_BY != LABEL_CATALOG_NAME
  {
  }

  lemma PromoteFacts(f: VersionSorter, a: AppDef, c: Catalog, chart: ChartConfig)
    ensures var b := Promote(f, a, Convert(c, chart));
            Owned(b, c.name) && (IsSystemApplication(b) <==> IsSystemApplication(a))
    ensures Owned(Convert(c, chart), c.name) && !IsSystemApplication(Convert(c, chart))
  {
  }
}
