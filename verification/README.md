# Application Catalog Manager: a verified model

Application Catalog Manager turns `ApplicationCatalog` resources into `ApplicationDefinition` resources. A catalog lists
Helm charts; a controller creates or updates one definition per chart, merges versions with what is stored, keeps the
customisations that cluster users made, and takes its labels off definitions that left the catalog. Two webhooks stand
before it: one fills in default charts, the other refuses catalogs that would fight over a definition.

This project models the controller, the defaulting and the validation, and proves what they promise together.
`dafny verify dfyconfig.toml` checks all of it.

## How the model is built

- Resources are values (`CatalogTypes`). The cluster is an object, `Reconciler.Cluster`, whose methods update the stored
  definitions in place; `Runs` is the state machine of admissions, deletions and reconcile requests.
- Every API call has an outcome: it succeeds, is rejected, or takes effect although an error is reported (`Lost`). The
  outcome of each call of a reconcile is an arbitrary function of the call, so every pattern of failures is covered, a
  crash in the middle included.
- `sort.Slice` is library code and unstable. It is a parameter: any function whose results are ordered permutations, and
  each reconcile may come with a different one. How ties are broken can matter where versions repeat. For settling after
  the second and after the third reconcile, for the outcome of schedules, for the merge of charts and for the idempotence
  of defaulting, the condition under which it does not matter is proved in both directions. `RoundTrip.OrphanRoundTrip`
  has a second case, in which that condition may fail but the reconciles share one sort. Go visits maps in arbitrary
  order; the loops over maps choose their next key arbitrarily.
- Strings are compared lexicographically by code point, which is how Go's bytewise comparison orders UTF-8 text.
- The built-in charts are a parameter with distinct names, non-empty where that matters.
- A patch replaces the stored object by the modified copy: that is the effect of a JSON merge patch (section 2 of
  RFC 7396) when nothing touched the object between read and patch.
- A reconcile may work on a stale read of the catalog where the theorems about runs say so.

What the operations are built from - which catalogs wait, what an application is called, which labels mean what, which
repository wins, how strings are ordered, what counts as white space - is also stated from outside, on the fields of the
resources and the literal label keys (`PlainTerms`, `Converter.RepositoryByLevel`, `LexOrder.LessExactly`, the contract of
`Validation.HandleValidation`, `DefaultingLaws.DefaultedFrame` and others).

The central fact is `Locality.ReconcileIsLocal`: reconcile, a fold of read-modify-write steps over a shared store, acts on
each definition separately. The exact effect, failure isolation, fixed points, commutation, the convergence measure,
confluence and the invariants over runs are all derived from it.

## Results worth knowing

- One error-free reconcile reaches the fixed point exactly when every definition it had to create lists its versions in
  ascending order: creation stores chart order, and only updates sort (`FixedPoints.FixedPointInOne`). Two suffice when
  the charts agree with the store on versions: merging gives no application version two different entries.
- That condition is exact, and waiting longer does not help. Merging overwrites the last entry of a version, and an
  unstable sort may have moved another one there, so a second update changes nothing under every sort if and only if the
  merged entries agree, and so does a third (`TieBreaking.UpdateSettlesExactly`, `TieBreaking.ThirdUpdateExactly`; for
  whole stores, absent targets included, `TieBreaking.ReconcileSettlesExactly` and `TieBreaking.ThirdReconcileExactly`).
  Lists without repeated versions always agree.
- All schedules that serve each catalog at least twice without error end in one store if and only if the catalogs share no
  non-system target and agree with the store (`ConfluenceExact.ConfluentExactly`). Admission, when it waits for the other
  catalogs to settle, provides the first half (`SystemConfluence.AdmittedCatalogsConverge`).
- Charts are merged by chart name, so a catalog that offers one chart under two application names loses the first
  application as soon as defaults are included, although validation has nothing against it
  (`DefaultingLaws.DefaultingDropsApplication`). All charts survive if and only if charts of one name are the same up to
  the order of their versions (`DefaultingLaws.ChartsSurviveExactly`).
- Validation alone does not make ownership exclusive. Two catalogs admitted before the first was reconciled both get in
  (`Ownership.TwoQuickAdmissions`). No admissible request can break exclusivity exactly when every stored catalog is
  settled (`Ownership.AdmissionIsSafeExactlyWhenSettled`). Waiting for each catalog's reconcile before admitting the next
  is enough (`Ownership.PacedRunsAreExclusive`) if the controller's reads of catalogs are current, or stale in a harmless
  way: claiming all that the stored version claims and nothing that another stored catalog claims. Harmless reads are
  exactly those after which settled catalogs stay settled (`Ownership.SettledKeptExactly`); a single other one can end
  exclusive ownership (`Ownership.StaleReadBreaksPacing`).
- Removing a chart and adding it back restores the store exactly unless the removed application is a system application
  that carried the catalog's label (`RoundTrip.OrphanRoundTrip`, with the failing store in `RoundTrip.MarkIsNotRestored`).
  That label is lost for good: no run gives it back (`Runs.RunsOnlyStripSystem`).
- The type documentation says that `includeDefaults` keeps a catalog in sync with the default catalog
  (pkg/apis/applicationcatalog/v1alpha1/applicationcatalog_types.go:38-44). The code does less, and the model follows the
  code. A chart that was filled in once counts as the user's from then on, so a new release of it never arrives, not even
  in a catalog that had no charts of its own (`DefaultingLaws.NewDefaultDoesNotArrive`). An admission brings a catalog up
  to date with all selected built-in charts if and only if it has no chart of the same name that differs from the built-in
  one (`DefaultingLaws.InSyncExactly`).

## Model

| member | source | states |
|---|---|---|
| LexOrder.Trichotomy | internal/controllers/synchronizer/reconciler.go:186-188 | Go's string order is total and antisymmetric; which order it is: `LexOrder.LessExactly` |
| LexOrder.Transitive | internal/controllers/synchronizer/reconciler.go:186-188 | and transitive |
| LexOrder.LessExactly | internal/controllers/synchronizer/reconciler.go:186-188 | the order is the ascending one: a proper prefix comes first, and so does the string with the smaller character at the first difference |
| Sorting.SortUnique | internal/controllers/synchronizer/reconciler.go:185-188 | there is only one ordered permutation of a list in which entries with equal keys are equal |
| Sorting.SortersAgree | internal/controllers/synchronizer/reconciler.go:185-188 | where entries with equal keys are equal, all sorts agree, re-sorting changes nothing, and sorting is the identity exactly on ordered lists |
| Converter.ConvertVersions | internal/controllers/synchronizer/converter.go:71-104 | the loop yields the conversion of each chart version, in order; what that conversion is: `Converter.RepositoryByLevel` and `Reflection.CatalogIsReflected` |
| Converter.ConvertChartToApplicationDefinition | internal/controllers/synchronizer/converter.go:31-66 | desired definition of a chart, and its name: the application name of the metadata if that is set, else the chart name |
| Converter.ConversionIsCoherent | pkg/apis/applicationcatalog/v1alpha1/applicationcatalog_types.go:105-139 | URL and credentials come from the strongest level that has a base URL, both from that one level; the default repository never gets credentials; the deciding level is unique |
| Converter.RepositoryByLevel | pkg/apis/applicationcatalog/v1alpha1/applicationcatalog_types.go:97-139 | on the fields: the version's repository if it has a base URL, else the chart's, else the catalog's, else the default one without credentials |
| VersionMerge.IndexVersions | internal/controllers/synchronizer/reconciler.go:245-248 | the index holds exactly the versions of the list, each with its last position |
| VersionMerge.MergeVersions | internal/controllers/synchronizer/reconciler.go:237-263 | the indexed merge produces, for all inputs, the position-by-position description `Merge` |
| VersionMerge.MergeOverrides | internal/controllers/synchronizer/reconciler.go:237-263 | read as a map in which the last entry wins, the merge is plain map override, duplicates included; its versions are the union |
| VersionMerge.MergeLast | internal/controllers/synchronizer/reconciler.go:253-260 | the last entry for a version is the last desired one if any, else the last existing one |
| VersionMerge.MergeCounts | internal/controllers/synchronizer/reconciler.go:250-260 | each version occurs as often as in the existing list, or as in the desired list if it is new; existing entries keep their positions |
| VersionMerge.MergeProvenance | internal/controllers/synchronizer/reconciler.go:250-260 | every merged entry comes from one of the lists |
| VersionMerge.MergeSortSettles | internal/controllers/synchronizer/reconciler.go:184-188 | where the merged entries of each version agree, merging and sorting again changes nothing, for any two sorts |
| AppUpdate.EnsureEntries | internal/pkg/kubernetes/metadata.go:27-51 | existing entries are kept, given ones overwrite, in any visiting order |
| AppUpdate.UpdateApplicationDefinition | internal/controllers/synchronizer/reconciler.go:151-191 | the modification handed to the patch computes `Promote`, which the rows on preservation, reflection and ascending versions describe |
| AppUpdate.PromoteSettles | internal/controllers/synchronizer/reconciler.go:158-190 | updating twice with the same chart is updating once, whatever the sorts do with ties, where the merged entries agree |
| AppUpdate.CreatedIsSettled | internal/controllers/synchronizer/reconciler.go:126-129 | a created definition is already settled exactly when its versions are in order |
| AppUpdate.PromoteRestores | internal/controllers/synchronizer/reconciler.go:159 | an update makes up for removed catalog labels |
| TieBreaking.UpdateSettlesExactly | internal/controllers/synchronizer/reconciler.go:184-189 | for every stored definition and chart: a second update changes nothing under every sort if and only if merging gives no version two different entries |
| TieBreaking.ThirdUpdateExactly | internal/controllers/synchronizer/reconciler.go:184-189 | a third update changes nothing under every sort if and only if the same holds |
| TieBreaking.ThirdReconcileExactly | internal/controllers/synchronizer/reconciler.go:115-191 | for every store, absent targets included: a third reconcile changes nothing under every sort if and only if the charts agree with the store |
| TieBreaking.ReconcileSettlesExactly | internal/controllers/synchronizer/reconciler.go:115-191 | for every store: a second reconcile changes nothing under every sort if and only if the charts agree with the store and the targets to be created list their versions in order |
| TieBreaking.CreatedSettlesExactly | internal/controllers/synchronizer/reconciler.go:126-129 | the same for a created definition: if and only if the chart has no two different entries for one version |
| TieBreaking.ListedVersionDoesNotSettle | internal/controllers/synchronizer/reconciler.go:253-257 | if the chart lists the version: a sort that puts a losing entry last gets it overwritten by the next merge |
| TieBreaking.UnlistedVersionDoesNotSettle | internal/controllers/synchronizer/reconciler.go:185-188 | if only the cluster has the version: two sorts that favour different entries keep the definition changing |
| Reconciler.Cluster.Put | internal/pkg/kubernetes/client.go:28-36 | a write changes the one object unless it was rejected, and reports success only if it succeeded |
| Reconciler.Cluster.ReconcileApplicationDefinition | internal/controllers/synchronizer/reconciler.go:115-139 | create, skip or update; the returned error is exactly the call that failed |
| Reconciler.Cluster.UnmanageListed | internal/controllers/synchronizer/reconciler.go:199-233 | whatever the list order, exactly the labelled and not generated definitions lose their labels (which ones: `PlainTerms.PlainEffect`); errors are exactly the failed calls |
| Reconciler.Cluster.HandleRequest | internal/controllers/synchronizer/reconciler.go:41-112 | the controller computes `Reconcile`; it reports an error exactly when an issued call failed and then names exactly those; it requeues exactly when the Helm section includes defaults and has no chart list, and then nothing changed |
| PlainTerms.AwaitingChangesNothing | internal/controllers/synchronizer/reconciler.go:73-80 | under every outcome, a catalog that includes defaults and has no chart list leaves the store as it is and causes no further call |
| PlainTerms.PlainEffect | internal/controllers/synchronizer/reconciler.go:88-104 | an error-free reconcile on fields and literal labels: claimed definitions carry both labels unless the platform manages them; those no longer claimed lose both and keep every other label, annotations and specification; the rest is untouched |
| PlainTerms.PlainDeletion | internal/controllers/synchronizer/reconciler.go:193-233 | after a deletion, the same for all that carries the catalog's name |
| PlainTerms.FailedCallsChangeNothing | internal/controllers/synchronizer/reconciler.go:63-71 | a failed read of the catalog leaves the store as it is; a failed list or a refused patch leaves alone what the catalog does not claim |
| PlainTerms.UnrefusedWriteLands | internal/controllers/synchronizer/reconciler.go:122-138 | a write that was not refused has its full effect, even if reported as failed |
| PlainTerms.UpdatedVersionsAscend | internal/controllers/synchronizer/reconciler.go:184-189 | an update leaves the merged versions in ascending order, character by character |
| PlainTerms.StoredVersionsAscend | internal/controllers/synchronizer/reconciler.go:184-189 | so does an error-free reconcile for every definition it updates |
| Locality.ReconcileIsLocal | internal/controllers/synchronizer/reconciler.go:88-104 | for every failure pattern, what happens to a definition depends on that definition alone |
| Locality.DeletionIsEmptyCatalog | internal/controllers/synchronizer/reconciler.go:63-67 | handling a deleted catalog equals reconciling an empty one of that name |
| Locality.IssuedCalls | internal/controllers/synchronizer/reconciler.go:91-104 | exactly which API calls are issued, told from the store before |
| Locality.LocalKeepsSystem | internal/controllers/synchronizer/reconciler.go:133-136 | no reconcile makes or unmakes a system application |
| SyncEffect.CleanSync | internal/controllers/synchronizer/reconciler.go:106-111 | a reconcile that reports no error has the effect of one in which nothing can fail |
| SyncEffect.ExactEffect | internal/controllers/synchronizer/reconciler.go:88-104 | which definitions exist and carry the catalog's label afterwards; system targets are unchanged; orphans are stripped; all others are unchanged; on fields and literal labels: `PlainTerms.PlainEffect` |
| SyncEffect.FailureIsolation | internal/controllers/synchronizer/reconciler.go:88-108 | each definition ends untouched or exactly as without failures; targets are never unmanaged; a refused read or write leaves its definition untouched |
| Reflection.CatalogIsReflected | internal/controllers/synchronizer/converter.go:31-104 | after an error-free reconcile each non-system application has its chart's data and offers its versions, of several for one application version already there the last, with the values block of the cluster winning if customised |
| FixedPoints.FixedPointInTwo | internal/controllers/synchronizer/reconciler.go:115-191 | a third error-free reconcile changes nothing; nor does the second if all targets existed; for charts that agree with the store |
| FixedPoints.DistinctSuffices | internal/controllers/synchronizer/reconciler.go:237-263 | charts and stores without repeated versions agree |
| FixedPoints.SyncKeepsAgreement | internal/controllers/synchronizer/reconciler.go:184-189 | agreement is kept under any failures |
| FixedPoints.FixedPointInOne | internal/controllers/synchronizer/reconciler.go:126-129 | the second changes nothing if and only if every created target listed its versions in order |
| FixedPoints.SyncKeepsDistinct | internal/controllers/synchronizer/reconciler.go:184-189 | distinct versions stay distinct under any failures |
| RoundTrip.OrphanRoundTrip | internal/controllers/synchronizer/reconciler.go:199-233 | dropping any charts from a settled catalog and bringing them back restores the store, if and only if no dropped application is a system application labelled with the catalog; for any sorts where charts and store agree |
| RoundTrip.MarkIsNotRestored | internal/controllers/synchronizer/reconciler.go:133-136 | a store at which the round trip fails: a labelled system application loses the label and stays without |
| RoundTrip.SyncsCommute | internal/controllers/synchronizer/reconciler.go:61-112 | reconciles of catalogs without common non-system targets commute, under any failures and without any distinctness |
| RoundTrip.CommuteExactly | internal/controllers/synchronizer/reconciler.go:61-112 | without failures they commute only then |
| Convergence.SyncLowersMeasure | internal/controllers/synchronizer/reconciler.go:88-108 | no reconcile raises the measure under any failures; one that changes the store lowers it |
| Convergence.ChartLowersMeasure | internal/controllers/synchronizer/reconciler.go:115-139 | the same for what the controller does about each single chart, in any state in between and under any outcome |
| Convergence.UnmanageLowersMeasure | internal/controllers/synchronizer/reconciler.go:226-233 | and for each single patch that unmanages an orphan |
| Convergence.ZeroIsFixedPoint | internal/controllers/synchronizer/reconciler.go:88-108 | measure zero is exactly the fixed points |
| Convergence.BoundedChanges | internal/controllers/synchronizer/reconciler.go:41-59 | in any run of reconciles of a catalog, at most as many change the store as the measure was at the start |
| Confluence.ScheduleOutcome | internal/controllers/synchronizer/reconciler.go:61-112 | a closed form of the store after any schedule that serves each name at least twice without error, with any failing requests in between |
| Confluence.SchedulesAgree | internal/controllers/synchronizer/reconciler.go:61-112 | two such schedules end in the same store |
| Confluence.NothingMoreHappens | internal/controllers/synchronizer/reconciler.go:61-112 | that store is a fixed point of every further request |
| ConfluenceExact.ConfluentExactly | internal/controllers/synchronizer/reconciler.go:61-112 | all such schedules end in one store if and only if the catalogs share no non-system target and their charts agree with the store |
| ConfluenceExact.DisagreementDecides | internal/controllers/synchronizer/reconciler.go:184-189 | two schedules that end differently, for every disagreement of a chart with the store |
| ConfluenceExact.SharingDecides | internal/controllers/synchronizer/reconciler.go:158-160 | two schedules that end differently, for every shared non-system target |
| SystemConfluence.AdmittedCatalogsConverge | internal/pkg/admission/applicationcatalog/validation/validation.go:125-187 | after every run of guarded admissions, schedules over any names end in one store if and only if the charts agree with the store |
| ScheduleProgress.OthersDoNotRise | internal/controllers/synchronizer/reconciler.go:88-104 | no request, failing or not, moves another catalog away from its fixed point |
| ScheduleProgress.BoundedChangesTogether | internal/controllers/synchronizer/reconciler.go:41-112 | in any schedule over several catalogs, at most as many requests change the store as the sum of their measures fell |
| IncludeList.ParseIncludeList | internal/pkg/defaulting/applicationcatalog.go:421-432 | splits at commas and trims each part |
| IncludeList.IncludeListRoundTrip | internal/pkg/defaulting/applicationcatalog.go:421-432 | joining plain names with any white space around them and parsing gives them back, exactly unless the text is empty |
| IncludeList.RequestedExactly | internal/pkg/defaulting/applicationcatalog.go:421-432 | conversely every annotation is its requested names, plain, joined with commas and surrounded by white space |
| IncludeList.IsSpaceExactly | internal/pkg/defaulting/applicationcatalog.go:427-429 | white space, code point by code point |
| Defaulting.SortCharts | internal/pkg/defaulting/applicationcatalog.go:474-484 | sorts the versions of each chart and then the charts, in place |
| Defaulting.Values | internal/pkg/defaulting/applicationcatalog.go:445-448 | ranging over the map yields each chart once, in some order |
| Defaulting.MergeCharts | internal/pkg/defaulting/applicationcatalog.go:434-452 | the result is the same for every visiting order of the map |
| Defaulting.FilterDefaultsByName | internal/pkg/defaulting/applicationcatalog.go:454-472 | keeps the included charts in order, all of them for an empty list |
| Defaulting.DefaultApplicationCatalog | internal/pkg/defaulting/applicationcatalog.go:28-47 | the steps of defaulting compute `Defaulted`, which the following rows describe |
| DefaultingLaws.DefaultedFrame | internal/pkg/defaulting/applicationcatalog.go:28-47 | name, annotations, global repository and the switch are kept; without the switch a catalog with a Helm section is unchanged; without a Helm section it gets an empty one |
| DefaultingLaws.DefaultedNamesExactly | internal/pkg/defaulting/applicationcatalog.go:37-46 | the chart names afterwards are the user's and those of the defaults that the annotation under its literal key asks for, all of them if it is missing or empty |
| DefaultingLaws.SortedChartsAscend | internal/pkg/defaulting/applicationcatalog.go:474-484 | sorted charts ascend by chart name, each by chart version, and are the charts given |
| DefaultingLaws.FilteredMembers | internal/pkg/defaulting/applicationcatalog.go:454-472 | an empty include list keeps all charts, any other those it names |
| DefaultingLaws.FilterConcat | internal/pkg/defaulting/applicationcatalog.go:464-469 | the filter keeps the order of the charts |
| DefaultingLaws.UnknownConcat | internal/pkg/defaulting/applicationcatalog.go:513-523 | the validator keeps the order of the request and reports a name as often as it occurs |
| DefaultingLaws.UnknownOne | internal/pkg/defaulting/applicationcatalog.go:513-523 | a single name is reported if it is neither blank nor that of a default |
| Defaulting.ValidateIncludeAnnotation | internal/pkg/defaulting/applicationcatalog.go:500-524 | reports the requested names that are neither blank nor built in, in order |
| DefaultingLaws.MergeChartsMeaning | internal/pkg/defaulting/applicationcatalog.go:434-452 | names strictly increase; each stands for the last user chart of that name, else the last default, with sorted versions |
| DefaultingLaws.MergeChartsUnique | internal/pkg/defaulting/applicationcatalog.go:474-484 | where the charts that come out of the merge agree on their chart versions, the result does not depend on the sorts |
| DefaultingLaws.MergeUniqueExactly | internal/pkg/defaulting/applicationcatalog.go:474-484 | and only then |
| DefaultingLaws.FilterAndValidatorPartition | internal/pkg/defaulting/applicationcatalog.go:454-524 | non-blank requested names are the disjoint union of those kept and those reported; an accepted annotation yields exactly the requested defaults |
| DefaultingLaws.DefaultedMeaning | internal/pkg/defaulting/applicationcatalog.go:28-47 | what each chart name means after defaulting |
| DefaultingLaws.DefaultingIsIdempotent | internal/pkg/defaulting/applicationcatalog.go:28-47 | defaulting twice is defaulting once, where the charts that stay agree on their chart versions |
| DefaultingLaws.IdempotentExactly | internal/pkg/defaulting/applicationcatalog.go:474-484 | and under every sort only then |
| DefaultingLaws.DefaultingOnlyAdds | internal/pkg/defaulting/applicationcatalog.go:28-47 | over any sequence of default sets and annotations the last chart of each name is kept, altered at most in the order of its versions, and new names are those of built-in charts |
| DefaultingLaws.ChartsSurviveExactly | internal/pkg/defaulting/applicationcatalog.go:434-443 | every chart survives any number of defaultings if and only if charts of one chart name are the same up to the order of their versions |
| DefaultingLaws.DefaultedTargets | internal/pkg/defaulting/applicationcatalog.go:434-452 | the applications claimed after defaulting are exactly those of the last user chart of each name and of the defaults that fill in |
| DefaultingLaws.ApplicationsKeptExactly | internal/pkg/defaulting/applicationcatalog.go:434-443 | no application is lost if and only if each belongs to such a chart; distinct chart names are enough |
| DefaultingLaws.DefaultingDropsApplication | internal/pkg/defaulting/applicationcatalog.go:441-443 | a catalog without conflicts that loses one of its two applications, whatever the built-in charts, unless another of them has that application name |
| DefaultingLaws.InSyncExactly | pkg/apis/applicationcatalog/v1alpha1/applicationcatalog_types.go:38-44 | an admission brings in every selected built-in chart if and only if the catalog has no different chart of the same name |
| DefaultingLaws.NewDefaultDoesNotArrive | internal/pkg/defaulting/applicationcatalog.go:437-443 | a catalog without charts of its own that keeps the first release of a built-in chart when the second comes out |
| DefaultingLaws.DefaultedNeverWaits | internal/pkg/defaulting/applicationcatalog.go:33-46 | a mutated catalog never makes the controller wait |
| Validation.FindDuplicates | internal/pkg/admission/applicationcatalog/validation/validation.go:133-147 | one conflict for each chart whose application name occurred before, naming the first chart |
| Validation.DuplicatesExactly | internal/pkg/admission/applicationcatalog/validation/validation.go:133-147 | the reported duplicates are exactly the clashes, each naming the first chart of its application name and a later one |
| Validation.FindForeign | internal/pkg/admission/applicationcatalog/validation/validation.go:169-184 | each foreign application once, with its owner, in any visiting order |
| Validation.DetectConflicts | internal/pkg/admission/applicationcatalog/validation/validation.go:125-187 | the number of conflicts is charts minus distinct names plus foreign targets; none exactly when names are distinct and nothing is foreign |
| Validation.HandleValidation | internal/pkg/admission/applicationcatalog/validation/validation.go:87-115 | exactly when each verdict is given, on fields and literal keys: the annotation is checked only where defaults are included, and every unknown name is reported; a catalog is allowed only if no two charts go by one name and none by a name whose labels say another catalog manages it |
| Runs.Admit | internal/pkg/admission/applicationcatalog/mutation/mutation.go:68-84 | a create or update is mutated, validated and stored exactly if accepted |
| Runs.RunsPreserve | internal/controllers/synchronizer/reconciler.go:141-191 | over every run no definition disappears, versions only accumulate, customisations, foreign labels and annotations stay, and system applications keep their specification |
| Runs.RunsOnlyStripSystem | internal/controllers/synchronizer/reconciler.go:133-136 | over every run a system application stays as it is or loses the catalog labels for good |
| Runs.RunsKeepProvenance | internal/controllers/synchronizer/converter.go:71-104 | every legal run keeps known that each stored version was in the given store or was converted, coherently, from a chart for that application in a catalog stored at some time |
| Runs.RunsKnowOrigins | internal/controllers/synchronizer/reconciler.go:237-263 | so over every run each stored version was there at the start or was converted in that way |
| Runs.RunsNeverWait | internal/controllers/synchronizer/reconciler.go:73-86 | in every run of mutated catalogs no request takes the waiting branch |
| Ownership.SubmitKeepsExclusive | internal/pkg/admission/applicationcatalog/validation/validation.go:125-187 | an admission while the others are settled keeps ownership exclusive |
| Ownership.ExclusiveOwnership | internal/pkg/admission/applicationcatalog/validation/validation.go:17-19 | in every state of a run with such admissions, no non-system application is claimed by two stored catalogs, whatever fails and however stale the reads |
| Ownership.AdmissionIsSafeExactlyWhenSettled | internal/pkg/admission/applicationcatalog/validation/validation.go:169-184 | no admissible request can break exclusivity if and only if all stored catalogs are settled |
| Ownership.TwoQuickAdmissions | internal/pkg/admission/applicationcatalog/validation/validation.go:149-167 | a run of two admissions after which two catalogs claim one application |
| Ownership.CleanReconcileSettles | internal/controllers/synchronizer/reconciler.go:91-104 | an error-free reconcile settles its catalog, even on a harmless stale read |
| Ownership.MarksAreKept | internal/controllers/synchronizer/reconciler.go:158-160 | no reconcile on a harmless read, failing or not, unsettles an application of a stored catalog |
| Ownership.MarkSurvivesExactly | internal/controllers/synchronizer/reconciler.go:91-104 | a mark survives an error-free reconcile on any read if and only if the application is a system application or the catalog as read claims it exactly when it is the marked one |
| Ownership.CurrentReadIsHarmless | internal/controllers/synchronizer/reconciler.go:62-71 | current reads are harmless |
| Ownership.SettledKeptExactly | internal/controllers/synchronizer/reconciler.go:61-112 | settled catalogs stay settled under an error-free reconcile if and only if its read was harmless |
| Ownership.PacedRunsAreExclusive | internal/controllers/synchronizer/reconciler.go:61-112 | admitting a catalog only after all others were reconciled without error is enough for exclusive ownership, on harmless reads |
| Ownership.StaleReadBreaksPacing | internal/controllers/synchronizer/reconciler.go:62-71 | with one read that is not harmless it is not: a run of two steps, from any state with a claimed application, after which two catalogs claim it |

## Left out

- The built-in charts themselves: data; the model takes any list with distinct names.
- Decoding of requests, JSON patches and the texts of messages: a conflict is modelled by what it names, not by its wording.
- The store is taken to keep an empty chart list distinct from none, and an empty label map equal to none.
- Stale reads of definitions and concurrent writers of definitions: the controller processes one request at a time, and the model's store is atomic per call.
- Edits of definitions by users between steps: theorems about runs hold from every starting state, so they apply to each stretch between two edits.
- Requeue intervals, logging, controller set-up, webhook registration and credentials read from secrets.
- Fields of definitions that catalogs never set are one opaque field, reset by every update as in the source.
- VersionMerge.MergeVersions: lists are values, so that the inputs stay unmodified is built in rather than proved.
- Defaulting.DefaultApplicationCatalog: returns the defaulted catalog instead of writing through a pointer; sharing of version lists between copies of a chart is not captured.
- Catalogs with repeated application names: locality, the exact effect, commutation, preservation and provenance cover them; fixed points and confluence do not, as validation refuses such catalogs.
