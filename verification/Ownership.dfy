/** Exclusive ownership: what admission guarantees about which catalog claims which application, and when. */
module Ownership {
  import opened CatalogTypes
  import opened AppUpdate
  import opened Reconciler
  import opened Locality
  import opened SyncEffect
  import opened RoundTrip
  import opened Defaulting
  import opened DefaultingLaws
  import opened Validation
  import opened Runs

  /** Catalogs are stored under their own, non-empty names. */
  ghost predicate WellStored(s: State) {
    forall x :: x in s.catalogs ==> s.catalogs[x].name == x && x != ""
  }

  ghost predicate Shares(s: State, x: string, y: string, n: string) {
    && x in s.catalogs && y in s.catalogs && x != y
    && n in Targets(s.catalogs[x]) && n in Targets(s.catalogs[y])
  }

  /** No application other than a system application is claimed by two stored catalogs. */
  ghost predicate Exclusive(s: State) {
    forall x, y, n :: Shares(s, x, y, n) ==> IsSystem(Lookup(s.apps, n))
  }

  ghost predicate Marked(apps: Apps, owner: string, n: string) {
    IsSystem(Lookup(apps, n)) || (n in apps && Owned(apps[n], owner))
  }

  /** All non-system applications of the catalog exist and carry its labels. */
  ghost predicate Settled(apps: Apps, c: Catalog) {
    forall n :: n in Targets(c) ==> Marked(apps, c.name, n)
  }

  ghost predicate OthersSettled(s: State, name: string) {
    forall y :: y in s.catalogs && y != name ==> Settled(s.apps, s.catalogs[y])
  }

  // ---- One admission ----

  /** An accepted request never claims an application that carries another catalog's labels. */
  lemma AcceptedAvoids(defaults: seq<ChartConfig>, listOk: bool, c: Catalog, apps: Apps, n: string, owner: string)
    requires Accepted(defaults, listOk, c, apps) && n in Targets(c)
    requires n in apps && Owned(apps[n], owner) && owner != ""
    ensures owner == c.name
  {
    assert owner != c.name ==> n in ForeignTargets(apps, c);
  }

  lemma SubmitKeepsExclusive(s: State, step: Step)
    requires WellStored(s) && Exclusive(s) && step.Submit? && Legal(s, step)
    requires OthersSettled(s, step.request.name)
    ensures WellStored(Next(s, step)) && Exclusive(Next(s, step))
  {
    var t := Next(s, step);
    var c := Defaulted(step.sorters, step.defaults, step.request);
    forall x, y, n | Shares(t, x, y, n)
      ensures IsSystem(Lookup(t.apps, n))
    {
      if Admitted(s, step) && (x == c.name || y == c.name) {
        var other := if x == c.name then y else x;
        assert Marked(s.apps, other, n);
        if !IsSystem(Lookup(s.apps, n)) {
          AcceptedAvoids(step.defaults, step.listOk, c, s.apps, n, other);
        }
      } else {
        assert Shares(s, x, y, n);
      }
    }
  }

  lemma ProcessKeepsSystem(env: Env, name: string, view: Option<Catalog>, apps: Apps, n: string)
    ensures IsSystem(Lookup(Reconcile(env, name, view, apps).apps, n)) <==> IsSystem(Lookup(apps, n))
  {
    ProcessIsLocal(env, name, view, apps, n);
    LocalKeepsSystem(env, Effective(name, view), n, Lookup(apps, n));
  }

  /** Deletions and reconciles, failing or stale, cannot break exclusivity. */
  lemma OtherStepsKeepExclusive(s: State, step: Step)
    requires WellStored(s) && Exclusive(s) && !step.Submit?
    ensures WellStored(Next(s, step)) && Exclusive(Next(s, step))
  {
    var t := Next(s, step);
    forall x, y, n | Shares(t, x, y, n)
      ensures IsSystem(Lookup(t.apps, n))
    {
      assert Shares(s, x, y, n);
      if step.Process? {
        ProcessKeepsSystem(step.env, step.name, step.view, s.apps, n);
      }
    }
  }

  // ---- Whole runs ----

  /** Every admission happens while all other stored catalogs are settled. */
  ghost predicate GuardedRun(s: State, steps: seq<Step>)
    decreases |steps|
  {
    |steps| == 0
    || (&& Legal(s, steps[0])
        && (steps[0].Submit? ==> OthersSettled(s, steps[0].request.name))
        && GuardedRun(Next(s, steps[0]), steps[1..]))
  }

  /** In every state reached by such a run, no non-system application is claimed by two stored catalogs. */
  lemma {:induction false} ExclusiveOwnership(s: State, steps: seq<Step>)
    requires WellStored(s) && Exclusive(s) && GuardedRun(s, steps)
    ensures Exclusive(Exec(s, steps))
    decreases |steps|
  {
    if |steps| > 0 {
      if steps[0].Submit? {
        SubmitKeepsExclusive(s, steps[0]);
      } else {
        OtherStepsKeepExclusive(s, steps[0]);
      }
      ExclusiveOwnership(Next(s, steps[0]), steps[1..]);
    }
  }

  // ---- The guard is exact ----

  /** A name under which a catalog may claim `n` although the catalog `y` claims it too. */
  function Rival(apps: Apps, y: string, n: string): string {
    if n in apps && Managed(apps[n]) && Owner(apps[n]) != "" then Owner(apps[n]) else y + "-2"
  }

  /** If an application of a stored catalog is not marked as its own, some request is admitted and claims it too. */
  lemma UnsettledCanBeTaken(s: State, sorters: Sorters, y: string, n: string)
    requires WellStored(s) && y in s.catalogs && n in Targets(s.catalogs[y]) && !Marked(s.apps, y, n)
    ensures var step := Submit(sorters, [], true, SingleChart(Rival(s.apps, y, n), n));
            Legal(s, step) && !Exclusive(Next(s, step))
  {
    var x := Rival(s.apps, y, n);
    var c := SingleChart(x, n);
    var step := Submit(sorters, [], true, c);
    SingleChartTargets(x, n);
    assert x != y && x != "";
    assert Defaulted(sorters, [], c) == c;
    assert ForeignTargets(s.apps, c) == {};
    assert Shares(Next(s, step), x, y, n);
  }

  /** No admissible request can break exclusivity if and only if every stored catalog is settled. */
  lemma AdmissionIsSafeExactlyWhenSettled(s: State, sorters: Sorters)
    requires WellStored(s) && Exclusive(s)
    ensures (forall step: Step :: step.Submit? && Legal(s, step) ==> Exclusive(Next(s, step))) <==>
            (forall y :: y in s.catalogs ==> Settled(s.apps, s.catalogs[y]))
  {
    if forall y :: y in s.catalogs ==> Settled(s.apps, s.catalogs[y]) {
      forall step: Step | step.Submit? && Legal(s, step)
        ensures Exclusive(Next(s, step))
      {
        SubmitKeepsExclusive(s, step);
      }
    } else {
      var y :| y in s.catalogs && !Settled(s.apps, s.catalogs[y]);
      var n :| n in Targets(s.catalogs[y]) && !Marked(s.apps, y, n);
      UnsettledCanBeTaken(s, sorters, y, n);
    }
  }

  /** The race in its smallest form: two catalogs admitted before the controller has processed the first. */
  lemma TwoQuickAdmissions(sorters: Sorters)
    ensures var s := State(map[], map[], {});
            var first := Submit(sorters, [], true, SingleChart("a", "nginx"));
            var second := Submit(sorters, [], true, SingleChart("b", "nginx"));
            LegalRun(s, [first, second]) && Exclusive(s) && !Exclusive(Exec(s, [first, second]))
  {
    var s := State(map[], map[], {});
    var first := Submit(sorters, [], true, SingleChart("a", "nginx"));
    var second := Submit(sorters, [], true, SingleChart("b", "nginx"));
    SingleChartTargets("a", "nginx");
    SingleChartTargets("b", "nginx");
    assert Defaulted(sorters, [], SingleChart("a", "nginx")) == SingleChart("a", "nginx");
    assert Defaulted(sorters, [], SingleChart("b", "nginx")) == SingleChart("b", "nginx");
    assert ForeignTargets(map[], SingleChart("a", "nginx")) == {};
    assert ForeignTargets(map[], SingleChart("b", "nginx")) == {};
    var t := Next(Next(s, first), second);
    assert [first, second][1..] == [second] && [second][1..] == [];
    assert Exec(Next(s, first), [second]) == Exec(t, []) == t;
    assert Shares(t, "a", "b", "nginx");
  }

  // ---- How catalogs get settled and stay so ----

  /** A mark survives an error-free reconcile, on a current read or a stale one, if and only if the application is a
      system application, or the catalog as read claims it exactly when it is the marked one. */
  lemma MarkSurvivesExactly(env: Env, name: string, view: Option<Catalog>, apps: Apps, y: string, n: string)
    requires Effective(name, view).name == name && !Waiting(Effective(name, view))
    requires ErrorFree(env, name, view, apps) && Marked(apps, y, n)
    ensures Marked(Reconcile(env, name, view, apps).apps, y, n) <==>
            IsSystem(Lookup(apps, n)) || (n in Targets(Effective(name, view)) <==> name == y)
  {
    var c := Effective(name, view);
    DeletionIsEmptyCatalog(env, name, apps);
    ExactEffectAt(env, c, apps, n);
    ProcessKeepsSystem(env, name, view, apps, n);
    if n in apps {
      StripFacts(apps[n], y);
    }
  }

  /** The catalog as read claims all that the stored catalog of that name claims, and nothing that another stored
      catalog claims, system applications aside. */
  ghost predicate Harmless(s: State, name: string, view: Option<Catalog>) {
    forall y, n :: y in s.catalogs && n in Targets(s.catalogs[y]) && !IsSystem(Lookup(s.apps, n)) ==>
      (n in Targets(Effective(name, view)) <==> name == y)
  }

  /** A current read is harmless. */
  lemma CurrentReadIsHarmless(s: State, name: string)
    requires Exclusive(s)
    ensures Harmless(s, name, Lookup(s.catalogs, name))
  {
    forall y, n | y in s.catalogs && n in Targets(s.catalogs[y]) && !IsSystem(Lookup(s.apps, n))
      ensures n in Targets(Effective(name, Lookup(s.catalogs, name))) <==> name == y
    {
      assert !Shares(s, name, y, n);
    }
  }

  /** Where all stored catalogs are settled, an error-free reconcile leaves them so if and only if its read was
      harmless. */
  lemma SettledKeptExactly(s: State, env: Env, name: string, view: Option<Catalog>)
    requires WellStored(s) && forall y :: y in s.catalogs ==> Settled(s.apps, s.catalogs[y])
    requires Effective(name, view).name == name && !Waiting(Effective(name, view))
    requires ErrorFree(env, name, view, s.apps)
    ensures (forall y :: y in s.catalogs ==> Settled(Reconcile(env, name, view, s.apps).apps, s.catalogs[y])) <==>
            Harmless(s, name, view)
  {
    var after := Reconcile(env, name, view, s.apps).apps;
    forall y, n | y in s.catalogs && n in Targets(s.catalogs[y])
      ensures Marked(after, y, n) <==>
              IsSystem(Lookup(s.apps, n)) || (n in Targets(Effective(name, view)) <==> name == y)
    {
      assert Marked(s.apps, y, n);
      MarkSurvivesExactly(env, name, view, s.apps, y, n);
    }
    if forall y :: y in s.catalogs ==> Settled(after, s.catalogs[y]) {
      forall y, n | y in s.catalogs && n in Targets(s.catalogs[y]) && !IsSystem(Lookup(s.apps, n))
        ensures n in Targets(Effective(name, view)) <==> name == y
      {
        assert Marked(after, y, n);
      }
    }
  }

  /** A reconcile on a harmless read, failing or not, never takes a mark away that a stored catalog relies on. */
  lemma MarksAreKept(s: State, env: Env, name: string, view: Option<Catalog>, y: string, n: string)
    requires Harmless(s, name, view) && Effective(name, view).name == name
    requires y in s.catalogs && n in Targets(s.catalogs[y]) && Marked(s.apps, y, n)
    ensures Marked(Reconcile(env, name, view, s.apps).apps, y, n)
  {
    var c, v := Effective(name, view), Lookup(s.apps, n);
    ProcessIsLocal(env, name, view, s.apps, n);
    ProcessKeepsSystem(env, name, view, s.apps, n);
    if !IsSystem(v) {
      assert n in Targets(c) <==> name == y;
      ChartsOwnOrSkip(env, c, |Charts(c)|, n, v);
    }
  }

  /** An error-free reconcile settles its catalog, even on a stale read that misses none of its applications. */
  lemma CleanReconcileSettles(s: State, env: Env, name: string, view: Option<Catalog>)
    requires WellStored(s) && name in s.catalogs && Harmless(s, name, view)
    requires Effective(name, view).name == name && !Waiting(Effective(name, view))
    requires ErrorFree(env, name, view, s.apps)
    ensures Settled(Reconcile(env, name, view, s.apps).apps, s.catalogs[name])
  {
    var c := Effective(name, view);
    DeletionIsEmptyCatalog(env, name, s.apps);
    forall n | n in Targets(s.catalogs[name])
      ensures Marked(Reconcile(env, name, view, s.apps).apps, name, n)
    {
      ExactEffectAt(env, c, s.apps, n);
      ProcessKeepsSystem(env, name, view, s.apps, n);
    }
  }

  /** Catalogs admitted since their last error-free reconcile. */
  ghost function Pending(s: State, step: Step, pending: set<string>): set<string> {
    match step
    case Submit(_, _, _, request) => if Admitted(s, step) then pending + {request.name} else pending
    case Remove(name) => pending - {name}
    case Process(env, name, view) => if ErrorFree(env, name, view, s.apps) then pending - {name} else pending
  }

  /** A run in which the controller's reads are current, or stale but harmless, and a catalog is admitted only when
      every other catalog has been reconciled without error since its own admission. */
  ghost predicate PacedRun(s: State, steps: seq<Step>, pending: set<string>)
    decreases |steps|
  {
    |steps| == 0
    || (&& Legal(s, steps[0])
        && (steps[0].Submit? ==> pending <= {steps[0].request.name})
        && (steps[0].Process? ==> Harmless(s, steps[0].name, steps[0].view))
        && PacedRun(Next(s, steps[0]), steps[1..], Pending(s, steps[0], pending)))
  }

  /** What pacing cannot do without is harmless reads. From any state in which some stored catalog claims an
      application, one error-free reconcile on a stale version of another catalog that used to claim it, followed by
      one admission, leads to two stored catalogs claiming it, although no catalog is left waiting for a reconcile. */
  lemma StaleReadBreaksPacing(s: State, sorters: Sorters, sort: VersionSorter, former: Catalog, y: string, n: string)
    requires WellStored(s) && y in s.catalogs && n in Targets(s.catalogs[y]) && !IsSystem(Lookup(s.apps, n))
    requires former in s.seen && former.name != "" && former.name != y && n in Targets(former) && !Waiting(former)
    ensures var stale := Process(Calm(sort), former.name, Some(former));
            var claim := Submit(sorters, [], true, SingleChart(former.name, n));
            && LegalRun(s, [stale, claim])
            && Pending(s, stale, {}) == {}
            && !Exclusive(Exec(s, [stale, claim]))
  {
    var stale := Process(Calm(sort), former.name, Some(former));
    var claim := Submit(sorters, [], true, SingleChart(former.name, n));
    var t := Next(s, stale);
    ExactEffectAt(Calm(sort), former, s.apps, n);
    assert Owned(t.apps[n], former.name);
    SingleChartTargets(former.name, n);
    assert Defaulted(sorters, [], SingleChart(former.name, n)) == SingleChart(former.name, n);
    assert ForeignTargets(t.apps, SingleChart(former.name, n)) == {};
    ProcessKeepsSystem(Calm(sort), former.name, Some(former), s.apps, n);
    assert Shares(Next(t, claim), former.name, y, n);
    assert [stale, claim][1..] == [claim] && [claim][1..] == [];
    assert Exec(t, [claim]) == Exec(Next(t, claim), []) == Next(t, claim);
  }

  ghost predicate PacedInvariant(s: State, pending: set<string>) {
    && WellStored(s) && Exclusive(s)
    && (forall c :: c in s.seen ==> !Waiting(c))
    && (forall x :: x in s.catalogs && x !in pending ==> Settled(s.apps, s.catalogs[x]))
  }

  lemma PacedSubmit(s: State, step: Step, pending: set<string>)
    requires PacedInvariant(s, pending) && step.Submit? && Legal(s, step) && pending <= {step.request.name}
    ensures PacedInvariant(Next(s, step), Pending(s, step, pending))
  {
    SubmitKeepsExclusive(s, step);
    DefaultedNeverWaits(step.sorters, step.defaults, step.request);
  }

  lemma PacedProcess(s: State, step: Step, pending: set<string>)
    requires PacedInvariant(s, pending) && step.Process? && Legal(s, step) && Harmless(s, step.name, step.view)
    ensures PacedInvariant(Next(s, step), Pending(s, step, pending))
  {
    OtherStepsKeepExclusive(s, step);
    var t := Next(s, step);
    forall x | x in t.catalogs && x !in Pending(s, step, pending)
      ensures Settled(t.apps, t.catalogs[x])
    {
      if x !in pending {
        forall n | n in Targets(s.catalogs[x])
          ensures Marked(t.apps, x, n)
        {
          MarksAreKept(s, step.env, step.name, step.view, x, n);
        }
      } else {
        CleanReconcileSettles(s, step.env, step.name, step.view);
      }
    }
  }

  /** Waiting for each catalog's reconcile before admitting the next is enough for exclusive ownership. */
  lemma {:induction false} PacedRunsAreExclusive(s: State, steps: seq<Step>, pending: set<string>)
    requires PacedInvariant(s, pending) && PacedRun(s, steps, pending)
    ensures Exclusive(Exec(s, steps))
    decreases |steps|
  {
    if |steps| > 0 {
      if steps[0].Submit? {
        PacedSubmit(s, steps[0], pending);
      } else if steps[0].Process? {
        PacedProcess(s, steps[0], pending);
      } else {
        OtherStepsKeepExclusive(s, steps[0]);
      }
      PacedRunsAreExclusive(Next(s, steps[0]), steps[1..], Pending(s, steps[0], pending));
    }
  }
}
