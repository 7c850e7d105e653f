/** The states that admission leads to are states from which the controller converges. */
module SystemConfluence {
  import opened CatalogTypes
  import opened FixedPoints
  import opened Confluence
  import opened ConfluenceExact
  import opened DefaultingLaws
  import opened Runs
  import opened Ownership

  ghost predicate AllRegular(s: State) {
    forall x :: x in s.catalogs ==> Regular(s.catalogs[x])
  }

  /** Admission lets only regular catalogs in. */
  lemma SubmitKeepsRegular(s: State, step: Step)
    requires AllRegular(s) && step.Submit?
    ensures AllRegular(Next(s, step))
  {
    DefaultedNeverWaits(step.sorters, step.defaults, step.request);
  }

  lemma {:induction false} GuardedRunsStayRegular(s: State, steps: seq<Step>)
    requires WellStored(s) && Exclusive(s) && AllRegular(s) && GuardedRun(s, steps)
    ensures var t := Exec(s, steps);
            WellStored(t) && Exclusive(t) && AllRegular(t)
    decreases |steps|
  {
    if |steps| > 0 {
      if steps[0].Submit? {
        SubmitKeepsExclusive(s, steps[0]);
        SubmitKeepsRegular(s, steps[0]);
      } else {
        OtherStepsKeepExclusive(s, steps[0]);
      }
      GuardedRunsStayRegular(Next(s, steps[0]), steps[1..]);
    }
  }

  /** In such a state no two names, of stored or of deleted catalogs, compete for a definition. */
  lemma ExclusiveIsDisjoint(s: State, names: set<string>)
    requires WellStored(s) && Exclusive(s) && AllRegular(s)
    ensures WellNamed(s.catalogs, names) && Disjoint(s.catalogs, names, s.apps)
  {
    forall x, y, n | x in names && y in names && x != y
                     && n in Targets(Wanted(s.catalogs, x)) && n in Targets(Wanted(s.catalogs, y))
      ensures IsSystem(Lookup(s.apps, n))
    {
      assert Shares(s, x, y, n);
    }
  }

  /** After every run in which admissions wait for the other catalogs to settle, all schedules over any set of names
      that serve each at least twice without error, whatever else fails in them, end in one store - if and only if the
      charts agree with the store on versions. */
  lemma AdmittedCatalogsConverge(s: State, steps: seq<Step>, names: set<string>)
    requires WellStored(s) && Exclusive(s) && AllRegular(s) && GuardedRun(s, steps)
    ensures var t := Exec(s, steps);
            Confluent(t.catalogs, names, t.apps) <==>
            forall x :: x in names ==> AgreesWith(Wanted(t.catalogs, x), t.apps)
  {
    var t := Exec(s, steps);
    GuardedRunsStayRegular(s, steps);
    ExclusiveIsDisjoint(t, names);
    ConfluentExactly(t.catalogs, names, t.apps);
  }
}
