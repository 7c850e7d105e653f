/** Schedules over several catalogs: whatever the order and whatever fails on the way, the store ends up the same. */
module Confluence {
  import opened CatalogTypes
  import opened Converter
  import opened AppUpdate
  import opened Reconciler
  import opened Locality
  import opened SyncEffect
  import opened FixedPoints

  datatype Request = Request(env: Env, name: string)

  /** The catalog that a request works with; a name without a catalog counts as an empty catalog. */
  function Wanted(catalogs: map<string, Catalog>, name: string): Catalog {
    if name in catalogs then catalogs[name] else Catalog(name, map[], None)
  }

  function Serve(catalogs: map<string, Catalog>, q: Request, apps: Apps): Report {
    Reconcile(q.env, q.name, Lookup(catalogs, q.name), apps)
  }

  function Run(catalogs: map<string, Catalog>, schedule: seq<Request>, apps: Apps): Apps {
    if |schedule| == 0 then apps
    else Serve(catalogs, schedule[|schedule| - 1], Run(catalogs, schedule[..|schedule| - 1], apps)).apps
  }

  /** How many requests for `name` were served without error. */
  ghost function CleanRuns(catalogs: map<string, Catalog>, schedule: seq<Request>, apps: Apps, name: string): nat {
    if |schedule| == 0 then 0
    else
      var rest, q := schedule[..|schedule| - 1], schedule[|schedule| - 1];
      CleanRuns(catalogs, rest, apps, name)
      + if q.name == name && ErrorFree(q.env, q.name, Lookup(catalogs, q.name), Run(catalogs, rest, apps)) then 1 else 0
  }

  ghost predicate Serves(catalogs: map<string, Catalog>, names: set<string>, schedule: seq<Request>, apps: Apps) {
    && (forall i :: 0 <= i < |schedule| ==> schedule[i].name in names)
    && (forall x :: x in names ==> CleanRuns(catalogs, schedule, apps, x) >= 2)
  }

  /** The catalogs asked for are stored under their own names and are regular, their charts agree with the store on
      versions, and they share no target that is not a system application. */
  ghost predicate Compatible(catalogs: map<string, Catalog>, names: set<string>, apps: Apps) {
    && WellNamed(catalogs, names)
    && (forall x :: x in names ==> AgreesWith(Wanted(catalogs, x), apps))
    && Disjoint(catalogs, names, apps)
  }

  /** The catalogs share no target that is not a system application. */
  ghost predicate Disjoint(catalogs: map<string, Catalog>, names: set<string>, apps: Apps) {
    forall x, y, n :: x in names && y in names && x != y
                      && n in Targets(Wanted(catalogs, x)) && n in Targets(Wanted(catalogs, y)) ==>
      IsSystem(Lookup(apps, n))
  }

  ghost predicate WellNamed(catalogs: map<string, Catalog>, names: set<string>) {
    forall x :: x in names ==> Wanted(catalogs, x).name == x && Regular(Wanted(catalogs, x))
  }

  ghost predicate ClaimedBy(catalogs: map<string, Catalog>, names: set<string>, n: string, v: Option<AppDef>,
                            x: string)
  {
    x in names && n in Targets(Wanted(catalogs, x)) && !IsSystem(v)
  }

  ghost predicate Abandoned(catalogs: map<string, Catalog>, names: set<string>, n: string, v: Option<AppDef>) {
    v.Some? && LABEL_CATALOG_NAME in v.value.labels
    && v.value.labels[LABEL_CATALOG_NAME] in names
    && n !in Targets(Wanted(catalogs, v.value.labels[LABEL_CATALOG_NAME]))
  }

  /** The final state of a definition, without reference to any schedule. */
  ghost function Final(catalogs: map<string, Catalog>, names: set<string>, n: string, v: Option<AppDef>):
    Option<AppDef>
  {
    if exists x :: ClaimedBy(catalogs, names, n, v, x) then
      var x :| ClaimedBy(catalogs, names, n, v, x);
      var c := Wanted(catalogs, x);
      Goal(c, n, Goal(c, n, v))
    else if Abandoned(catalogs, names, n, v) then Some(Strip(v.value))
    else v
  }

  lemma ServeIsSync(catalogs: map<string, Catalog>, q: Request, apps: Apps)
    requires Wanted(catalogs, q.name).name == q.name
    ensures Serve(catalogs, q, apps) == Sync(q.env, Wanted(catalogs, q.name), apps)
    ensures ErrorFree(q.env, q.name, Lookup(catalogs, q.name), apps) <==> Clean(q.env, Wanted(catalogs, q.name), apps)
  {
  }

  /** What one request does to one definition. */
  lemma ServeAt(catalogs: map<string, Catalog>, q: Request, apps: Apps, n: string)
    requires Wanted(catalogs, q.name).name == q.name && Regular(Wanted(catalogs, q.name))
    requires Agrees(Wanted(catalogs, q.name), n, Lookup(apps, n))
    ensures var c, v, u := Wanted(catalogs, q.name), Lookup(apps, n), Lookup(Serve(catalogs, q, apps).apps, n);
            && (u == v || u == Goal(c, n, v))
            && (ErrorFree(q.env, q.name, Lookup(catalogs, q.name), apps) ==> u == Goal(c, n, v))
  {
    var c := Wanted(catalogs, q.name);
    ServeIsSync(catalogs, q, apps);
    ReconcileIsLocal(q.env, c, apps, n);
    StepsTowardsGoal(q.env, c, n, Lookup(apps, n));
    if ErrorFree(q.env, q.name, Lookup(catalogs, q.name), apps) {
      CleanReachesGoal(q.env, c, apps, n);
    }
  }

  // ---- A definition claimed by a catalog ----

  function StripAny(v: Option<AppDef>): Option<AppDef> {
    if v.Some? then Some(Strip(v.value)) else v
  }

  /** How far a claimed definition has come: `j` reconciles of its catalog have certainly gone through. */
  ghost predicate AtLevel(c: Catalog, n: string, v: Option<AppDef>, j: nat, u: Option<AppDef>) {
    || u == Goal(c, n, Goal(c, n, v))
    || (j <= 1 && u == Goal(c, n, v))
    || (j == 0 && (u == v || u == StripAny(v)))
  }

  lemma GoalOfClaimed(c: Catalog, n: string, v: Option<AppDef>)
    requires Regular(c) && n in Targets(c) && !IsSystem(v)
    ensures Goal(c, n, v).Some? && Owned(Goal(c, n, v).value, c.name) && !IsSystem(Goal(c, n, v))
    ensures Goal(c, n, StripAny(v)) == Goal(c, n, v)
  {
    var i := TargetIndex(c, n);
    var chart := Charts(c)[i];
    GoalTarget(c, i, v);
    GoalTarget(c, i, StripAny(v));
    PromoteFacts(REFERENCE, if v.Some? then v.value else Convert(c, chart), c, chart);
    if v.Some? {
      StripFacts(v.value, c.name);
      PromoteRestores(REFERENCE, v.value, c, chart);
    }
  }

  /** Another catalog can only take labels off, and only before the claimant has put its own on. */
  lemma OthersKeepLevel(c: Catalog, other: Catalog, n: string, v: Option<AppDef>, j: nat, u: Option<AppDef>)
    requires Regular(c) && Regular(other) && c.name != other.name
    requires n in Targets(c) && n !in Targets(other) && !IsSystem(v) && Agrees(c, n, v)
    requires AtLevel(c, n, v, j, u)
    ensures AtLevel(c, n, v, j, Goal(other, n, u))
  {
    GoalOfClaimed(c, n, v);
    GoalOfClaimed(c, n, Goal(c, n, v));
    GoalOther(other, n, u);
    if v.Some? {
      StripFacts(v.value, other.name);
    }
  }

  /** A reconcile of the claimant that goes through moves the definition up one level. */
  lemma ClaimantRaisesLevel(c: Catalog, n: string, v: Option<AppDef>, j: nat, u: Option<AppDef>)
    requires Regular(c) && n in Targets(c) && !IsSystem(v) && Agrees(c, n, v)
    requires AtLevel(c, n, v, j, u)
    ensures AtLevel(c, n, v, j + 1, Goal(c, n, u))
  {
    GoalOfClaimed(c, n, v);
    GoalSettles(c, n, v);
  }

  lemma LevelAgrees(c: Catalog, n: string, v: Option<AppDef>, j: nat, u: Option<AppDef>)
    requires Regular(c) && Agrees(c, n, v) && AtLevel(c, n, v, j, u)
    ensures Agrees(c, n, u)
  {
    GoalSettles(c, n, v);
    GoalSettles(c, n, Goal(c, n, v));
    if v.Some? {
      StripFacts(v.value, c.name);
    }
  }

  lemma {:induction false} ClaimedRun(catalogs: map<string, Catalog>, names: set<string>, schedule: seq<Request>,
                                      apps: Apps, n: string, x: string)
    requires Compatible(catalogs, names, apps)
    requires forall i :: 0 <= i < |schedule| ==> schedule[i].name in names
    requires ClaimedBy(catalogs, names, n, Lookup(apps, n), x)
    ensures AtLevel(Wanted(catalogs, x), n, Lookup(apps, n), CleanRuns(catalogs, schedule, apps, x),
                    Lookup(Run(catalogs, schedule, apps), n))
  {
    if |schedule| > 0 {
      var rest, q := schedule[..|schedule| - 1], schedule[|schedule| - 1];
      var c, v := Wanted(catalogs, x), Lookup(apps, n);
      var mid := Run(catalogs, rest, apps);
      var j := CleanRuns(catalogs, rest, apps, x);
      ClaimedRun(catalogs, names, rest, apps, n, x);
      assert q.name in names && Agrees(c, n, v);
      LevelAgrees(c, n, v, j, Lookup(mid, n));
      if q.name != x {
        AgreesElsewhere(Wanted(catalogs, q.name), n, Lookup(mid, n));
      }
      ServeAt(catalogs, q, mid, n);
      if q.name == x {
        ClaimantRaisesLevel(c, n, v, j, Lookup(mid, n));
      } else {
        OthersKeepLevel(c, Wanted(catalogs, q.name), n, v, j, Lookup(mid, n));
      }
    }
  }

  // ---- A definition that no catalog claims ----

  lemma UnclaimedGoal(catalogs: map<string, Catalog>, names: set<string>, n: string, v: Option<AppDef>, x: string)
    requires WellNamed(catalogs, names) && x in names
    requires !(exists y :: ClaimedBy(catalogs, names, n, v, y))
    ensures Goal(Wanted(catalogs, x), n, v) ==
            if v.Some? && Labelled(v.value, x) && n !in Targets(Wanted(catalogs, x)) then Some(Strip(v.value)) else v
  {
    var c := Wanted(catalogs, x);
    if n in Targets(c) {
      assert !ClaimedBy(catalogs, names, n, v, x);
      ChartsKeepSystem(Calm(REFERENCE), c, |Charts(c)|, n, v);
    }
  }

  lemma StripStaysUnclaimed(catalogs: map<string, Catalog>, names: set<string>, n: string, v: Option<AppDef>)
    requires !(exists y :: ClaimedBy(catalogs, names, n, v, y)) && v.Some?
    ensures !(exists y :: ClaimedBy(catalogs, names, n, Some(Strip(v.value)), y))
  {
    StripFacts(v.value, "");
    forall y
      ensures !ClaimedBy(catalogs, names, n, Some(Strip(v.value)), y)
    {
      assert !ClaimedBy(catalogs, names, n, v, y);
    }
  }

  lemma {:induction false} UnclaimedRun(catalogs: map<string, Catalog>, names: set<string>, schedule: seq<Request>,
                                        apps: Apps, n: string)
    requires Compatible(catalogs, names, apps)
    requires forall i :: 0 <= i < |schedule| ==> schedule[i].name in names
    requires !(exists x :: ClaimedBy(catalogs, names, n, Lookup(apps, n), x))
    ensures var v, u := Lookup(apps, n), Lookup(Run(catalogs, schedule, apps), n);
            && (u == v || (Abandoned(catalogs, names, n, v) && u == Some(Strip(v.value))))
            && (Abandoned(catalogs, names, n, v)
                && CleanRuns(catalogs, schedule, apps, v.value.labels[LABEL_CATALOG_NAME]) > 0 ==>
                  u == Some(Strip(v.value)))
  {
    if |schedule| > 0 {
      var rest, q := schedule[..|schedule| - 1], schedule[|schedule| - 1];
      var v := Lookup(apps, n);
      var mid := Run(catalogs, rest, apps);
      UnclaimedRun(catalogs, names, rest, apps, n);
      assert q.name in names && Agrees(Wanted(catalogs, q.name), n, v);
      if v.Some? {
        StripFacts(v.value, q.name);
      }
      ServeAt(catalogs, q, mid, n);
      UnclaimedGoal(catalogs, names, n, v, q.name);
      if v.Some? {
        StripFacts(v.value, q.name);
        StripStaysUnclaimed(catalogs, names, n, v);
        UnclaimedGoal(catalogs, names, n, Some(Strip(v.value)), q.name);
      }
    }
  }

  // ---- Confluence ----

  /** Every schedule that serves each of `names` at least twice without error, with any number of failing requests in
      between, leaves each definition in the state that `Final` gives. */
  lemma ScheduleOutcome(catalogs: map<string, Catalog>, names: set<string>, schedule: seq<Request>, apps: Apps,
                        n: string)
    requires Compatible(catalogs, names, apps)
    requires Serves(catalogs, names, schedule, apps)
    ensures Lookup(Run(catalogs, schedule, apps), n) == Final(catalogs, names, n, Lookup(apps, n))
  {
    var v := Lookup(apps, n);
    if exists x :: ClaimedBy(catalogs, names, n, v, x) {
      var x :| ClaimedBy(catalogs, names, n, v, x)
               && Final(catalogs, names, n, v) == Goal(Wanted(catalogs, x), n, Goal(Wanted(catalogs, x), n, v));
      ClaimedRun(catalogs, names, schedule, apps, n, x);
    } else {
      UnclaimedRun(catalogs, names, schedule, apps, n);
    }
  }

  /** Confluence: two such schedules end in the same store. */
  lemma SchedulesAgree(catalogs: map<string, Catalog>, names: set<string>, apps: Apps,
                       one: seq<Request>, two: seq<Request>)
    requires Compatible(catalogs, names, apps)
    requires Serves(catalogs, names, one, apps) && Serves(catalogs, names, two, apps)
    ensures Run(catalogs, one, apps) == Run(catalogs, two, apps)
  {
    forall n
      ensures Lookup(Run(catalogs, one, apps), n) == Lookup(Run(catalogs, two, apps), n)
    {
      ScheduleOutcome(catalogs, names, one, apps, n);
      ScheduleOutcome(catalogs, names, two, apps, n);
    }
    SameStore(Run(catalogs, one, apps), Run(catalogs, two, apps));
  }

  /** Such a store is final: no further request for any of these names, failing or not, changes it. */
  lemma NothingMoreHappens(catalogs: map<string, Catalog>, names: set<string>, apps: Apps,
                           schedule: seq<Request>, q: Request)
    requires Compatible(catalogs, names, apps)
    requires Serves(catalogs, names, schedule, apps) && q.name in names
    ensures Serve(catalogs, q, Run(catalogs, schedule, apps)).apps == Run(catalogs, schedule, apps)
  {
    var longer := schedule + [q];
    assert longer[..|longer| - 1] == schedule;
    assert forall x :: CleanRuns(catalogs, longer, apps, x) >= CleanRuns(catalogs, schedule, apps, x);
    SchedulesAgree(catalogs, names, apps, schedule, longer);
  }
}
