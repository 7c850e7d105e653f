/** Progress under failures: a measure of how far a catalog is from its fixed point. */
module Convergence {
  import opened CatalogTypes
  import opened AppUpdate
  import opened Reconciler
  import opened Locality
  import opened SyncEffect
  import opened FixedPoints

  function Absent(c: Catalog, apps: Apps): set<string> {
    set n | n in Targets(c) && n !in apps
  }

  /** Targets that exist and that an error-free reconcile would still change. */
  function Unsettled(c: Catalog, apps: Apps): set<string> {
    set n | n in Targets(c) && n in apps && Goal(c, n, Some(apps[n])) != Some(apps[n])
  }

  /** Two for every target to be created, one for every target to be updated, one for every orphan to be unmanaged. */
  function Measure(c: Catalog, apps: Apps): nat {
    2 * |Absent(c, apps)| + |Unsettled(c, apps)| + |Orphans(apps, c.name, Targets(c))|
  }

  /** `t` differs from `s` only by definitions that have been taken to their goal. */
  ghost predicate Advances(c: Catalog, s: Apps, t: Apps) {
    forall n :: Lookup(t, n) == Lookup(s, n) || Lookup(t, n) == Goal(c, n, Lookup(s, n))
  }

  lemma SubsetSize<T>(a: set<T>, b: set<T>)
    requires a <= b
    ensures |a| <= |b|
    ensures a != b ==> |a| < |b|
  {
    assert b == a + (b - a);
    if a != b {
      var x :| x in b - a;
    }
  }

  lemma AdvanceAt(c: Catalog, s: Apps, t: Apps, n: string)
    requires Regular(c) && AgreesWith(c, s) && Advances(c, s, t)
    ensures n in s ==> n in t
    ensures n in Unsettled(c, t) ==> n in Unsettled(c, s) || n in Absent(c, s) - Absent(c, t)
    ensures n in Orphans(t, c.name, Targets(c)) ==> n in Orphans(s, c.name, Targets(c))
    ensures Lookup(t, n) != Lookup(s, n) ==>
              || n in Absent(c, s) - Absent(c, t)
              || (n in Unsettled(c, s) && n !in Unsettled(c, t) && n !in Absent(c, s))
              || n in Orphans(s, c.name, Targets(c)) - Orphans(t, c.name, Targets(c))
  {
    var v := Lookup(s, n);
    assert Lookup(t, n) == v || Lookup(t, n) == Goal(c, n, v);
    assert Agrees(c, n, v);
    GoalSettles(c, n, v);
    if n !in Targets(c) {
      GoalOther(c, n, v);
      if v.Some? {
        StripFacts(v.value, c.name);
      }
    }
  }

  lemma AdvanceSets(c: Catalog, s: Apps, t: Apps)
    requires Regular(c) && AgreesWith(c, s) && Advances(c, s, t)
    ensures Absent(c, t) <= Absent(c, s)
    ensures Unsettled(c, t) <= Unsettled(c, s) + (Absent(c, s) - Absent(c, t))
    ensures Orphans(t, c.name, Targets(c)) <= Orphans(s, c.name, Targets(c))
  {
    forall n
      ensures n in Absent(c, t) ==> n in Absent(c, s)
      ensures n in Unsettled(c, t) ==> n in Unsettled(c, s) + (Absent(c, s) - Absent(c, t))
      ensures n in Orphans(t, c.name, Targets(c)) ==> n in Orphans(s, c.name, Targets(c))
    {
      AdvanceAt(c, s, t, n);
    }
  }

  lemma SetsShrink(a: set<string>, a': set<string>, u: set<string>, u': set<string>,
                   o: set<string>, o': set<string>, n: string)
    requires a' <= a && o' <= o && u' <= u + (a - a') && u !! a
    requires n in a - a' || (n in u && n !in u') || n in o - o'
    ensures 2 * |a'| + |u'| + |o'| < 2 * |a| + |u| + |o|
  {
    SubsetSize(a', a);
    SubsetSize(o', o);
    SubsetSize(u', u + (a - a'));
    assert |a - a'| == |a| - |a'| by { assert a == a' + (a - a'); }
    assert |u + (a - a')| == |u| + |a - a'|;
    assert a' != a || u' != u + (a - a') || o' != o;
  }

  /** Steps towards the goal never raise the measure, and lower it whenever they change the store. */
  lemma AdvanceLowers(c: Catalog, s: Apps, t: Apps)
    requires Regular(c) && AgreesWith(c, s) && Advances(c, s, t)
    ensures Measure(c, t) <= Measure(c, s)
    ensures t != s ==> Measure(c, t) < Measure(c, s)
  {
    AdvanceSets(c, s, t);
    if forall n :: Lookup(t, n) == Lookup(s, n) {
      SameStore(t, s);
    } else {
      var n :| Lookup(t, n) != Lookup(s, n);
      AdvanceAt(c, s, t, n);
      SetsShrink(Absent(c, s), Absent(c, t), Unsettled(c, s), Unsettled(c, t),
                 Orphans(s, c.name, Targets(c)), Orphans(t, c.name, Targets(c)), n);
    }
  }

  lemma SyncAdvances(env: Env, c: Catalog, apps: Apps)
    requires Regular(c) && AgreesWith(c, apps)
    ensures Advances(c, apps, Sync(env, c, apps).apps)
  {
    forall n
      ensures Lookup(Sync(env, c, apps).apps, n) == Lookup(apps, n)
              || Lookup(Sync(env, c, apps).apps, n) == Goal(c, n, Lookup(apps, n))
    {
      ReconcileIsLocal(env, c, apps, n);
      assert Agrees(c, n, Lookup(apps, n));
      StepsTowardsGoal(env, c, n, Lookup(apps, n));
    }
  }

  /** No reconcile raises the measure under any pattern of failures, and one that changes the store lowers it. */
  lemma SyncLowersMeasure(env: Env, c: Catalog, apps: Apps)
    requires Regular(c) && AgreesWith(c, apps)
    ensures Measure(c, Sync(env, c, apps).apps) <= Measure(c, apps)
    ensures Sync(env, c, apps).apps != apps ==> Measure(c, Sync(env, c, apps).apps) < Measure(c, apps)
  {
    SyncAdvances(env, c, apps);
    AdvanceLowers(c, apps, Sync(env, c, apps).apps);
  }

  /** The same for what a reconcile does about a single chart, in whatever state the charts before it left the store. */
  lemma ChartLowersMeasure(env: Env, c: Catalog, i: nat, r: Report)
    requires Regular(c) && AgreesWith(c, r.apps) && i < |Charts(c)|
    ensures var after := ReconcileChart(env, c, i, r).apps;
            && Measure(c, after) <= Measure(c, r.apps)
            && (after != r.apps ==> Measure(c, after) < Measure(c, r.apps))
            && AgreesWith(c, after)
  {
    var after := ReconcileChart(env, c, i, r).apps;
    forall n
      ensures Lookup(after, n) == Lookup(r.apps, n) || Lookup(after, n) == Goal(c, n, Lookup(r.apps, n))
      ensures Agrees(c, n, Lookup(after, n))
    {
      ChartIsLocal(env, c, i, r, n);
      assert Agrees(c, n, Lookup(r.apps, n));
      if GetAppName(Charts(c)[i]) == n {
        GoalTarget(c, i, Lookup(r.apps, n));
        WriteSettles(env.sort, c, i, Lookup(r.apps, n));
      }
    }
    AdvanceLowers(c, r.apps, after);
  }

  /** And for the patch that takes the labels off a single orphan. */
  lemma UnmanageLowersMeasure(env: Env, c: Catalog, n: string, r: Report)
    requires Regular(c) && AgreesWith(c, r.apps) && n in Orphans(r.apps, c.name, Targets(c))
    ensures var after := Write(env, Unmanage(n), n, Strip(r.apps[n]), r).apps;
            && Measure(c, after) <= Measure(c, r.apps)
            && (after != r.apps ==> Measure(c, after) < Measure(c, r.apps))
            && AgreesWith(c, after)
  {
    var after := Write(env, Unmanage(n), n, Strip(r.apps[n]), r).apps;
    forall k
      ensures Lookup(after, k) == Lookup(r.apps, k) || Lookup(after, k) == Goal(c, k, Lookup(r.apps, k))
      ensures Agrees(c, k, Lookup(after, k))
    {
      assert Agrees(c, k, Lookup(r.apps, k));
      if k == n {
        GoalOther(c, n, Lookup(r.apps, n));
        AgreesElsewhere(c, n, Lookup(after, n));
      }
    }
    AdvanceLowers(c, r.apps, after);
  }

  /** Zero is exactly the fixed points: no reconcile changes such a store, and any other is changed by the next
      error-free one. */
  lemma ZeroIsFixedPoint(env: Env, c: Catalog, apps: Apps)
    requires Regular(c) && AgreesWith(c, apps)
    ensures Measure(c, apps) == 0 ==> Sync(env, c, apps).apps == apps
    ensures Clean(env, c, apps) ==> (Measure(c, apps) == 0 <==> Sync(env, c, apps).apps == apps)
  {
    SyncLowersMeasure(env, c, apps);
    if Clean(env, c, apps) && Sync(env, c, apps).apps == apps {
      forall n
        ensures Goal(c, n, Lookup(apps, n)) == Lookup(apps, n)
      {
        assert Agrees(c, n, Lookup(apps, n));
        CleanReachesGoal(env, c, apps, n);
      }
      NothingLeft(c, apps);
    }
  }

  lemma NothingLeft(c: Catalog, apps: Apps)
    requires Regular(c)
    requires forall n :: Goal(c, n, Lookup(apps, n)) == Lookup(apps, n)
    ensures Measure(c, apps) == 0
  {
    forall n
      ensures n !in Absent(c, apps) && n !in Unsettled(c, apps) && n !in Orphans(apps, c.name, Targets(c))
    {
      assert Goal(c, n, Lookup(apps, n)) == Lookup(apps, n);
      if n in Targets(c) {
        var i := TargetIndex(c, n);
        GoalTarget(c, i, Lookup(apps, n));
      } else {
        GoalOther(c, n, Lookup(apps, n));
        if n in apps {
          StripFacts(apps[n], c.name);
        }
      }
    }
    assert Absent(c, apps) == {} && Unsettled(c, apps) == {} && Orphans(apps, c.name, Targets(c)) == {};
  }

  // ---- Whole runs ----

  function Repeat(envs: seq<Env>, c: Catalog, apps: Apps): Apps {
    if |envs| == 0 then apps else Repeat(envs[1..], c, Sync(envs[0], c, apps).apps)
  }

  /** How many reconciles of a run change the store. */
  function Changes(envs: seq<Env>, c: Catalog, apps: Apps): nat {
    if |envs| == 0 then 0
    else
      var next := Sync(envs[0], c, apps).apps;
      (if next != apps then 1 else 0) + Changes(envs[1..], c, next)
  }

  /** However long a catalog is reconciled and whatever fails, only boundedly many reconciles change the store:
      at most what the measure was, less what it still is at the end. */
  lemma {:induction false} BoundedChanges(envs: seq<Env>, c: Catalog, apps: Apps)
    requires Regular(c) && AgreesWith(c, apps)
    ensures Changes(envs, c, apps) + Measure(c, Repeat(envs, c, apps)) <= Measure(c, apps)
    decreases |envs|
  {
    if |envs| > 0 {
      SyncLowersMeasure(envs[0], c, apps);
      SyncKeepsAgreement(envs[0], c, apps);
      BoundedChanges(envs[1..], c, Sync(envs[0], c, apps).apps);
    }
  }
}
