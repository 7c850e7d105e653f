/** Progress of several catalogs together: no request undoes what another catalog's requests have achieved. */
module ScheduleProgress {
  import opened CatalogTypes
  import opened AppUpdate
  import opened Reconciler
  import opened Locality
  import opened SyncEffect
  import opened FixedPoints
  import opened Convergence
  import opened Confluence

  /** The distance of all listed catalogs from their fixed points. */
  function TotalMeasure(catalogs: map<string, Catalog>, names: seq<string>, apps: Apps): nat {
    if names == [] then 0
    else TotalMeasure(catalogs, names[..|names| - 1], apps) + Measure(Wanted(catalogs, names[|names| - 1]), apps)
  }

  function Listed(names: seq<string>): set<string> {
    set x | x in names
  }

  /** How many requests of a schedule change the store. */
  function ChangingRequests(catalogs: map<string, Catalog>, schedule: seq<Request>, apps: Apps): nat {
    if |schedule| == 0 then 0
    else
      var rest, q := schedule[..|schedule| - 1], schedule[|schedule| - 1];
      var mid := Run(catalogs, rest, apps);
      ChangingRequests(catalogs, rest, apps) + if Serve(catalogs, q, mid).apps != mid then 1 else 0
  }

  /** The effect of a request for `x` on a definition, seen from another catalog `y`: nothing, the labels of `x` on
      something `y` does not claim, or the labels of `x` taken off. */
  lemma SeenFromOther(catalogs: map<string, Catalog>, names: set<string>, q: Request, y: string, apps: Apps, n: string)
    requires Compatible(catalogs, names, apps) && q.name in names && y in names && y != q.name
    ensures var v, u := Lookup(apps, n), Lookup(Serve(catalogs, q, apps).apps, n);
            || u == v
            || (n !in Targets(Wanted(catalogs, y)) && u.Some? && !Labelled(u.value, y))
            || (v.Some? && Labelled(v.value, q.name) && u == Some(Strip(v.value)))
  {
    var c, v := Wanted(catalogs, q.name), Lookup(apps, n);
    assert Agrees(c, n, v);
    ServeAt(catalogs, q, apps, n);
    if n in Targets(c) {
      if IsSystem(v) {
        ChartsKeepSystem(Calm(REFERENCE), c, |Charts(c)|, n, v);
      } else {
        GoalOfClaimed(c, n, v);
      }
    } else {
      GoalOther(c, n, v);
    }
  }

  lemma OthersAt(catalogs: map<string, Catalog>, names: set<string>, q: Request, y: string, apps: Apps, n: string)
    requires Compatible(catalogs, names, apps) && q.name in names && y in names && y != q.name
    ensures var d, after := Wanted(catalogs, y), Serve(catalogs, q, apps).apps;
            && (n in Absent(d, after) ==> n in Absent(d, apps))
            && (n in Unsettled(d, after) ==> n in Unsettled(d, apps))
            && (n in Orphans(after, y, Targets(d)) ==> n in Orphans(apps, y, Targets(d)))
            && Agrees(d, n, Lookup(after, n))
  {
    var d, v := Wanted(catalogs, y), Lookup(apps, n);
    SeenFromOther(catalogs, names, q, y, apps, n);
    assert Agrees(d, n, v);
    if n !in Targets(d) {
      AgreesElsewhere(d, n, Lookup(Serve(catalogs, q, apps).apps, n));
    }
    if v.Some? {
      StripFacts(v.value, y);
      if n in Targets(d) {
        if IsSystem(v) {
          ChartsKeepSystem(Calm(REFERENCE), d, |Charts(d)|, n, Some(Strip(v.value)));
        } else {
          GoalOfClaimed(d, n, v);
        }
      }
    }
  }

  /** A request never moves another catalog away from its fixed point. */
  lemma OthersDoNotRise(catalogs: map<string, Catalog>, names: set<string>, q: Request, y: string, apps: Apps)
    requires Compatible(catalogs, names, apps) && q.name in names && y in names && y != q.name
    ensures Measure(Wanted(catalogs, y), Serve(catalogs, q, apps).apps) <= Measure(Wanted(catalogs, y), apps)
    ensures AgreesWith(Wanted(catalogs, y), Serve(catalogs, q, apps).apps)
  {
    var d, after := Wanted(catalogs, y), Serve(catalogs, q, apps).apps;
    forall n
      ensures n in Absent(d, after) ==> n in Absent(d, apps)
      ensures n in Unsettled(d, after) ==> n in Unsettled(d, apps)
      ensures n in Orphans(after, y, Targets(d)) ==> n in Orphans(apps, y, Targets(d))
      ensures Agrees(d, n, Lookup(after, n))
    {
      OthersAt(catalogs, names, q, y, apps, n);
    }
    SubsetSize(Absent(d, after), Absent(d, apps));
    SubsetSize(Unsettled(d, after), Unsettled(d, apps));
    SubsetSize(Orphans(after, y, Targets(d)), Orphans(apps, y, Targets(d)));
  }

  lemma OwnDoesNotRise(catalogs: map<string, Catalog>, names: set<string>, q: Request, apps: Apps)
    requires Compatible(catalogs, names, apps) && q.name in names
    ensures var c, after := Wanted(catalogs, q.name), Serve(catalogs, q, apps).apps;
            && Measure(c, after) <= Measure(c, apps)
            && (after != apps ==> Measure(c, after) < Measure(c, apps))
            && AgreesWith(c, after)
  {
    var c := Wanted(catalogs, q.name);
    ServeIsSync(catalogs, q, apps);
    SyncLowersMeasure(q.env, c, apps);
    SyncKeepsAgreement(q.env, c, apps);
  }

  lemma ServeKeepsCompatible(catalogs: map<string, Catalog>, names: set<string>, q: Request, apps: Apps)
    requires Compatible(catalogs, names, apps) && q.name in names
    ensures Compatible(catalogs, names, Serve(catalogs, q, apps).apps)
  {
    var after := Serve(catalogs, q, apps).apps;
    forall y | y in names
      ensures AgreesWith(Wanted(catalogs, y), after)
    {
      if y == q.name {
        OwnDoesNotRise(catalogs, names, q, apps);
      } else {
        OthersDoNotRise(catalogs, names, q, y, apps);
      }
    }
    forall n
      ensures IsSystem(Lookup(after, n)) <==> IsSystem(Lookup(apps, n))
    {
      ServeIsSync(catalogs, q, apps);
      ReconcileIsLocal(q.env, Wanted(catalogs, q.name), apps, n);
      LocalKeepsSystem(q.env, Wanted(catalogs, q.name), n, Lookup(apps, n));
    }
  }

  lemma {:induction false} RunKeepsCompatible(catalogs: map<string, Catalog>, names: set<string>,
                                              schedule: seq<Request>, apps: Apps)
    requires Compatible(catalogs, names, apps)
    requires forall i :: 0 <= i < |schedule| ==> schedule[i].name in names
    ensures Compatible(catalogs, names, Run(catalogs, schedule, apps))
  {
    if |schedule| > 0 {
      var rest := schedule[..|schedule| - 1];
      RunKeepsCompatible(catalogs, names, rest, apps);
      ServeKeepsCompatible(catalogs, names, schedule[|schedule| - 1], Run(catalogs, rest, apps));
    }
  }

  /** The distances of a list of catalogs, one request later. */
  lemma {:induction false} TotalDoesNotRise(catalogs: map<string, Catalog>, names: set<string>, some: seq<string>,
                                            q: Request, apps: Apps)
    requires Compatible(catalogs, names, apps) && q.name in names && forall x :: x in some ==> x in names
    ensures var after := Serve(catalogs, q, apps).apps;
            && TotalMeasure(catalogs, some, after) <= TotalMeasure(catalogs, some, apps)
            && (q.name in some && after != apps ==>
                  TotalMeasure(catalogs, some, after) < TotalMeasure(catalogs, some, apps))
  {
    if some != [] {
      var rest, y := some[..|some| - 1], some[|some| - 1];
      TotalDoesNotRise(catalogs, names, rest, q, apps);
      assert y in some && some == rest + [y];
      if y == q.name {
        OwnDoesNotRise(catalogs, names, q, apps);
      } else {
        OthersDoNotRise(catalogs, names, q, y, apps);
      }
    }
  }

  /** In any schedule over compatible catalogs, whatever its order and whatever fails, the total distance never rises
      and drops with each request that changes the store; so a schedule of any length has boundedly many of those. */
  lemma {:induction false} BoundedChangesTogether(catalogs: map<string, Catalog>, names: seq<string>,
                                                  schedule: seq<Request>, apps: Apps)
    requires Compatible(catalogs, Listed(names), apps)
    requires forall i :: 0 <= i < |schedule| ==> schedule[i].name in names
    ensures ChangingRequests(catalogs, schedule, apps) + TotalMeasure(catalogs, names, Run(catalogs, schedule, apps))
            <= TotalMeasure(catalogs, names, apps)
  {
    if |schedule| > 0 {
      var rest, q := schedule[..|schedule| - 1], schedule[|schedule| - 1];
      BoundedChangesTogether(catalogs, names, rest, apps);
      RunKeepsCompatible(catalogs, Listed(names), rest, apps);
      TotalDoesNotRise(catalogs, Listed(names), names, q, Run(catalogs, rest, apps));
    }
  }
}
