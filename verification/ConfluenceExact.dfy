/** When the outcome of a schedule is determined: the conditions for confluence are not only sufficient. */
module ConfluenceExact {
  import opened CatalogTypes
  import opened Converter
  import opened AppUpdate
  import opened Reconciler
  import opened Locality
  import opened SyncEffect
  import opened FixedPoints
  import opened TieBreaking
  import opened Confluence

  // ---- Schedules without failures ----

  /** A list with exactly the members of a set. */
  ghost function Enumerate(names: set<string>): (r: seq<string>)
    ensures forall x :: x in r <==> x in names
  {
    if names == {} then [] else var x :| x in names; [x] + Enumerate(names - {x})
  }

  function Occurrences(todo: seq<string>, x: string): nat {
    if todo == [] then 0
    else Occurrences(todo[..|todo| - 1], x) + if todo[|todo| - 1] == x then 1 else 0
  }

  lemma {:induction false} OccursTwice(first: seq<string>, second: seq<string>, x: string)
    ensures x in second ==> Occurrences(first + second, x) > 0
    ensures x in first && x in second ==> Occurrences(first + second, x) >= 2
    ensures x in first ==> Occurrences(first + second, x) >= 1
    decreases |first| + |second|
  {
    if second == [] {
      assert first + second == first;
      if first != [] {
        var rest := first[..|first| - 1];
        assert rest + [] == rest && first == rest + [first[|first| - 1]];
        OccursTwice(rest, [], x);
      }
    } else {
      var rest, y := second[..|second| - 1], second[|second| - 1];
      assert (first + second)[..|first + second| - 1] == first + rest && second == rest + [y];
      OccursTwice(first, rest, x);
    }
  }

  ghost predicate NeverFails(env: Env) {
    forall k :: env.Succeeds(k)
  }

  /** The schedule asks for the given names in order, and nothing fails. */
  ghost predicate Follows(schedule: seq<Request>, todo: seq<string>) {
    |schedule| == |todo|
    && forall i :: 0 <= i < |todo| ==> schedule[i].name == todo[i] && NeverFails(schedule[i].env)
  }

  lemma {:induction false} FollowsCleanly(catalogs: map<string, Catalog>, schedule: seq<Request>, todo: seq<string>,
                                          apps: Apps, x: string)
    requires Follows(schedule, todo)
    ensures CleanRuns(catalogs, schedule, apps, x) == Occurrences(todo, x)
  {
    if |schedule| > 0 {
      FollowsCleanly(catalogs, schedule[..|schedule| - 1], todo[..|todo| - 1], apps, x);
    }
  }

  /** Twice through all names serves them; whatever more is asked for does no harm. */
  lemma FollowsServes(catalogs: map<string, Catalog>, names: set<string>, schedule: seq<Request>,
                      apps: Apps, more: seq<string>)
    requires forall x :: x in more ==> x in names
    requires Follows(schedule, Enumerate(names) + (Enumerate(names) + more))
    ensures Serves(catalogs, names, schedule, apps)
  {
    var all := Enumerate(names);
    var todo := all + (all + more);
    forall i | 0 <= i < |schedule|
      ensures schedule[i].name in names
    {
      assert todo[i] in todo;
    }
    forall x | x in names
      ensures CleanRuns(catalogs, schedule, apps, x) >= 2
    {
      FollowsCleanly(catalogs, schedule, todo, apps, x);
      OccursTwice(all, all + more, x);
    }
  }

  lemma ServesLonger(catalogs: map<string, Catalog>, names: set<string>, schedule: seq<Request>, apps: Apps, q: Request)
    requires Serves(catalogs, names, schedule, apps) && q.name in names
    ensures Serves(catalogs, names, schedule + [q], apps)
    ensures Run(catalogs, schedule + [q], apps) == Serve(catalogs, q, Run(catalogs, schedule, apps)).apps
  {
    var longer := schedule + [q];
    assert longer[..|longer| - 1] == schedule;
    assert forall x :: CleanRuns(catalogs, longer, apps, x) >= CleanRuns(catalogs, schedule, apps, x);
  }

  lemma CalmNeverFails(sort: VersionSorter)
    ensures NeverFails(Calm(sort))
  {
  }

  /** A request without failures, on one definition. */
  lemma CalmServe(catalogs: map<string, Catalog>, name: string, sort: VersionSorter, apps: Apps, n: string)
    requires Wanted(catalogs, name).name == name
    ensures Lookup(Serve(catalogs, Request(Calm(sort), name), apps).apps, n) ==
            Local(Calm(sort), Wanted(catalogs, name), n, Lookup(apps, n))
  {
    ServeIsSync(catalogs, Request(Calm(sort), name), apps);
    ReconcileIsLocal(Calm(sort), Wanted(catalogs, name), apps, n);
  }

  // ---- Agreement is needed ----

  /** The definition called `n` still disagrees with the chart of its catalog `x`. */
  ghost predicate Alive(catalogs: map<string, Catalog>, x: string, n: string, v: Option<AppDef>) {
    !IsSystem(v) && !Agrees(Wanted(catalogs, x), n, v)
  }

  /** Another catalog does not touch the versions. */
  lemma OthersKeepAlive(catalogs: map<string, Catalog>, names: set<string>, x: string, y: string, n: string, apps: Apps)
    requires WellNamed(catalogs, names) && x in names && y in names
    requires n !in Targets(Wanted(catalogs, y)) && Alive(catalogs, x, n, Lookup(apps, n))
    ensures Alive(catalogs, x, n, Lookup(Serve(catalogs, Request(Calm(REFERENCE), y), apps).apps, n))
    ensures n in apps ==> n in Serve(catalogs, Request(Calm(REFERENCE), y), apps).apps
  {
    CalmServe(catalogs, y, REFERENCE, apps, n);
    if n in apps {
      StripFacts(apps[n], y);
    }
  }

  lemma ServedDefinition(catalogs: map<string, Catalog>, x: string, sort: VersionSorter, apps: Apps, i: nat)
    requires Wanted(catalogs, x).name == x && Regular(Wanted(catalogs, x)) && i < |Charts(Wanted(catalogs, x))|
    ensures var c := Wanted(catalogs, x);
            var n, d := GetAppName(Charts(c)[i]), Convert(c, Charts(c)[i]);
            var after := Lookup(Serve(catalogs, Request(Calm(sort), x), apps).apps, n);
            && (n !in apps ==> after == Some(d))
            && (n in apps && !IsSystemApplication(apps[n]) ==> after == Some(Promote(sort, apps[n], d)))
  {
    ServeIsSync(catalogs, Request(Calm(sort), x), apps);
    WrittenAt(sort, Wanted(catalogs, x), apps, i);
  }

  /** The claimant can be served without removing the disagreement. */
  lemma ClaimantKeepsAlive(catalogs: map<string, Catalog>, x: string, n: string, apps: Apps)
    returns (sort: VersionSorter)
    requires Wanted(catalogs, x).name == x && Regular(Wanted(catalogs, x))
    requires Alive(catalogs, x, n, Lookup(apps, n))
    ensures var after := Lookup(Serve(catalogs, Request(Calm(sort), x), apps).apps, n);
            after.Some? && Alive(catalogs, x, n, after)
  {
    var c := Wanted(catalogs, x);
    var i := DisagreeingChart(c, n, Lookup(apps, n));
    var d := Convert(c, Charts(c)[i]);
    sort := REFERENCE;
    if n in apps {
      sort := DisagreementCanLast(apps[n], d);
      WriteExisting(sort, c, i, apps[n]);
    } else {
      WriteExisting(sort, c, i, d);
    }
    ServedDefinition(catalogs, x, sort, apps, i);
    AgreesAt(c, i, Lookup(Serve(catalogs, Request(Calm(sort), x), apps).apps, n));
  }

  lemma SnocFollows(schedule: seq<Request>, q: Request, todo: seq<string>)
    requires todo != [] && Follows(schedule, todo[..|todo| - 1])
    requires q.name == todo[|todo| - 1] && NeverFails(q.env)
    ensures Follows(schedule + [q], todo)
  {
  }

  /** Any list of names can be served without failures so that the disagreement is still there afterwards. */
  lemma {:induction false} LastingSchedule(catalogs: map<string, Catalog>, names: set<string>, todo: seq<string>,
                                           apps: Apps, x: string, n: string)
    returns (schedule: seq<Request>)
    requires WellNamed(catalogs, names) && x in names && Alive(catalogs, x, n, Lookup(apps, n))
    requires forall y :: y in todo ==> y in names && (y == x || n !in Targets(Wanted(catalogs, y)))
    ensures Follows(schedule, todo)
    ensures Alive(catalogs, x, n, Lookup(Run(catalogs, schedule, apps), n))
    ensures todo != [] && todo[|todo| - 1] == x ==> n in Run(catalogs, schedule, apps)
  {
    if todo == [] {
      schedule := [];
    } else {
      var rest, y := todo[..|todo| - 1], todo[|todo| - 1];
      var before := LastingSchedule(catalogs, names, rest, apps, x, n);
      var mid := Run(catalogs, before, apps);
      var sort: VersionSorter := REFERENCE;
      if y == x {
        sort := ClaimantKeepsAlive(catalogs, x, n, mid);
      } else {
        OthersKeepAlive(catalogs, names, x, y, n, mid);
      }
      var q := Request(Calm(sort), y);
      CalmNeverFails(sort);
      schedule := before + [q];
      SnocFollows(before, q, todo);
      assert schedule[..|schedule| - 1] == before;
    }
  }

  /** If a catalog disagrees with the store, two schedules end differently. */
  lemma DisagreementDecides(catalogs: map<string, Catalog>, names: set<string>, apps: Apps, x: string, n: string)
    returns (one: seq<Request>, two: seq<Request>)
    requires WellNamed(catalogs, names) && Disjoint(catalogs, names, apps) && x in names
    requires !Agrees(Wanted(catalogs, x), n, Lookup(apps, n))
    ensures Serves(catalogs, names, one, apps) && Serves(catalogs, names, two, apps)
    ensures Run(catalogs, one, apps) != Run(catalogs, two, apps)
  {
    var c, all := Wanted(catalogs, x), Enumerate(names);
    var i0 := DisagreeingChart(c, n, Lookup(apps, n));
    IndexIsTarget(c, i0);
    var schedule := LastingSchedule(catalogs, names, all + (all + [x]), apps, x, n);
    FollowsServes(catalogs, names, schedule, apps, [x]);
    var s0 := Run(catalogs, schedule, apps);
    var i := DisagreeingChart(c, n, Lookup(s0, n));
    var d := Convert(c, Charts(c)[i]);
    var f, g := DisagreementDoesNotSettle(s0[n], d);
    var p, q := Request(Calm(f), x), Request(Calm(g), x);
    one, two := schedule + [p], schedule + [p] + [q];
    ServesLonger(catalogs, names, schedule, apps, p);
    ServesLonger(catalogs, names, one, apps, q);
    ServedDefinition(catalogs, x, f, s0, i);
    WriteExisting(f, c, i, s0[n]);
    ServedDefinition(catalogs, x, g, Run(catalogs, one, apps), i);
  }

  // ---- Disjointness is needed ----

  function Sweep(todo: seq<string>): seq<Request> {
    seq(|todo|, i requires 0 <= i < |todo| => Request(Calm(REFERENCE), todo[i]))
  }

  lemma {:induction false} RunKeepsSystem(catalogs: map<string, Catalog>, schedule: seq<Request>, apps: Apps, n: string)
    requires forall i :: 0 <= i < |schedule| ==> Wanted(catalogs, schedule[i].name).name == schedule[i].name
    ensures IsSystem(Lookup(Run(catalogs, schedule, apps), n)) <==> IsSystem(Lookup(apps, n))
  {
    if |schedule| > 0 {
      var rest, q := schedule[..|schedule| - 1], schedule[|schedule| - 1];
      var mid := Run(catalogs, rest, apps);
      RunKeepsSystem(catalogs, rest, apps, n);
      ServeIsSync(catalogs, q, mid);
      ReconcileIsLocal(q.env, Wanted(catalogs, q.name), mid, n);
      LocalKeepsSystem(q.env, Wanted(catalogs, q.name), n, Lookup(mid, n));
    }
  }

  lemma LastServedOwns(catalogs: map<string, Catalog>, x: string, apps: Apps, n: string)
    requires Wanted(catalogs, x).name == x && Regular(Wanted(catalogs, x))
    requires n in Targets(Wanted(catalogs, x)) && !IsSystem(Lookup(apps, n))
    ensures var after := Lookup(Serve(catalogs, Request(Calm(REFERENCE), x), apps).apps, n);
            after.Some? && Owned(after.value, x)
  {
    ServeIsSync(catalogs, Request(Calm(REFERENCE), x), apps);
    ExactEffectAt(Calm(REFERENCE), Wanted(catalogs, x), apps, n);
  }

  /** If two catalogs share a non-system target, whichever is served last owns it. */
  lemma SharingDecides(catalogs: map<string, Catalog>, names: set<string>, apps: Apps, x: string, y: string, n: string)
    returns (one: seq<Request>, two: seq<Request>)
    requires WellNamed(catalogs, names) && x in names && y in names && x != y
    requires n in Targets(Wanted(catalogs, x)) && n in Targets(Wanted(catalogs, y)) && !IsSystem(Lookup(apps, n))
    ensures Serves(catalogs, names, one, apps) && Serves(catalogs, names, two, apps)
    ensures Run(catalogs, one, apps) != Run(catalogs, two, apps)
  {
    var todo := Enumerate(names) + (Enumerate(names) + []);
    var schedule := Sweep(todo);
    forall i | 0 <= i < |todo|
      ensures schedule[i].name == todo[i] && NeverFails(schedule[i].env)
    {
      assert schedule[i] == Request(Calm(REFERENCE), todo[i]);
      CalmNeverFails(REFERENCE);
    }
    FollowsServes(catalogs, names, schedule, apps, []);
    RunKeepsSystem(catalogs, schedule, apps, n);
    var s0 := Run(catalogs, schedule, apps);
    var p, q := Request(Calm(REFERENCE), x), Request(Calm(REFERENCE), y);
    one, two := schedule + [p], schedule + [q];
    ServesLonger(catalogs, names, schedule, apps, p);
    ServesLonger(catalogs, names, schedule, apps, q);
    LastServedOwns(catalogs, x, s0, n);
    LastServedOwns(catalogs, y, s0, n);
  }

  // ---- The exact condition ----

  ghost predicate Confluent(catalogs: map<string, Catalog>, names: set<string>, apps: Apps) {
    forall one: seq<Request>, two: seq<Request> ::
      Serves(catalogs, names, one, apps) && Serves(catalogs, names, two, apps) ==>
        Run(catalogs, one, apps) == Run(catalogs, two, apps)
  }

  /** All schedules that serve each name at least twice without error end in one store if and only if the catalogs are
      compatible: they share no non-system target, and their charts agree with the store on versions. */
  lemma ConfluentExactly(catalogs: map<string, Catalog>, names: set<string>, apps: Apps)
    requires WellNamed(catalogs, names)
    ensures Confluent(catalogs, names, apps) <==> Compatible(catalogs, names, apps)
  {
    if Compatible(catalogs, names, apps) {
      forall one: seq<Request>, two: seq<Request>
        | Serves(catalogs, names, one, apps) && Serves(catalogs, names, two, apps)
        ensures Run(catalogs, one, apps) == Run(catalogs, two, apps)
      {
        SchedulesAgree(catalogs, names, apps, one, two);
      }
    } else if !Disjoint(catalogs, names, apps) {
      var x, y, n :| x in names && y in names && x != y && n in Targets(Wanted(catalogs, x))
                     && n in Targets(Wanted(catalogs, y)) && !IsSystem(Lookup(apps, n));
      var one, two := SharingDecides(catalogs, names, apps, x, y, n);
    } else {
      var x :| x in names && !AgreesWith(Wanted(catalogs, x), apps);
      var n :| !Agrees(Wanted(catalogs, x), n, Lookup(apps, n));
      var one, two := DisagreementDecides(catalogs, names, apps, x, n);
    }
  }
}
