/** Runs of the route table: stability under failing services, and requests that stay routable. */
module RefreshTheorems {
  import opened Wrappers
  import opened Text
  import opened Routes
  import opened OverrideHandler
  import opened RouteValidator
  import opened RouteDiscovery
  import opened RequestRouter
  import opened RefreshStability

  // ---------- stability when every service fails ----------

  lemma TableIsPatched(gathered: seq<RouteConfig>, overrides: seq<RouteOverride>)
    requires Settled(overrides)
    ensures forall r :: r in Dedup(Overridden(gathered, overrides)) ==> Patch(overrides, r) == r
  {
    OverriddenIsPatched(gathered, overrides);
    DedupSubset(Overridden(gathered, overrides));
  }

  /** A cycle in which every service fails keeps exactly the routes of the cycle before it. */
  lemma FailedCycleKeepsRoutes(names: seq<string>, attempts: string -> Attempt, before: seq<RouteConfig>,
    fail: string -> Attempt, overrides: seq<RouteOverride>)
    requires DistinctNames(names) && Agreeing(overrides) && AllFail(names, fail)
    ensures var table := Refreshed(names, attempts, before, overrides);
      forall r :: r in Refreshed(names, fail, table, overrides) <==> r in table
  {
    var gathered := Gathered(names, attempts, before);
    var table := Refreshed(names, attempts, before, overrides);
    var regrouped := Gathered(names, fail, table);
    AfterCycleHolds(names, attempts, before, fail, overrides);
    DistinctAgreeSettle(overrides);
    TableIsPatched(gathered, overrides);
    PatchAllFixed(overrides, regrouped);
    forall r ensures r in Refreshed(names, fail, table, overrides) <==> r in table {
      FailingCycleKeepsLookup(names, overrides, gathered, table, regrouped, Key(r));
      DedupIsLookup(Overridden(regrouped, overrides), r);
      DedupIsLookup(Overridden(gathered, overrides), r);
      DedupLookup(Overridden(gathered, overrides), Key(r));
    }
  }

  /** The retained routes come first, and only routes of unvisited services follow them. */
  lemma FailedCycleShape(names: seq<string>, attempts: string -> Attempt, before: seq<RouteConfig>,
    fail: string -> Attempt, overrides: seq<RouteOverride>)
    requires DistinctNames(names) && Agreeing(overrides) && AllFail(names, fail)
    ensures var table := Refreshed(names, attempts, before, overrides);
      var regrouped := Gathered(names, fail, table);
      regrouped <= Refreshed(names, fail, table, overrides) &&
      forall r :: r in Refreshed(names, fail, table, overrides)[|regrouped|..] ==> r.service !in names
  {
    var table := Refreshed(names, attempts, before, overrides);
    var regrouped := Gathered(names, fail, table);
    var after := Refreshed(names, fail, table, overrides);
    AfterCycleHolds(names, attempts, before, fail, overrides);
    DistinctAgreeSettle(overrides);
    TableIsPatched(Gathered(names, attempts, before), overrides);
    PatchAllFixed(overrides, regrouped);
    DedupKeepsKeys(Overridden(Gathered(names, attempts, before), overrides));
    GatheredDistinct(names, fail, table);
    DedupKeepsPrefix(regrouped, Added(overrides, GrpcMethods(regrouped)));
    FailedCycleKeepsRoutes(names, attempts, before, fail, overrides);
    GatheredWhenFailing(names, fail, table);
    DedupKeepsKeys(Overridden(regrouped, overrides));
    TailIsOutside(names, table, regrouped, after);
  }

  lemma TailIsOutside(names: seq<string>, table: seq<RouteConfig>, regrouped: seq<RouteConfig>, after: seq<RouteConfig>)
    requires DistinctKeys(after) && regrouped <= after
    requires forall r :: r in after ==> r in table
    requires forall r :: r in table && r.service in names ==> r in regrouped
    ensures forall r :: r in after[|regrouped|..] ==> r.service !in names
  {
  }

  /** A failing cycle changes no visited service's own list. */
  lemma FailedCycleKeepsServices(names: seq<string>, attempts: string -> Attempt, before: seq<RouteConfig>,
    fail: string -> Attempt, overrides: seq<RouteOverride>, service: string)
    requires DistinctNames(names) && Agreeing(overrides) && AllFail(names, fail) && service in names
    ensures var table := Refreshed(names, attempts, before, overrides);
      ForService(Refreshed(names, fail, table, overrides), service) == ForService(table, service)
  {
    var table := Refreshed(names, attempts, before, overrides);
    FailedCycleShape(names, attempts, before, fail, overrides);
    ForServiceOfPrefix(Gathered(names, fail, table), Refreshed(names, fail, table, overrides), names, service);
    RegroupKeepsServices(names, fail, table, service);
  }

  lemma ForServiceOfPrefix(prefix: seq<RouteConfig>, all: seq<RouteConfig>, names: seq<string>, service: string)
    requires prefix <= all && service in names
    requires forall r :: r in all[|prefix|..] ==> r.service !in names
    ensures ForService(all, service) == ForService(prefix, service)
  {
  }

  /** Successive cycles, oldest first. */
  function Cycles(names: seq<string>, cycles: seq<string -> Attempt>, table: seq<RouteConfig>, overrides: seq<RouteOverride>)
    : seq<RouteConfig>
  {
    if cycles == [] then table
    else
      var n := |cycles| - 1;
      Refreshed(names, cycles[n], Cycles(names, cycles[..n], table, overrides), overrides)
  }

  /** However often every service fails after one cycle, the routes stay the same, and from
      the first failing cycle on the list itself no longer changes. */
  lemma {:induction false} FailingCyclesSettle(names: seq<string>, attempts: string -> Attempt, before: seq<RouteConfig>,
    cycles: seq<string -> Attempt>, overrides: seq<RouteOverride>)
    requires DistinctNames(names) && Agreeing(overrides) && |cycles| >= 1
    requires forall i :: 0 <= i < |cycles| ==> AllFail(names, cycles[i])
    ensures var table := Refreshed(names, attempts, before, overrides);
      Cycles(names, cycles, table, overrides) == Refreshed(names, cycles[0], table, overrides) &&
      forall r :: r in Cycles(names, cycles, table, overrides) <==> r in table
  {
    var table := Refreshed(names, attempts, before, overrides);
    FailedCycleKeepsRoutes(names, attempts, before, cycles[0], overrides);
    if |cycles| == 1 {
      assert cycles[..0] == [];
    } else {
      var n := |cycles| - 1;
      FailingCyclesSettle(names, attempts, before, cycles[..n], overrides);
      var first := Refreshed(names, cycles[0], table, overrides);
      forall s | s in names ensures ForService(first, s) == ForService(table, s) {
        FailedCycleKeepsServices(names, attempts, before, cycles[0], overrides, s);
      }
      GatheredByService(names, cycles[n], cycles[0], first, table);
    }
  }

  const FIRST := RouteOverride("m", Some("/a"), Some("GET"), Some("s"))
  const SECOND := RouteOverride("m", Some("/b"), Some("GET"), Some("s"))

  function Unreachable(name: string): Attempt {
    NoChannel
  }

  lemma DisagreeingTable()
    ensures OverrideFor([FIRST, SECOND], "m") == Some(SECOND)
    ensures Refreshed(["s"], Unreachable, [], [FIRST, SECOND]) == [NewRoute(FIRST), NewRoute(SECOND)]
  {
    var r1, r2 := NewRoute(FIRST), NewRoute(SECOND);
    PairAdded(FIRST, SECOND);
    assert ["s"][..0] == [] && Gathered(["s"], Unreachable, []) == [];
    assert Key(r1)[|Key(r1)| - 1] == 'a' && Key(r2)[|Key(r2)| - 1] == 'b';
    TwoKeysStay(r1, r2);
  }

  lemma TwoKeysStay(r: RouteConfig, q: RouteConfig)
    requires Key(r) != Key(q)
    ensures Dedup([r, q]) == [r, q]
  {
    DedupIdentityIffDistinct([r, q]);
  }

  /** Two overrides of one method with different paths: a failing cycle loses a route. */
  lemma DisagreeingOverridesLoseRoute()
    ensures var overrides := [FIRST, SECOND];
      var table := Refreshed(["s"], Unreachable, [], overrides);
      AllFail(["s"], Unreachable) && !Agreeing(overrides) &&
      NewRoute(FIRST) in table && NewRoute(FIRST) !in Refreshed(["s"], Unreachable, table, overrides)
  {
    var overrides := [FIRST, SECOND];
    DisagreeingTable();
    assert !Agreeing(overrides) by {
      assert overrides[0] == FIRST && Complete(FIRST);
    }
    var table := [NewRoute(FIRST), NewRoute(SECOND)];
    var gathered := Gathered(["s"], Unreachable, table);
    GatheredWhenFailing(["s"], Unreachable, table);
    assert NewRoute(FIRST) in table && "s" in ["s"];
    var i :| 0 <= i < |gathered| && gathered[i] == NewRoute(FIRST);
    OverridingNeverYields(gathered, overrides, NewRoute(FIRST), "/b");
    DedupKeepsFirsts(Overridden(gathered, overrides), NewRoute(FIRST));
  }

  lemma OverridingNeverYields(gathered: seq<RouteConfig>, overrides: seq<RouteOverride>, r: RouteConfig, path: string)
    requires r.path != path && r.grpcMethod in GrpcMethods(gathered)
    requires OverrideFor(overrides, r.grpcMethod).Some? && OverrideFor(overrides, r.grpcMethod).value.httpPath == Some(path)
    ensures r !in Overridden(gathered, overrides)
  {
    forall i | 0 <= i < |gathered| ensures PatchAll(overrides, gathered)[i] != r {
      var x := Patch(overrides, gathered[i]);
      assert x.grpcMethod == r.grpcMethod ==> x.path == path;
    }
    AddedMembers(overrides, GrpcMethods(gathered));
  }

  // ---------- what failing cycles do to requests ----------

  /** Requests answered by a static route get the same answer after a cycle in which every service fails. */
  lemma FailedCycleKeepsStaticAnswers(names: seq<string>, attempts: string -> Attempt, before: seq<RouteConfig>,
    fail: string -> Attempt, overrides: seq<RouteOverride>, path: string, httpMethod: string)
    requires DistinctNames(names) && Agreeing(overrides) && AllFail(names, fail)
    ensures var table := Refreshed(names, attempts, before, overrides);
      LastStatic(Refreshed(names, fail, table, overrides), path, httpMethod) == LastStatic(table, path, httpMethod)
  {
    var table := Refreshed(names, attempts, before, overrides);
    FailedCycleKeepsRoutes(names, attempts, before, fail, overrides);
    DedupKeepsKeys(Overridden(Gathered(names, attempts, before), overrides));
    SameStaticAnswer(table, Refreshed(names, fail, table, overrides), path, httpMethod);
  }

  lemma SameStaticAnswer(table: seq<RouteConfig>, after: seq<RouteConfig>, path: string, httpMethod: string)
    requires DistinctKeys(table) && forall r :: r in after <==> r in table
    ensures LastStatic(after, path, httpMethod) == LastStatic(table, path, httpMethod)
  {
    LastStaticHits(table, path, httpMethod);
    LastStaticHits(after, path, httpMethod);
    var v, w := LastStatic(table, path, httpMethod), LastStatic(after, path, httpMethod);
    if v.Some? && w.Some? {
      SameKeySameRoute(table, v.value, w.value);
    }
  }

  /** A request is answered after such a cycle exactly if it was answered before. */
  lemma FailedCycleKeepsAnswered(names: seq<string>, attempts: string -> Attempt, before: seq<RouteConfig>,
    fail: string -> Attempt, overrides: seq<RouteOverride>, path: string, httpMethod: string)
    requires DistinctNames(names) && Agreeing(overrides) && AllFail(names, fail)
    ensures var table := Refreshed(names, attempts, before, overrides);
      var after := Refreshed(names, fail, table, overrides);
      LinearRoute(after, path, httpMethod).Success? <==> LinearRoute(table, path, httpMethod).Success?
  {
    var table := Refreshed(names, attempts, before, overrides);
    FailedCycleKeepsRoutes(names, attempts, before, fail, overrides);
    SameRoutesSameAnswered(table, Refreshed(names, fail, table, overrides), path, httpMethod);
  }

  lemma SameRoutesSameAnswered(table: seq<RouteConfig>, after: seq<RouteConfig>, path: string, httpMethod: string)
    requires forall r :: r in after <==> r in table
    ensures LinearRoute(after, path, httpMethod).Success? <==> LinearRoute(table, path, httpMethod).Success?
  {
    LastStaticHits(table, path, httpMethod);
    LastStaticHits(after, path, httpMethod);
    FirstDynamicHits(table, path, httpMethod);
    FirstDynamicHits(after, path, httpMethod);
  }

  /** A route of the table whose service is visited. */
  predicate Visited(table: seq<RouteConfig>, names: seq<string>, r: RouteConfig) {
    r in table && r.service in names
  }

  lemma OverriddenGathered(gathered: seq<RouteConfig>, overrides: seq<RouteOverride>, r: RouteConfig)
    requires r in gathered && r in Overridden(gathered, overrides)
    ensures Patch(overrides, r) == r
  {
    AddedMembers(overrides, GrpcMethods(gathered));
    assert r in PatchAll(overrides, gathered);
    var i :| 0 <= i < |gathered| && r == Patch(overrides, gathered[i]);
    PatchIdempotent(overrides, gathered[i]);
  }

  /** For any one duplicate-free table and any overrides: a cycle in which every service fails keeps
      all routes of visited services exactly when overriding changes none of them. */
  lemma FailedCycleKeepsVisitedExactly(names: seq<string>, fail: string -> Attempt, table: seq<RouteConfig>, overrides: seq<RouteOverride>)
    requires DistinctNames(names) && AllFail(names, fail) && DistinctKeys(table)
    ensures (forall r :: Visited(table, names, r) ==> r in Refreshed(names, fail, table, overrides))
      <==> (forall r :: Visited(table, names, r) ==> Patch(overrides, r) == r)
  {
    var gathered := Gathered(names, fail, table);
    var after := Refreshed(names, fail, table, overrides);
    GatheredWhenFailing(names, fail, table);
    GatheredDistinct(names, fail, table);
    DedupSubset(Overridden(gathered, overrides));
    if forall r :: Visited(table, names, r) ==> Patch(overrides, r) == r {
      PatchAllFixed(overrides, gathered);
      DedupKeepsPrefix(gathered, Added(overrides, GrpcMethods(gathered)));
      assert forall r :: r in gathered ==> r in after[..|gathered|];
    }
    forall r | Visited(table, names, r) && r in after ensures Patch(overrides, r) == r {
      OverriddenGathered(gathered, overrides, r);
    }
  }

  datatype TableEvent =
    | Cycle(attempts: string -> Attempt)
    | AdminRefresh(order: seq<string>, replies: string -> Attempt)

  /** The table after start-up and any number of refresh cycles and admin refreshes. */
  function TableAfter(names: seq<string>, overrides: seq<RouteOverride>, order: seq<string>, startUp: string -> Attempt,
    events: seq<TableEvent>): seq<RouteConfig>
  {
    if events == [] then Overridden(Discovered(order, startUp), overrides)
    else
      var n := |events| - 1;
      match events[n]
      case Cycle(attempts) => Refreshed(names, attempts, TableAfter(names, overrides, order, startUp, events[..n]), overrides)
      case AdminRefresh(own, replies) => Overridden(Discovered(own, replies), overrides)
  }

  predicate VerbsSpaceFree(overrides: seq<RouteOverride>) {
    forall i :: 0 <= i < |overrides| && overrides[i].httpMethod.Some? ==> SpaceFree(overrides[i].httpMethod.value)
  }

  predicate TableSpaceFree(table: seq<RouteConfig>) {
    forall r :: r in table ==> SpaceFree(r.httpMethod)
  }

  lemma {:induction false} DiscoveredSpaceFree(names: seq<string>, attempts: string -> Attempt)
    ensures TableSpaceFree(Discovered(names, attempts))
  {
    if names == [] {
    } else {
      var n := |names| - 1;
      DiscoveredSpaceFree(names[..n], attempts);
      FoundSpaceFree(names[n], attempts(names[n]));
    }
  }

  lemma FoundSpaceFree(service: string, attempt: Attempt)
    ensures OutcomeOf(service, attempt).Found? ==> TableSpaceFree(OutcomeOf(service, attempt).routes)
  {
    if OutcomeOf(service, attempt).Found? {
      MapMethodsService(service, AllMethods(attempt.replies).value);
    }
  }

  lemma {:induction false} GatheredSpaceFree(names: seq<string>, attempts: string -> Attempt, table: seq<RouteConfig>)
    requires TableSpaceFree(table)
    ensures TableSpaceFree(Gathered(names, attempts, table))
  {
    if names == [] {
    } else {
      var n := |names| - 1;
      GatheredSpaceFree(names[..n], attempts, table);
      FoundSpaceFree(names[n], attempts(names[n]));
      ForServiceMembers(table, names[n]);
    }
  }

  lemma OverriddenSpaceFree(table: seq<RouteConfig>, overrides: seq<RouteOverride>)
    requires TableSpaceFree(table) && VerbsSpaceFree(overrides)
    ensures TableSpaceFree(Overridden(table, overrides))
  {
    forall r | r in Overridden(table, overrides) ensures SpaceFree(r.httpMethod) {
      if r in PatchAll(overrides, table) {
        var i :| 0 <= i < |table| && PatchAll(overrides, table)[i] == r;
        if OverrideFor(overrides, table[i].grpcMethod).Some? {
          OverrideForMember(overrides, table[i].grpcMethod);
        }
      } else {
        AddedMembers(overrides, GrpcMethods(table));
        var k :| 0 <= k < |overrides| && AddedFrom(overrides[k], GrpcMethods(table), r);
      }
    }
  }

  /** In every run, overriding again changes no route of the table, and verbs stay free of spaces. */
  lemma {:induction false} EveryTable(names: seq<string>, overrides: seq<RouteOverride>, order: seq<string>, startUp: string -> Attempt,
    events: seq<TableEvent>)
    requires Settled(overrides) && VerbsSpaceFree(overrides)
    ensures TableSpaceFree(TableAfter(names, overrides, order, startUp, events))
    ensures forall r :: r in TableAfter(names, overrides, order, startUp, events) ==> Patch(overrides, r) == r
  {
    var n := |events| - 1;
    if events == [] {
      DiscoveredSpaceFree(order, startUp);
      OverriddenSpaceFree(Discovered(order, startUp), overrides);
      OverriddenIsPatched(Discovered(order, startUp), overrides);
    } else {
      match events[n]
      case AdminRefresh(own, replies) =>
        DiscoveredSpaceFree(own, replies);
        OverriddenSpaceFree(Discovered(own, replies), overrides);
        OverriddenIsPatched(Discovered(own, replies), overrides);
      case Cycle(attempts) =>
        EveryTable(names, overrides, order, startUp, events[..n]);
        var gathered := Gathered(names, attempts, TableAfter(names, overrides, order, startUp, events[..n]));
        GatheredSpaceFree(names, attempts, TableAfter(names, overrides, order, startUp, events[..n]));
        OverriddenSpaceFree(gathered, overrides);
        TableIsPatched(gathered, overrides);
        DedupSubset(Overridden(gathered, overrides));
    }
  }

  /** A failing service's routes keep their keys in the table, whatever the other services answer. */
  lemma FailingKeepsKey(names: seq<string>, attempts: string -> Attempt, table: seq<RouteConfig>, overrides: seq<RouteOverride>, r: RouteConfig)
    requires r in table && r.service in names && OutcomeOf(r.service, attempts(r.service)).Retain?
    requires Patch(overrides, r) == r
    ensures Key(r) in Keys(Refreshed(names, attempts, table, overrides))
  {
    var gathered := Gathered(names, attempts, table);
    FailingIsGathered(names, attempts, table, r);
    var i :| 0 <= i < |gathered| && gathered[i] == r;
    DedupKeepsKeys(Overridden(gathered, overrides));
    assert Overridden(gathered, overrides)[i] == r;
    assert Key(Overridden(gathered, overrides)[i]) in Keys(Overridden(gathered, overrides));
  }

  /** A list that holds a matching route answers the request. */
  lemma HitIsRouted(table: seq<RouteConfig>, r: RouteConfig, path: string, httpMethod: string)
    requires r in table && (StaticHit(r, path, httpMethod) || DynamicHit(r, path, httpMethod))
    ensures LinearRoute(table, path, httpMethod).Success?
  {
    LastStaticHits(table, path, httpMethod);
    FirstDynamicHits(table, path, httpMethod);
  }

  /** An answer comes from a route of the list that matches. */
  lemma RoutedHasHit(table: seq<RouteConfig>, path: string, httpMethod: string) returns (r: RouteConfig)
    requires LinearRoute(table, path, httpMethod).Success?
    ensures r in table && (StaticHit(r, path, httpMethod) || DynamicHit(r, path, httpMethod))
    ensures r.service == LinearRoute(table, path, httpMethod).value.service
  {
    LastStaticHits(table, path, httpMethod);
    FirstDynamicHits(table, path, httpMethod);
    r := if LastStatic(table, path, httpMethod).Some? then LastStatic(table, path, httpMethod).value
         else FirstDynamic(table, path, httpMethod).value;
  }

  /** The request is routed to a visited service that fails. */
  predicate RoutedToFailing(table: seq<RouteConfig>, names: seq<string>, attempts: string -> Attempt, path: string, httpMethod: string) {
    var decision := LinearRoute(table, path, httpMethod);
    decision.Success? && decision.value.service in names &&
    OutcomeOf(decision.value.service, attempts(decision.value.service)).Retain?
  }

  /** In every run: a request that was routed to a service which then fails in a refresh
      cycle is still routed afterwards, whatever the other services answer. */
  lemma RoutedStaysRouted(names: seq<string>, overrides: seq<RouteOverride>, order: seq<string>, startUp: string -> Attempt,
    events: seq<TableEvent>, attempts: string -> Attempt, path: string, httpMethod: string)
    requires Settled(overrides) && VerbsSpaceFree(overrides)
    ensures RoutedToFailing(TableAfter(names, overrides, order, startUp, events), names, attempts, path, httpMethod) ==>
      LinearRoute(TableAfter(names, overrides, order, startUp, events + [Cycle(attempts)]), path, httpMethod).Success?
  {
    var table := TableAfter(names, overrides, order, startUp, events);
    var after := TableAfter(names, overrides, order, startUp, events + [Cycle(attempts)]);
    assert (events + [Cycle(attempts)])[..|events|] == events;
    if !RoutedToFailing(table, names, attempts, path, httpMethod) {
      return;
    }
    EveryTable(names, overrides, order, startUp, events);
    EveryTable(names, overrides, order, startUp, events + [Cycle(attempts)]);
    var r := RoutedHasHit(table, path, httpMethod);
    FailingKeepsKey(names, attempts, table, overrides, r);
    var i :| 0 <= i < |after| && Key(after[i]) == Key(r);
    KeyInjective(after[i], r);
    HitIsRouted(after, after[i], path, httpMethod);
  }

  lemma SegmentsOfRooted(name: string)
    requires IsSegment(name)
    ensures Segments("/" + name) == [name]
  {
    assert Join([name]) == "/" + name by { assert [name][1..] == []; }
    SegmentsOfJoin([name]);
  }

  /** Without settled overrides it can be lost: the retained route is moved to another path. */
  lemma UnsettledOverridesLoseRequest()
    ensures var overrides := [FIRST, SECOND];
      var table := TableAfter(["s"], overrides, [], Unreachable, []);
      !Settled(overrides) && OutcomeOf("s", Unreachable("s")).Retain? &&
      LinearRoute(table, "/a", "GET") == Success(RoutingDecision("s", "m", map[])) &&
      LinearRoute(TableAfter(["s"], overrides, [], Unreachable, [Cycle(Unreachable)]), "/a", "GET").Failure?
  {
    var overrides := [FIRST, SECOND];
    DisagreeingTable();
    DisagreeingStart();
    assert overrides[0] == FIRST && Complete(FIRST);
    RoutedBefore();
    MovedAway([NewRoute(FIRST), NewRoute(SECOND)]);
    assert [Cycle(Unreachable)][..0] == [];
    SegmentsOfRooted("b");
    StaticMissFails(TableAfter(["s"], overrides, [], Unreachable, [Cycle(Unreachable)]), NewRoute(SECOND), "/a", "GET");
  }

  lemma RoutedBefore()
    ensures LinearRoute([NewRoute(FIRST), NewRoute(SECOND)], "/a", "GET") == Success(RoutingDecision("s", "m", map[]))
  {
    var r1, r2 := NewRoute(FIRST), NewRoute(SECOND);
    SegmentsOfRooted("a");
    assert Upper("GET") == "GET";
    assert PatternOf(r1).IsStatic();
    assert !StaticHit(r2, "/a", "GET") && StaticHit(r1, "/a", "GET");
    assert [r1, r2][..1] == [r1];
    assert LastStatic([r1], "/a", "GET") == Some(r1);
  }

  lemma DisagreeingStart()
    ensures TableAfter(["s"], [FIRST, SECOND], [], Unreachable, []) == [NewRoute(FIRST), NewRoute(SECOND)]
  {
    PairAdded(FIRST, SECOND);
  }

  lemma MovedAway(table: seq<RouteConfig>)
    requires table == [NewRoute(FIRST), NewRoute(SECOND)]
    requires OverrideFor([FIRST, SECOND], "m") == Some(SECOND)
    ensures forall r :: r in Refreshed(["s"], Unreachable, table, [FIRST, SECOND]) ==> r == NewRoute(SECOND)
  {
    var overrides := [FIRST, SECOND];
    var gathered := Gathered(["s"], Unreachable, table);
    GatheredWhenFailing(["s"], Unreachable, table);
    assert NewRoute(FIRST) in table && "s" in ["s"];
    var j :| 0 <= j < |gathered| && gathered[j] == NewRoute(FIRST);
    NothingAdded(overrides, GrpcMethods(gathered));
    DedupSubset(Overridden(gathered, overrides));
    AllPatchedTo(overrides, gathered, NewRoute(SECOND));
  }

  lemma AllPatchedTo(overrides: seq<RouteOverride>, routes: seq<RouteConfig>, r: RouteConfig)
    requires forall x :: x in routes ==> Patch(overrides, x) == r
    ensures forall x :: x in PatchAll(overrides, routes) ==> x == r
  {
  }

  // ---------- two overrides whose routes have one key ----------

  lemma PairPatched(a: RouteOverride, b: RouteOverride)
    requires Complete(a) && Complete(b) && a.grpcMethod != b.grpcMethod
    ensures DistinctMethods([a, b])
    ensures Patch([a, b], NewRoute(a)) == NewRoute(a) && Patch([a, b], NewRoute(b)) == NewRoute(b)
  {
    OverrideForDistinct([a, b], 0);
    OverrideForDistinct([a, b], 1);
  }

  lemma PairAdded(a: RouteOverride, b: RouteOverride)
    requires Complete(a) && Complete(b)
    ensures Overridden([], [a, b]) == [NewRoute(a), NewRoute(b)]
  {
    assert [a, b][..1] == [a] && [a][..0] == [];
    assert GrpcMethods([]) == {};
    assert Added([a], {}) == [NewRoute(a)];
  }

  lemma PairOverriddenAgain(a: RouteOverride, b: RouteOverride)
    requires Complete(a) && Complete(b) && a.grpcMethod != b.grpcMethod
    ensures Overridden([NewRoute(a), NewRoute(b)], [a, b]) == [NewRoute(a), NewRoute(b)]
  {
    PairPatched(a, b);
    DistinctAgreeSettle([a, b]);
    PairAdded(a, b);
    SettledIsIdempotent([], [a, b]);
  }

  lemma PairGathered(r: RouteConfig, q: RouteConfig)
    requires r.service != q.service
    ensures Gathered([r.service, q.service], Unreachable, [r, q]) == [r, q]
  {
    var names := [r.service, q.service];
    assert [r, q][..1] == [r] && [r][..0] == [];
    assert ForService([r], r.service) == [r] && ForService([r], q.service) == [];
    assert ForService([r, q], r.service) == [r] && ForService([r, q], q.service) == [q];
    assert names[..1] == [r.service] && [r.service][..0] == [];
    assert Gathered([r.service], Unreachable, [r, q]) == [r];
  }

  lemma PairDeduplicated(r: RouteConfig, q: RouteConfig)
    requires Key(r) == Key(q)
    ensures Dedup([r, q]) == [r]
  {
    assert [r, q][..1] == [r] && [r][..0] == [];
    assert Key([r, q][0]) == Key([r, q][1]);
    assert Dedup([r]) == [r];
  }

  /** Of two services' routes with one key, a cycle in which both services fail keeps the first. */
  lemma FailedCycleDropsSecond(a: RouteOverride, b: RouteOverride)
    requires Complete(a) && Complete(b) && a.grpcMethod != b.grpcMethod && a.service != b.service
    requires Key(NewRoute(a)) == Key(NewRoute(b))
    ensures var (names, overrides) := ([a.service.value, b.service.value], [a, b]);
      && TableAfter(names, overrides, [], Unreachable, []) == [NewRoute(a), NewRoute(b)]
      && TableAfter(names, overrides, [], Unreachable, [Cycle(Unreachable)]) == [NewRoute(a)]
  {
    PairAdded(a, b);
    PairGathered(NewRoute(a), NewRoute(b));
    PairOverriddenAgain(a, b);
    PairDeduplicated(NewRoute(a), NewRoute(b));
    assert [Cycle(Unreachable)][..0] == [];
  }

  const SPACED := RouteOverride("m2", Some("b"), Some("GET /a"), Some("t"))
  const PLAIN := RouteOverride("m1", Some("/a b"), Some("GET"), Some("s"))

  lemma SpacedRoutes()
    ensures Key(NewRoute(SPACED)) == Key(NewRoute(PLAIN))
    ensures StaticHit(NewRoute(PLAIN), "/a b", "GET")
    ensures PatternOf(NewRoute(SPACED)).IsStatic() && !StaticHit(NewRoute(SPACED), "/a b", "GET")
  {
  }

  lemma SecondAnswers(r: RouteConfig, q: RouteConfig, path: string, httpMethod: string)
    requires StaticHit(q, path, httpMethod)
    ensures LinearRoute([r, q], path, httpMethod) == Success(RoutingDecision(q.service, q.grpcMethod, map[]))
  {
  }

  lemma StaticMissFails(routes: seq<RouteConfig>, r: RouteConfig, path: string, httpMethod: string)
    requires forall x :: x in routes ==> x == r
    requires PatternOf(r).IsStatic() && !StaticHit(r, path, httpMethod)
    ensures LinearRoute(routes, path, httpMethod).Failure?
  {
    LastStaticHits(routes, path, httpMethod);
    FirstDynamicHits(routes, path, httpMethod);
  }

  /** A verb with a space can lose a request too: deduplication takes two different routes for one. */
  lemma SpacedVerbsLoseRequest()
    ensures var (names, overrides) := (["t", "s"], [SPACED, PLAIN]);
      var table := TableAfter(names, overrides, [], Unreachable, []);
      Settled(overrides) && !VerbsSpaceFree(overrides) &&
      LinearRoute(table, "/a b", "GET") == Success(RoutingDecision("s", "m1", map[])) &&
      LinearRoute(TableAfter(names, overrides, [], Unreachable, [Cycle(Unreachable)]), "/a b", "GET").Failure?
  {
    var overrides := [SPACED, PLAIN];
    SpacedRoutes();
    PairPatched(SPACED, PLAIN);
    DistinctAgreeSettle(overrides);
    assert overrides[0].httpMethod.value[3] == ' ';
    FailedCycleDropsSecond(SPACED, PLAIN);
    SecondAnswers(NewRoute(SPACED), NewRoute(PLAIN), "/a b", "GET");
    StaticMissFails([NewRoute(SPACED)], NewRoute(SPACED), "/a b", "GET");
  }
}
