/** What every refresh cycle keeps when services fail (discovery/service.rs, start_refresh_task). */
module RefreshStability {
  import opened Wrappers
  import opened Routes
  import opened OverrideHandler
  import opened RouteValidator
  import opened RouteDiscovery

  predicate DistinctNames(names: seq<string>) {
    forall i, j :: 0 <= i < j < |names| ==> names[i] != names[j]
  }

  /** Every visited service fails, with any error but EmptyService. */
  predicate AllFail(names: seq<string>, attempts: string -> Attempt) {
    forall i :: 0 <= i < |names| ==> OutcomeOf(names[i], attempts(names[i])).Retain?
  }

  // ---------- a list as a map from keys to the first route holding them ----------

  function Lookup(routes: seq<RouteConfig>, key: string): Option<RouteConfig> {
    if routes == [] then None
    else
      var n := |routes| - 1;
      var earlier := Lookup(routes[..n], key);
      if earlier.Some? then earlier
      else if Key(routes[n]) == key then Some(routes[n])
      else None
  }

  lemma {:induction false} LookupConcat(a: seq<RouteConfig>, b: seq<RouteConfig>, key: string)
    ensures Lookup(a + b, key) == if Lookup(a, key).Some? then Lookup(a, key) else Lookup(b, key)
  {
    if b == [] {
      assert a + b == a;
    } else {
      var n := |b| - 1;
      LookupConcat(a, b[..n], key);
      assert (a + b)[..|a| + n] == a + b[..n];
    }
  }

  lemma {:induction false} LookupFinds(routes: seq<RouteConfig>, key: string)
    ensures Lookup(routes, key).Some? <==> key in Keys(routes)
    ensures Lookup(routes, key).Some? ==> Lookup(routes, key).value in routes && Key(Lookup(routes, key).value) == key
  {
    if routes == [] {
    } else {
      var n := |routes| - 1;
      LookupFinds(routes[..n], key);
      assert routes == routes[..n] + [routes[n]];
      KeysOfConcat(routes[..n], [routes[n]]);
      KeysOfOne(routes[n]);
    }
  }

  lemma {:induction false} LookupAtFirst(routes: seq<RouteConfig>, i: nat)
    requires i < |routes| && IsFirst(routes, i)
    ensures Lookup(routes, Key(routes[i])) == Some(routes[i])
  {
    var front, back := routes[..i], routes[i..];
    assert routes == front + back;
    LookupConcat(front, back, Key(routes[i]));
    LookupFinds(front, Key(routes[i]));
    LookupConcat([routes[i]], routes[i + 1..], Key(routes[i]));
    assert back == [routes[i]] + routes[i + 1..];
    assert Key(routes[i]) !in Keys(front);
  }

  /** Deduplication keeps exactly the routes their key is looked up to. */
  lemma DedupIsLookup(routes: seq<RouteConfig>, r: RouteConfig)
    ensures r in Dedup(routes) <==> Lookup(routes, Key(r)) == Some(r)
  {
    DedupKeepsFirsts(routes, r);
    LookupFinds(routes, Key(r));
    if Lookup(routes, Key(r)) == Some(r) {
      var p :| 0 <= p < |routes| && routes[p] == r;
      var i := FirstIndexOfKey(routes, p);
      LookupAtFirst(routes, i);
      assert FirstAt(routes, i, r);
    }
    if i: nat :| FirstAt(routes, i, r) {
      LookupAtFirst(routes, i);
    }
  }

  lemma SameKeySameRoute(table: seq<RouteConfig>, r: RouteConfig, s: RouteConfig)
    requires DistinctKeys(table) && r in table && s in table && Key(r) == Key(s)
    ensures r == s
  {
  }

  // ---------- what a cycle gathers ----------

  lemma MapMethodsService(service: string, methods: seq<Method>)
    ensures forall r :: r in MapMethods(service, methods) ==> r.service == service && SpaceFree(r.httpMethod)
  {
    forall r | r in MapMethods(service, methods) ensures r.service == service && SpaceFree(r.httpMethod) {
      CollectedMembers(Mapped(service, methods), r);
      var k :| 0 <= k < |methods| && Mapped(service, methods)[k] == Some(r);
      assert RouteOf(service, methods[k]) == Some(r);
    }
  }

  lemma ContributionService(service: string, attempt: Attempt, table: seq<RouteConfig>)
    ensures forall r :: r in Contribution(service, attempt, table) ==> r.service == service
  {
    ForServiceMembers(table, service);
    if attempt.Listed? && AllMethods(attempt.replies).Some? {
      MapMethodsService(service, AllMethods(attempt.replies).value);
    }
  }

  lemma {:induction false} GatheredServices(names: seq<string>, attempts: string -> Attempt, table: seq<RouteConfig>)
    ensures forall r :: r in Gathered(names, attempts, table) ==> r.service in names
  {
    if names == [] {
    } else {
      var n := |names| - 1;
      GatheredServices(names[..n], attempts, table);
      ContributionService(names[n], attempts(names[n]), table);
      assert names == names[..n] + [names[n]];
    }
  }

  /** A failing service's present routes are gathered, whatever the others do. */
  lemma {:induction false} FailingIsGathered(names: seq<string>, attempts: string -> Attempt, table: seq<RouteConfig>, r: RouteConfig)
    requires r in table && r.service in names && OutcomeOf(r.service, attempts(r.service)).Retain?
    ensures r in Gathered(names, attempts, table)
  {
    var n := |names| - 1;
    if r.service == names[n] {
      ForServiceMembers(table, r.service);
    } else {
      assert r.service in names[..n];
      FailingIsGathered(names[..n], attempts, table, r);
    }
  }

  /** When every service fails, what is gathered are the table's routes of visited services. */
  lemma {:induction false} GatheredWhenFailing(names: seq<string>, attempts: string -> Attempt, table: seq<RouteConfig>)
    requires AllFail(names, attempts)
    ensures forall r :: r in Gathered(names, attempts, table) ==> r in table && r.service in names
    ensures forall r :: r in table && r.service in names ==> r in Gathered(names, attempts, table)
  {
    if names == [] {
    } else {
      var n := |names| - 1;
      assert AllFail(names[..n], attempts) by {
        assert forall i :: 0 <= i < n ==> names[..n][i] == names[i];
      }
      GatheredWhenFailing(names[..n], attempts, table);
      ForServiceMembers(table, names[n]);
      assert names == names[..n] + [names[n]];
    }
  }

  lemma DistinctConcat(a: seq<RouteConfig>, b: seq<RouteConfig>)
    requires DistinctKeys(a) && DistinctKeys(b)
    requires forall r, s :: r in a && s in b ==> Key(r) != Key(s)
    ensures DistinctKeys(a + b)
  {
  }

  lemma {:induction false} GatheredDistinct(names: seq<string>, attempts: string -> Attempt, table: seq<RouteConfig>)
    requires DistinctNames(names) && AllFail(names, attempts) && DistinctKeys(table)
    ensures DistinctKeys(Gathered(names, attempts, table))
  {
    if names == [] {
    } else {
      var n := |names| - 1;
      assert AllFail(names[..n], attempts) by {
        assert forall i :: 0 <= i < n ==> names[..n][i] == names[i];
      }
      GatheredDistinct(names[..n], attempts, table);
      GatheredWhenFailing(names[..n], attempts, table);
      ForServiceDistinct(table, names[n]);
      ForServiceMembers(table, names[n]);
      forall r, s | r in Gathered(names[..n], attempts, table) && s in ForService(table, names[n]) ensures Key(r) != Key(s) {
        if Key(r) == Key(s) {
          SameKeySameRoute(table, r, s);
        }
      }
      DistinctConcat(Gathered(names[..n], attempts, table), ForService(table, names[n]));
    }
  }

  /** Gathering from failing services only looks at the table service by service. */
  lemma {:induction false} GatheredByService(names: seq<string>, attempts: string -> Attempt, attempts': string -> Attempt, table: seq<RouteConfig>, table': seq<RouteConfig>)
    requires AllFail(names, attempts) && AllFail(names, attempts')
    requires forall s :: s in names ==> ForService(table, s) == ForService(table', s)
    ensures Gathered(names, attempts, table) == Gathered(names, attempts', table')
  {
    if names == [] {
    } else {
      var n := |names| - 1;
      assert forall i :: 0 <= i < n ==> names[..n][i] == names[i];
      assert AllFail(names[..n], attempts) && AllFail(names[..n], attempts');
      assert names[n] in names;
      GatheredByService(names[..n], attempts, attempts', table, table');
    }
  }

  lemma ForServiceTwice(table: seq<RouteConfig>, own: string, service: string)
    ensures ForService(ForService(table, own), service) == if service == own then ForService(table, own) else []
  {
  }

  /** Regrouping keeps each visited service's routes in their order. */
  lemma {:induction false} RegroupKeepsServices(names: seq<string>, attempts: string -> Attempt, table: seq<RouteConfig>, service: string)
    requires DistinctNames(names) && AllFail(names, attempts)
    ensures ForService(Gathered(names, attempts, table), service) == if service in names then ForService(table, service) else []
  {
    if names == [] {
    } else {
      var n := |names| - 1;
      assert forall i :: 0 <= i < n ==> names[..n][i] == names[i];
      RegroupKeepsServices(names[..n], attempts, table, service);
      ForServiceOfConcat(Gathered(names[..n], attempts, table), ForService(table, names[n]), service);
      ForServiceTwice(table, names[n], service);
      assert service in names <==> service in names[..n] || service == names[n];
    }
  }

  // ---------- all services fail ----------

  lemma {:induction false} AddedLookupSame(overrides: seq<RouteOverride>, before: set<string>, after: set<string>, key: string)
    requires forall k :: 0 <= k < |overrides| && Complete(overrides[k]) && Key(NewRoute(overrides[k])) == key ==>
      (overrides[k].grpcMethod in before <==> overrides[k].grpcMethod in after)
    ensures Lookup(Added(overrides, before), key) == Lookup(Added(overrides, after), key)
  {
    if overrides == [] {
    } else {
      var n := |overrides| - 1;
      var o := overrides[n];
      AddedLookupSame(overrides[..n], before, after, key);
      forall methods: set<string> ensures Lookup(Added(overrides, methods), key) ==
        var earlier := Lookup(Added(overrides[..n], methods), key);
        if earlier.Some? then earlier
        else if o.grpcMethod !in methods && Complete(o) && Key(NewRoute(o)) == key then Some(NewRoute(o)) else None
      {
        var last := if o.grpcMethod !in methods && Complete(o) then [NewRoute(o)] else [];
        LookupConcat(Added(overrides[..n], methods), last, key);
        if last != [] {
          assert last[..0] == [];
        }
      }
    }
  }

  lemma PatchedHasKey(overrides: seq<RouteOverride>, gathered: seq<RouteConfig>, k: nat)
    requires Agreeing(overrides) && k < |overrides| && Complete(overrides[k]) && overrides[k].grpcMethod in GrpcMethods(gathered)
    ensures Key(NewRoute(overrides[k])) in Keys(PatchAll(overrides, gathered))
  {
  }

  /** A route of the table that a complete override's method names holds that override's key
      unless the method was gathered. */
  lemma AddedHasKey(overrides: seq<RouteOverride>, gathered: seq<RouteConfig>, k: nat, x: RouteConfig)
    requires Agreeing(overrides) && k < |overrides| && Complete(overrides[k])
    requires x in Overridden(gathered, overrides) && x.grpcMethod == overrides[k].grpcMethod
    requires overrides[k].grpcMethod !in GrpcMethods(gathered)
    ensures Key(x) == Key(NewRoute(overrides[k]))
  {
    PatchKeepsMethods(overrides, gathered);
    AddedMembers(overrides, GrpcMethods(gathered));
    assert x in Added(overrides, GrpcMethods(gathered));
    var j :| 0 <= j < |overrides| && AddedFrom(overrides[j], GrpcMethods(gathered), x);
  }

  lemma PatchKeepsMethods(overrides: seq<RouteOverride>, routes: seq<RouteConfig>)
    ensures forall x :: x in PatchAll(overrides, routes) ==>
      x.grpcMethod in GrpcMethods(routes) && exists y :: y in routes && y.service == x.service
  {
  }

  lemma PatchAllFixed(overrides: seq<RouteOverride>, routes: seq<RouteConfig>)
    requires forall r :: r in routes ==> Patch(overrides, r) == r
    ensures PatchAll(overrides, routes) == routes
  {
  }

  /** The table a cycle installed, and what the next, failing cycle gathers from it. */
  ghost predicate AfterCycle(names: seq<string>, overrides: seq<RouteOverride>, gathered: seq<RouteConfig>,
    table: seq<RouteConfig>, regrouped: seq<RouteConfig>)
  {
    && table == Dedup(Overridden(gathered, overrides))
    && (forall r :: r in gathered ==> r.service in names)
    && (forall r :: r in regrouped <==> r in table && r.service in names)
  }

  lemma AfterCycleHolds(names: seq<string>, attempts: string -> Attempt, before: seq<RouteConfig>, fail: string -> Attempt, overrides: seq<RouteOverride>)
    requires AllFail(names, fail)
    ensures var table := Refreshed(names, attempts, before, overrides);
      AfterCycle(names, overrides, Gathered(names, attempts, before), table, Gathered(names, fail, table))
  {
    GatheredServices(names, attempts, before);
    GatheredWhenFailing(names, fail, Refreshed(names, attempts, before, overrides));
  }

  /** A key held by a visited service's route is looked up to the same route after regrouping. */
  lemma LookupRegrouped(names: seq<string>, table: seq<RouteConfig>, regrouped: seq<RouteConfig>, key: string)
    requires DistinctKeys(table)
    requires forall r :: r in regrouped <==> r in table && r.service in names
    ensures Lookup(regrouped, key) ==
      var v := Lookup(table, key);
      if v.Some? && v.value.service in names then v else None
  {
    LookupFinds(table, key);
    LookupFinds(regrouped, key);
    var v, w := Lookup(table, key), Lookup(regrouped, key);
    if w.Some? {
      assert Key(w.value) in Keys(table) by {
        var i :| 0 <= i < |table| && table[i] == w.value;
      }
      SameKeySameRoute(table, v.value, w.value);
    }
    if v.Some? && v.value.service in names {
      var i :| 0 <= i < |regrouped| && regrouped[i] == v.value;
      assert Key(regrouped[i]) in Keys(regrouped);
    }
  }

  lemma {:induction false} DedupLookup(routes: seq<RouteConfig>, key: string)
    ensures Lookup(Dedup(routes), key) == Lookup(routes, key)
  {
    DedupKeepsKeys(routes);
    LookupFinds(routes, key);
    LookupFinds(Dedup(routes), key);
    if key in Keys(routes) {
      var r := Lookup(routes, key).value;
      DedupIsLookup(routes, r);
      SameKeySameRoute(Dedup(routes), r, Lookup(Dedup(routes), key).value);
    }
  }

  /** A complete override whose key is not held by a patched route and not held by a visited
      service's route was not gathered, before or after. */
  lemma AddedOnBothSides(names: seq<string>, overrides: seq<RouteOverride>, gathered: seq<RouteConfig>,
    table: seq<RouteConfig>, regrouped: seq<RouteConfig>, k: nat)
    requires Agreeing(overrides) && AfterCycle(names, overrides, gathered, table, regrouped)
    requires k < |overrides| && Complete(overrides[k])
    requires var key := Key(NewRoute(overrides[k]));
      key !in Keys(PatchAll(overrides, gathered)) && key !in Keys(regrouped)
    ensures overrides[k].grpcMethod !in GrpcMethods(gathered)
    ensures overrides[k].grpcMethod !in GrpcMethods(regrouped)
  {
    if overrides[k].grpcMethod in GrpcMethods(gathered) {
      PatchedHasKey(overrides, gathered, k);
      assert false;
    }
    if overrides[k].grpcMethod in GrpcMethods(regrouped) {
      var i :| 0 <= i < |regrouped| && regrouped[i].grpcMethod == overrides[k].grpcMethod;
      var x := regrouped[i];
      assert x in table;
      DedupIsLookup(Overridden(gathered, overrides), x);
      LookupFinds(Overridden(gathered, overrides), Key(x));
      AddedHasKey(overrides, gathered, k, x);
      assert false;
    }
  }

  /** Key by key, overriding the regrouped routes gives what the table held. */
  lemma FailingCycleKeepsLookup(names: seq<string>, overrides: seq<RouteOverride>, gathered: seq<RouteConfig>,
    table: seq<RouteConfig>, regrouped: seq<RouteConfig>, key: string)
    requires Agreeing(overrides) && AfterCycle(names, overrides, gathered, table, regrouped)
    requires PatchAll(overrides, regrouped) == regrouped
    ensures Lookup(Overridden(regrouped, overrides), key) == Lookup(table, key)
  {
    var patched := PatchAll(overrides, gathered);
    var before, after := GrpcMethods(gathered), GrpcMethods(regrouped);
    DedupKeepsKeys(Overridden(gathered, overrides));
    DedupLookup(Overridden(gathered, overrides), key);
    LookupConcat(patched, Added(overrides, before), key);
    LookupConcat(regrouped, Added(overrides, after), key);
    LookupRegrouped(names, table, regrouped, key);
    LookupFinds(patched, key);
    LookupFinds(regrouped, key);
    if Lookup(regrouped, key).None? {
      assert Lookup(patched, key).None? by {
        PatchKeepsMethods(overrides, gathered);
      }
      forall k | 0 <= k < |overrides| && Complete(overrides[k]) && Key(NewRoute(overrides[k])) == key
        ensures overrides[k].grpcMethod in before <==> overrides[k].grpcMethod in after
      {
        AddedOnBothSides(names, overrides, gathered, table, regrouped, k);
      }
      AddedLookupSame(overrides, before, after, key);
    }
  }
}
