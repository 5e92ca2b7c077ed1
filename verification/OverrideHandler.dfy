/** Manual route overrides (discovery/override_handler.rs). */
module OverrideHandler {
  import opened Wrappers
  import opened Routes

  /** The override a gRPC method is looked up to: the last one configured for it. */
  function OverrideFor(overrides: seq<RouteOverride>, grpcMethod: string): Option<RouteOverride> {
    if overrides == [] then None
    else
      var n := |overrides| - 1;
      if overrides[n].grpcMethod == grpcMethod then Some(overrides[n]) else OverrideFor(overrides[..n], grpcMethod)
  }

  /** A route with its override's path and verb, where the override gives them. */
  function Patch(overrides: seq<RouteOverride>, r: RouteConfig): RouteConfig {
    match OverrideFor(overrides, r.grpcMethod)
    case None => r
    case Some(o) => RouteConfig(
      if o.httpPath.Some? then o.httpPath.value else r.path,
      if o.httpMethod.Some? then o.httpMethod.value else r.httpMethod,
      r.service,
      r.grpcMethod)
  }

  function PatchAll(overrides: seq<RouteOverride>, routes: seq<RouteConfig>): (patched: seq<RouteConfig>)
    ensures |patched| == |routes|
    ensures forall i :: 0 <= i < |routes| ==> patched[i] == Patch(overrides, routes[i])
  {
    seq(|routes|, i requires 0 <= i < |routes| => Patch(overrides, routes[i]))
  }

  /** An override that can become a route on its own. */
  predicate Complete(o: RouteOverride) {
    o.httpPath.Some? && o.httpMethod.Some? && o.service.Some?
  }

  function NewRoute(o: RouteOverride): RouteConfig
    requires Complete(o)
  {
    RouteConfig(o.httpPath.value, o.httpMethod.value, o.service.value, o.grpcMethod)
  }

  /** The routes added for complete overrides whose method is not among the discovered ones. */
  function Added(overrides: seq<RouteOverride>, discovered: set<string>): seq<RouteConfig> {
    if overrides == [] then []
    else
      var n := |overrides| - 1;
      var o := overrides[n];
      Added(overrides[..n], discovered) + (if o.grpcMethod !in discovered && Complete(o) then [NewRoute(o)] else [])
  }

  function Overridden(discovered: seq<RouteConfig>, overrides: seq<RouteOverride>): seq<RouteConfig> {
    PatchAll(overrides, discovered) + Added(overrides, GrpcMethods(discovered))
  }

  method ApplyOverrides(discovered: seq<RouteConfig>, overrides: seq<RouteOverride>) returns (result: seq<RouteConfig>)
    ensures result == Overridden(discovered, overrides)
  {
    if overrides == [] {
      assert PatchAll(overrides, discovered) == discovered;
      return discovered;
    }
    var overrideMap := BuildOverrideMap(overrides);
    var applied: set<string> := {};
    result := [];
    for i := 0 to |discovered|
      invariant result == PatchAll(overrides, discovered)[..i]
      invariant forall m :: m in applied <==> m in overrideMap && exists k :: 0 <= k < i && discovered[k].grpcMethod == m
    {
      var route := discovered[i];
      ghost var before := applied;
      if route.grpcMethod in overrideMap {
        var o := overrideMap[route.grpcMethod];
        applied := applied + {route.grpcMethod};
        result := result + [RouteConfig(
          if o.httpPath.Some? then o.httpPath.value else route.path,
          if o.httpMethod.Some? then o.httpMethod.value else route.httpMethod,
          route.service,
          route.grpcMethod)];
      } else {
        result := result + [route];
      }
      forall m ensures m in applied <==> m in overrideMap && exists k :: 0 <= k < i + 1 && discovered[k].grpcMethod == m {
        if m in before {
          var k :| 0 <= k < i && discovered[k].grpcMethod == m;
        }
        if m == route.grpcMethod {
          assert discovered[i].grpcMethod == m;
        }
      }
    }
    assert result == PatchAll(overrides, discovered);
    for i := 0 to |overrides|
      invariant result == PatchAll(overrides, discovered) + Added(overrides[..i], GrpcMethods(discovered))
    {
      var o := overrides[i];
      assert overrides[..i + 1][..i] == overrides[..i];
      assert o.grpcMethod in overrideMap by { OverrideForPresent(overrides, i); }
      assert o.grpcMethod in applied <==> o.grpcMethod in GrpcMethods(discovered);
      if o.grpcMethod !in applied {
        if Complete(o) {
          result := result + [NewRoute(o)];
        }
      }
    }
    assert overrides[..|overrides|] == overrides;
  }

  /** The source collects overrides into a map, later entries replacing earlier ones. */
  method BuildOverrideMap(overrides: seq<RouteOverride>) returns (overrideMap: map<string, RouteOverride>)
    ensures forall m :: m in overrideMap <==> OverrideFor(overrides, m).Some?
    ensures forall m :: m in overrideMap ==> OverrideFor(overrides, m) == Some(overrideMap[m])
  {
    overrideMap := map[];
    for i := 0 to |overrides|
      invariant forall m :: m in overrideMap <==> OverrideFor(overrides[..i], m).Some?
      invariant forall m :: m in overrideMap ==> OverrideFor(overrides[..i], m) == Some(overrideMap[m])
    {
      assert overrides[..i + 1][..i] == overrides[..i];
      overrideMap := overrideMap[overrides[i].grpcMethod := overrides[i]];
    }
    assert overrides[..|overrides|] == overrides;
  }

  lemma {:induction false} OverrideForPresent(overrides: seq<RouteOverride>, i: nat)
    requires i < |overrides|
    ensures OverrideFor(overrides, overrides[i].grpcMethod).Some?
  {
    var n := |overrides| - 1;
    if i == n {
    } else {
      OverrideForPresent(overrides[..n], i);
    }
  }

  lemma {:induction false} OverrideForMember(overrides: seq<RouteOverride>, m: string)
    requires OverrideFor(overrides, m).Some?
    ensures OverrideFor(overrides, m).value in overrides && OverrideFor(overrides, m).value.grpcMethod == m
  {
    var n := |overrides| - 1;
    if overrides[n].grpcMethod == m {
    } else {
      OverrideForMember(overrides[..n], m);
    }
  }

  // ---------- conditions on the configured overrides ----------

  predicate DistinctMethods(overrides: seq<RouteOverride>) {
    forall i, j :: 0 <= i < j < |overrides| ==> overrides[i].grpcMethod != overrides[j].grpcMethod
  }

  /** No complete override is changed by the override its method is looked up to. */
  predicate Settled(overrides: seq<RouteOverride>) {
    forall i :: 0 <= i < |overrides| && Complete(overrides[i]) ==>
      Patch(overrides, NewRoute(overrides[i])) == NewRoute(overrides[i])
  }

  /** Every complete override has the path and verb of the override its method is looked up to. */
  predicate Agreeing(overrides: seq<RouteOverride>) {
    forall i :: 0 <= i < |overrides| && Complete(overrides[i]) ==>
      var last := OverrideFor(overrides, overrides[i].grpcMethod);
      last.Some? && last.value.httpPath == overrides[i].httpPath && last.value.httpMethod == overrides[i].httpMethod
  }

  lemma {:induction false} OverrideForDistinct(overrides: seq<RouteOverride>, i: nat)
    requires DistinctMethods(overrides) && i < |overrides|
    ensures OverrideFor(overrides, overrides[i].grpcMethod) == Some(overrides[i])
  {
    var n := |overrides| - 1;
    if i == n {
    } else {
      OverrideForDistinct(overrides[..n], i);
    }
  }

  /** Distinct methods are enough for agreement, and agreement for being settled. */
  lemma DistinctAgreeSettle(overrides: seq<RouteOverride>)
    ensures DistinctMethods(overrides) ==> Agreeing(overrides)
    ensures Agreeing(overrides) ==> Settled(overrides)
  {
    if DistinctMethods(overrides) {
      forall i | 0 <= i < |overrides| && Complete(overrides[i])
        ensures OverrideFor(overrides, overrides[i].grpcMethod) == Some(overrides[i])
      {
        OverrideForDistinct(overrides, i);
      }
    }
  }

  // ---------- what overriding keeps ----------

  lemma PatchIdempotent(overrides: seq<RouteOverride>, r: RouteConfig)
    ensures Patch(overrides, Patch(overrides, r)) == Patch(overrides, r)
  {
  }

  /** An added route comes from a complete override whose method was not discovered, and each such override adds one. */
  lemma {:induction false} AddedMembers(overrides: seq<RouteOverride>, discovered: set<string>)
    ensures forall r :: r in Added(overrides, discovered) <==> exists k :: 0 <= k < |overrides| && AddedFrom(overrides[k], discovered, r)
  {
    if overrides == [] {
    } else {
      var n := |overrides| - 1;
      AddedMembers(overrides[..n], discovered);
      forall r ensures r in Added(overrides, discovered) <==> exists k :: 0 <= k < |overrides| && AddedFrom(overrides[k], discovered, r) {
        if r in Added(overrides[..n], discovered) {
          var k :| 0 <= k < n && AddedFrom(overrides[..n][k], discovered, r);
          assert AddedFrom(overrides[k], discovered, r);
        }
        if k :| 0 <= k < |overrides| && AddedFrom(overrides[k], discovered, r) {
          if k < n {
            assert AddedFrom(overrides[..n][k], discovered, r);
          }
        }
        if r in Added(overrides, discovered) && r !in Added(overrides[..n], discovered) {
          assert AddedFrom(overrides[n], discovered, r);
        }
      }
    }
  }

  predicate AddedFrom(o: RouteOverride, discovered: set<string>, r: RouteConfig) {
    Complete(o) && o.grpcMethod !in discovered && r == NewRoute(o)
  }

  /** Under settled overrides no route of an overridden table is changed by overriding again. */
  lemma OverriddenIsPatched(discovered: seq<RouteConfig>, overrides: seq<RouteOverride>)
    requires Settled(overrides)
    ensures forall r :: r in Overridden(discovered, overrides) ==> Patch(overrides, r) == r
  {
    forall r | r in Overridden(discovered, overrides) ensures Patch(overrides, r) == r {
      if r in PatchAll(overrides, discovered) {
        var i :| 0 <= i < |discovered| && PatchAll(overrides, discovered)[i] == r;
        PatchIdempotent(overrides, discovered[i]);
      } else {
        AddedMembers(overrides, GrpcMethods(discovered));
        var k :| 0 <= k < |overrides| && AddedFrom(overrides[k], GrpcMethods(discovered), r);
      }
    }
  }

  /** Nothing is added when every complete override's method is present. */
  lemma {:induction false} NothingAdded(overrides: seq<RouteOverride>, discovered: set<string>)
    requires forall k :: 0 <= k < |overrides| && Complete(overrides[k]) ==> overrides[k].grpcMethod in discovered
    ensures Added(overrides, discovered) == []
  {
    if overrides == [] {
    } else {
      NothingAdded(overrides[..|overrides| - 1], discovered);
    }
  }

  lemma CompleteArePresent(discovered: seq<RouteConfig>, overrides: seq<RouteOverride>)
    ensures forall k :: 0 <= k < |overrides| && Complete(overrides[k]) ==>
      overrides[k].grpcMethod in GrpcMethods(Overridden(discovered, overrides))
  {
    var all := Overridden(discovered, overrides);
    AddedMembers(overrides, GrpcMethods(discovered));
    forall k | 0 <= k < |overrides| && Complete(overrides[k]) ensures overrides[k].grpcMethod in GrpcMethods(all) {
      var m := overrides[k].grpcMethod;
      if m in GrpcMethods(discovered) {
        var i :| 0 <= i < |discovered| && discovered[i].grpcMethod == m;
        assert all[i].grpcMethod == m;
      } else {
        assert AddedFrom(overrides[k], GrpcMethods(discovered), NewRoute(overrides[k]));
        var added := Added(overrides, GrpcMethods(discovered));
        assert NewRoute(overrides[k]) in added;
        var i :| 0 <= i < |added| && added[i] == NewRoute(overrides[k]);
        assert all[|discovered| + i].grpcMethod == m;
      }
    }
  }

  lemma SettledIsIdempotent(discovered: seq<RouteConfig>, overrides: seq<RouteOverride>)
    requires Settled(overrides)
    ensures Overridden(Overridden(discovered, overrides), overrides) == Overridden(discovered, overrides)
  {
    var once := Overridden(discovered, overrides);
    OverriddenIsPatched(discovered, overrides);
    CompleteArePresent(discovered, overrides);
    NothingAdded(overrides, GrpcMethods(once));
    assert PatchAll(overrides, once) == once;
  }

  lemma FixedTableIsPatched(table: seq<RouteConfig>, overrides: seq<RouteOverride>)
    requires Overridden(table, overrides) == table
    ensures forall r :: r in table ==> Patch(overrides, r) == r
  {
  }

  lemma UnsettledIsNotIdempotent(overrides: seq<RouteOverride>)
    requires !Settled(overrides)
    ensures Overridden(Overridden([], overrides), overrides) != Overridden([], overrides)
  {
    var i :| 0 <= i < |overrides| && Complete(overrides[i]) && Patch(overrides, NewRoute(overrides[i])) != NewRoute(overrides[i]);
    var once := Overridden([], overrides);
    AddedMembers(overrides, GrpcMethods([]));
    assert AddedFrom(overrides[i], GrpcMethods([]), NewRoute(overrides[i]));
    assert NewRoute(overrides[i]) in once;
    if Overridden(once, overrides) == once {
      FixedTableIsPatched(once, overrides);
      assert false;
    }
  }

  /** Overriding twice is overriding once, for every list of discovered routes, exactly
      when the configured overrides are settled. */
  lemma OverridingIdempotentIffSettled(overrides: seq<RouteOverride>)
    ensures (forall discovered :: Overridden(Overridden(discovered, overrides), overrides) == Overridden(discovered, overrides))
      <==> Settled(overrides)
  {
    if Settled(overrides) {
      forall discovered ensures Overridden(Overridden(discovered, overrides), overrides) == Overridden(discovered, overrides) {
        SettledIsIdempotent(discovered, overrides);
      }
    } else {
      UnsettledIsNotIdempotent(overrides);
    }
  }

  /** Discovered routes keep their places, services and methods; added ones follow. */
  lemma OverridingKeepsDiscovered(discovered: seq<RouteConfig>, overrides: seq<RouteOverride>)
    ensures |Overridden(discovered, overrides)| >= |discovered|
    ensures forall i :: 0 <= i < |discovered| ==>
      Overridden(discovered, overrides)[i].service == discovered[i].service &&
      Overridden(discovered, overrides)[i].grpcMethod == discovered[i].grpcMethod
    ensures forall i :: |discovered| <= i < |Overridden(discovered, overrides)| ==>
      Overridden(discovered, overrides)[i].grpcMethod !in GrpcMethods(discovered)
  {
    var all := Overridden(discovered, overrides);
    AddedMembers(overrides, GrpcMethods(discovered));
    forall i | |discovered| <= i < |all| ensures all[i].grpcMethod !in GrpcMethods(discovered) {
      assert all[i] in Added(overrides, GrpcMethods(discovered));
    }
  }

  lemma {:induction false} OverrideForLast(overrides: seq<RouteOverride>, k: nat)
    requires k < |overrides|
    requires forall j :: k < j < |overrides| ==> overrides[j].grpcMethod != overrides[k].grpcMethod
    ensures OverrideFor(overrides, overrides[k].grpcMethod) == Some(overrides[k])
  {
    var n := |overrides| - 1;
    if k == n {
    } else {
      OverrideForLast(overrides[..n], k);
    }
  }

  /** Field by field: the last override of a route's method sets the path if it gives one and the
      verb if it gives one, and nothing else. */
  lemma OverriddenFields(discovered: seq<RouteConfig>, overrides: seq<RouteOverride>, i: nat, k: nat)
    requires i < |discovered| && k < |overrides| && overrides[k].grpcMethod == discovered[i].grpcMethod
    requires forall j :: k < j < |overrides| ==> overrides[j].grpcMethod != discovered[i].grpcMethod
    ensures i < |Overridden(discovered, overrides)|
    ensures var (r, o, after) := (discovered[i], overrides[k], Overridden(discovered, overrides)[i]);
      && after.service == r.service && after.grpcMethod == r.grpcMethod
      && (o.httpPath.Some? ==> after.path == o.httpPath.value) && (o.httpPath.None? ==> after.path == r.path)
      && (o.httpMethod.Some? ==> after.httpMethod == o.httpMethod.value) && (o.httpMethod.None? ==> after.httpMethod == r.httpMethod)
  {
    OverrideForLast(overrides, k);
  }

  lemma {:induction false} NoOverrideFor(overrides: seq<RouteOverride>, m: string)
    requires forall k :: 0 <= k < |overrides| ==> overrides[k].grpcMethod != m
    ensures OverrideFor(overrides, m).None?
  {
    if overrides == [] {
    } else {
      NoOverrideFor(overrides[..|overrides| - 1], m);
    }
  }

  /** A route whose method no override names stays as it is. */
  lemma UnnamedStays(discovered: seq<RouteConfig>, overrides: seq<RouteOverride>, i: nat)
    requires i < |discovered|
    requires forall k :: 0 <= k < |overrides| ==> overrides[k].grpcMethod != discovered[i].grpcMethod
    ensures i < |Overridden(discovered, overrides)| && Overridden(discovered, overrides)[i] == discovered[i]
  {
    NoOverrideFor(overrides, discovered[i].grpcMethod);
  }
}
