/** The two-tier router (router/mod.rs, RequestRouter). */
module RequestRouter {
  import opened Wrappers
  import opened Text
  import opened Routes
  import opened RoutePatterns

  datatype RouteKey = RouteKey(path: string, httpMethod: string)

  datatype RoutingDecision = RoutingDecision(service: string, grpcMethod: string, pathParams: map<string, string>)

  datatype RouterError = RouteNotFound(path: string, httpMethod: string)

  function PatternOf(r: RouteConfig): RoutePattern {
    Parse(r.path, r.httpMethod)
  }

  // ---------- the three tables, as functions of a route list ----------

  function StaticTable(routes: seq<RouteConfig>): map<RouteKey, RouteConfig> {
    if routes == [] then map[]
    else
      var n := |routes| - 1;
      var r := routes[n];
      if PatternOf(r).IsStatic() then StaticTable(routes[..n])[RouteKey(r.path, r.httpMethod) := r]
      else StaticTable(routes[..n])
  }

  /** What a route adds to the dynamic table. */
  function DynamicEntry(r: RouteConfig): seq<(RoutePattern, RouteConfig)> {
    if PatternOf(r).IsStatic() then [] else [(PatternOf(r), r)]
  }

  function DynamicTable(routes: seq<RouteConfig>): seq<(RoutePattern, RouteConfig)> {
    if routes == [] then [] else DynamicTable(routes[..|routes| - 1]) + DynamicEntry(routes[|routes| - 1])
  }

  /** Each service that has a route is mapped to all its routes, in order. */
  ghost predicate IsServiceTable(table: map<string, seq<RouteConfig>>, routes: seq<RouteConfig>) {
    && (forall s :: s in table <==> ForService(routes, s) != [])
    && (forall s :: s in table ==> table[s] == ForService(routes, s))
  }

  // ---------- routing as a linear scan of a route list ----------

  predicate StaticHit(r: RouteConfig, path: string, httpMethod: string) {
    PatternOf(r).IsStatic() && r.path == path && r.httpMethod == Upper(httpMethod)
  }

  /** The last static route with exactly this path whose verb, as written, is the upper-cased one. */
  function LastStatic(routes: seq<RouteConfig>, path: string, httpMethod: string): Option<RouteConfig> {
    if routes == [] then None
    else
      var n := |routes| - 1;
      if StaticHit(routes[n], path, httpMethod) then Some(routes[n]) else LastStatic(routes[..n], path, httpMethod)
  }

  predicate DynamicHit(r: RouteConfig, path: string, httpMethod: string) {
    !PatternOf(r).IsStatic() && Upper(r.httpMethod) == Upper(httpMethod) && Match(PatternOf(r).segments, path).Some?
  }

  /** The first dynamic route that matches. */
  function FirstDynamic(routes: seq<RouteConfig>, path: string, httpMethod: string): Option<RouteConfig> {
    if routes == [] then None
    else if DynamicHit(routes[0], path, httpMethod) then Some(routes[0])
    else FirstDynamic(routes[1..], path, httpMethod)
  }

  lemma {:induction false} FirstDynamicHits(routes: seq<RouteConfig>, path: string, httpMethod: string)
    ensures var first := FirstDynamic(routes, path, httpMethod);
      (first.Some? ==> first.value in routes && DynamicHit(first.value, path, httpMethod)) &&
      (first.None? ==> forall r :: r in routes ==> !DynamicHit(r, path, httpMethod))
  {
    if routes == [] || DynamicHit(routes[0], path, httpMethod) {
    } else {
      FirstDynamicHits(routes[1..], path, httpMethod);
      assert routes == [routes[0]] + routes[1..];
    }
  }

  lemma {:induction false} LastStaticHits(routes: seq<RouteConfig>, path: string, httpMethod: string)
    ensures var last := LastStatic(routes, path, httpMethod);
      (last.Some? ==> last.value in routes && StaticHit(last.value, path, httpMethod)) &&
      (last.None? ==> forall r :: r in routes ==> !StaticHit(r, path, httpMethod))
  {
    if routes == [] || StaticHit(routes[|routes| - 1], path, httpMethod) {
    } else {
      var n := |routes| - 1;
      LastStaticHits(routes[..n], path, httpMethod);
      assert routes == routes[..n] + [routes[n]];
    }
  }

  function LinearRoute(routes: seq<RouteConfig>, path: string, httpMethod: string): Result<RoutingDecision, RouterError> {
    var last := LastStatic(routes, path, httpMethod);
    if last.Some? then Success(RoutingDecision(last.value.service, last.value.grpcMethod, map[]))
    else
      var first := FirstDynamic(routes, path, httpMethod);
      if first.None? then Failure(RouteNotFound(path, httpMethod))
      else
        assert DynamicHit(first.value, path, httpMethod) by { FirstDynamicHits(routes, path, httpMethod); }
        Success(RoutingDecision(first.value.service, first.value.grpcMethod, Match(PatternOf(first.value).segments, path).value))
  }

  lemma TablesSnoc(routes: seq<RouteConfig>, r: RouteConfig)
    ensures DynamicTable(routes + [r]) == DynamicTable(routes) + DynamicEntry(r)
    ensures StaticTable(routes + [r]) ==
      if PatternOf(r).IsStatic() then StaticTable(routes)[RouteKey(r.path, r.httpMethod) := r] else StaticTable(routes)
  {
    assert (routes + [r])[..|routes|] == routes;
  }

  lemma ServiceTableSnoc(table: map<string, seq<RouteConfig>>, routes: seq<RouteConfig>, r: RouteConfig)
    requires IsServiceTable(table, routes)
    ensures IsServiceTable(table[r.service := (if r.service in table then table[r.service] else []) + [r]], routes + [r])
  {
    assert (routes + [r])[..|routes|] == routes;
  }

  class RequestRouter {
    var routes: map<RouteKey, RouteConfig>
    var dynamicRoutes: seq<(RoutePattern, RouteConfig)>
    var serviceRouteMap: map<string, seq<RouteConfig>>
    /** The route list the tables were last built from. */
    ghost var table: seq<RouteConfig>

    ghost predicate Valid()
      reads this
    {
      && routes == StaticTable(table)
      && dynamicRoutes == DynamicTable(table)
      && IsServiceTable(serviceRouteMap, table)
    }

    constructor (initial: seq<RouteConfig>)
      ensures Valid() && table == initial
    {
      routes, dynamicRoutes, serviceRouteMap, table := map[], [], map[], [];
      new;
      UpdateRoutes(initial);
    }

    method UpdateRoutes(newRoutes: seq<RouteConfig>)
      modifies this
      ensures Valid() && table == newRoutes
    {
      routes, dynamicRoutes, serviceRouteMap := map[], [], map[];
      for i := 0 to |newRoutes|
        invariant IsServiceTable(serviceRouteMap, newRoutes[..i])
        invariant routes == map[] && dynamicRoutes == []
      {
        var route := newRoutes[i];
        assert newRoutes[..i + 1] == newRoutes[..i] + [route];
        ServiceTableSnoc(serviceRouteMap, newRoutes[..i], route);
        var own := if route.service in serviceRouteMap then serviceRouteMap[route.service] else [];
        serviceRouteMap := serviceRouteMap[route.service := own + [route]];
      }
      for i := 0 to |newRoutes|
        invariant routes == StaticTable(newRoutes[..i])
        invariant dynamicRoutes == DynamicTable(newRoutes[..i])
        invariant IsServiceTable(serviceRouteMap, newRoutes[..|newRoutes|])
      {
        var route := newRoutes[i];
        assert newRoutes[..i + 1] == newRoutes[..i] + [route];
        TablesSnoc(newRoutes[..i], route);
        var pattern := Parse(route.path, route.httpMethod);
        if pattern.IsStatic() {
          routes := routes[RouteKey(route.path, route.httpMethod) := route];
        } else {
          dynamicRoutes := dynamicRoutes + [(pattern, route)];
        }
      }
      assert newRoutes[..|newRoutes|] == newRoutes;
      table := newRoutes;
    }

    method GetRoutesForService(service: string) returns (own: seq<RouteConfig>)
      requires Valid()
      ensures own == ForService(table, service)
    {
      own := if service in serviceRouteMap then serviceRouteMap[service] else [];
    }

    method RouteCount() returns (count: nat)
      requires Valid()
      ensures count == |StaticTable(table)| + |DynamicTable(table)|
    {
      count := |routes| + |dynamicRoutes|;
    }

    method Route(path: string, httpMethod: string) returns (decision: Result<RoutingDecision, RouterError>)
      requires Valid()
      ensures decision == LinearRoute(table, path, httpMethod)
    {
      var key := RouteKey(path, Upper(httpMethod));
      StaticTableIsLastStatic(table, path, httpMethod);
      if key in routes {
        return Success(RoutingDecision(routes[key].service, routes[key].grpcMethod, map[]));
      }
      ScanTable(table, path, httpMethod);
      for i := 0 to |dynamicRoutes|
        invariant Scan(dynamicRoutes, path, httpMethod) == Scan(dynamicRoutes[i..], path, httpMethod)
      {
        var (pattern, route) := dynamicRoutes[i];
        assert dynamicRoutes[i..][0] == dynamicRoutes[i] && dynamicRoutes[i..][1..] == dynamicRoutes[i + 1..];
        if Upper(pattern.httpMethod) != Upper(httpMethod) {
          continue;
        }
        var params := pattern.Matches(path);
        if params.Some? {
          return Success(RoutingDecision(route.service, route.grpcMethod, params.value));
        }
      }
      return Failure(RouteNotFound(path, httpMethod));
    }
  }

  // ---------- the tables against the scan ----------

  lemma {:induction false} StaticTableIsLastStatic(routes: seq<RouteConfig>, path: string, httpMethod: string)
    ensures var key := RouteKey(path, Upper(httpMethod));
      LastStatic(routes, path, httpMethod) ==
      if key in StaticTable(routes) then Some(StaticTable(routes)[key]) else None
  {
    if routes == [] {
    } else {
      StaticTableIsLastStatic(routes[..|routes| - 1], path, httpMethod);
    }
  }

  lemma Associative<T>(a: seq<T>, b: seq<T>, c: seq<T>)
    ensures (a + b) + c == a + (b + c)
  {
  }

  lemma {:induction false} DynamicTableConcat(a: seq<RouteConfig>, b: seq<RouteConfig>)
    ensures DynamicTable(a + b) == DynamicTable(a) + DynamicTable(b)
  {
    if b == [] {
      assert a + b == a;
    } else {
      var (front, r) := (b[..|b| - 1], b[|b| - 1]);
      assert b == front + [r] && a + b == (a + front) + [r];
      DynamicTableConcat(a, front);
      TablesSnoc(a + front, r);
      Associative(DynamicTable(a), DynamicTable(front), DynamicEntry(r));
    }
  }

  lemma DynamicTableOne(r: RouteConfig)
    ensures DynamicTable([r]) == DynamicEntry(r)
  {
    assert [r][..0] == [];
  }

  lemma DynamicTableCons(r: RouteConfig, rest: seq<RouteConfig>)
    ensures DynamicTable([r] + rest) == DynamicEntry(r) + DynamicTable(rest)
  {
    DynamicTableConcat([r], rest);
    DynamicTableOne(r);
  }

  /** The scan of the dynamic table: the first entry whose verb and pattern match. */
  function Scan(entries: seq<(RoutePattern, RouteConfig)>, path: string, httpMethod: string): Option<RoutingDecision> {
    if entries == [] then None
    else
      var (pattern, route) := entries[0];
      var params := Match(pattern.segments, path);
      if Upper(pattern.httpMethod) == Upper(httpMethod) && params.Some?
      then Some(RoutingDecision(route.service, route.grpcMethod, params.value))
      else Scan(entries[1..], path, httpMethod)
  }

  lemma ScanTable(routes: seq<RouteConfig>, path: string, httpMethod: string)
    ensures LastStatic(routes, path, httpMethod).None? ==>
      LinearRoute(routes, path, httpMethod) ==
        var decision := Scan(DynamicTable(routes), path, httpMethod);
        if decision.Some? then Success(decision.value) else Failure(RouteNotFound(path, httpMethod))
  {
    ScanIsFirst(routes, path, httpMethod);
    FirstDynamicHits(routes, path, httpMethod);
  }

  lemma {:induction false} ScanIsFirst(routes: seq<RouteConfig>, path: string, httpMethod: string)
    ensures var first := FirstDynamic(routes, path, httpMethod);
      Scan(DynamicTable(routes), path, httpMethod) ==
        if first.None? then None
        else
          var params := Match(PatternOf(first.value).segments, path);
          if params.None? then None else Some(RoutingDecision(first.value.service, first.value.grpcMethod, params.value))
  {
    if routes == [] {
    } else {
      assert routes == [routes[0]] + routes[1..];
      DynamicTableCons(routes[0], routes[1..]);
      ScanIsFirst(routes[1..], path, httpMethod);
      UpperIdempotent(routes[0].httpMethod);
      var table := DynamicTable(routes);
      if PatternOf(routes[0]).IsStatic() {
        assert table == DynamicTable(routes[1..]);
      } else {
        assert table[0] == (PatternOf(routes[0]), routes[0]) && table[1..] == DynamicTable(routes[1..]);
      }
    }
  }

  // ---------- what the router loses ----------

  /** The key under which a route is stored, if it is static. */
  function StaticKey(r: RouteConfig): Option<RouteKey> {
    if PatternOf(r).IsStatic() then Some(RouteKey(r.path, r.httpMethod)) else None
  }

  function StaticKeys(routes: seq<RouteConfig>): (keys: seq<Option<RouteKey>>)
    ensures |keys| == |routes| && forall i :: 0 <= i < |routes| ==> keys[i] == StaticKey(routes[i])
  {
    seq(|routes|, i requires 0 <= i < |routes| => StaticKey(routes[i]))
  }

  predicate DistinctSome<T(==)>(keys: seq<Option<T>>) {
    forall i, j :: 0 <= i < j < |keys| && keys[i].Some? ==> keys[i] != keys[j]
  }

  /** Static routes at different places differ in path or verb. */
  predicate DistinctStatics(routes: seq<RouteConfig>) {
    DistinctSome(StaticKeys(routes))
  }

  lemma DistinctSomeSnoc<T>(keys: seq<Option<T>>, last: Option<T>)
    ensures DistinctSome(keys + [last]) <==> DistinctSome(keys) && (last.Some? ==> last !in keys)
  {
    var all := keys + [last];
    if DistinctSome(all) {
      assert forall i, j :: 0 <= i < j < |keys| ==> all[i] == keys[i] && all[j] == keys[j];
      assert forall i :: 0 <= i < |keys| ==> all[i] == keys[i] && all[|keys|] == last;
    }
  }

  lemma StaticKeysSnoc(routes: seq<RouteConfig>, r: RouteConfig)
    ensures StaticKeys(routes + [r]) == StaticKeys(routes) + [StaticKey(r)]
  {
  }

  lemma {:induction false} StaticTableHas(routes: seq<RouteConfig>, key: RouteKey)
    ensures key in StaticTable(routes) <==> Some(key) in StaticKeys(routes)
  {
    if routes == [] {
    } else {
      var (front, r) := (routes[..|routes| - 1], routes[|routes| - 1]);
      assert routes == front + [r];
      StaticTableHas(front, key);
      StaticKeysSnoc(front, r);
      TablesSnoc(front, r);
    }
  }

  lemma DistinctStaticsSnoc(routes: seq<RouteConfig>, r: RouteConfig)
    ensures DistinctStatics(routes + [r]) <==>
      (DistinctStatics(routes) && (StaticKey(r).Some? ==> StaticKey(r).value !in StaticTable(routes)))
  {
    StaticKeysSnoc(routes, r);
    DistinctSomeSnoc(StaticKeys(routes), StaticKey(r));
    if StaticKey(r).Some? {
      StaticTableHas(routes, StaticKey(r).value);
    }
  }

  /** The router's count never exceeds the list's length, and equals it exactly when no
      static route repeats another's path and verb. */
  lemma {:induction false} RouteCountExact(routes: seq<RouteConfig>)
    ensures |StaticTable(routes)| + |DynamicTable(routes)| <= |routes|
    ensures |StaticTable(routes)| + |DynamicTable(routes)| == |routes| <==> DistinctStatics(routes)
  {
    if routes == [] {
    } else {
      var (front, r) := (routes[..|routes| - 1], routes[|routes| - 1]);
      assert routes == front + [r];
      RouteCountExact(front);
      DistinctStaticsSnoc(front, r);
      TablesSnoc(front, r);
      if PatternOf(r).IsStatic() {
        MapUpdateSize(StaticTable(front), RouteKey(r.path, r.httpMethod), r);
      }
    }
  }

  lemma MapUpdateSize<K, V>(m: map<K, V>, k: K, v: V)
    ensures |m[k := v]| == if k in m then |m| else |m| + 1
  {
  }

  /** On a list without duplicates the router loses no entry. */
  lemma DeduplicatedTableIsComplete(routes: seq<RouteConfig>)
    requires DistinctKeys(routes)
    ensures |StaticTable(routes)| + |DynamicTable(routes)| == |routes|
  {
    forall i, j | 0 <= i < j < |routes| && StaticKey(routes[i]).Some? ensures StaticKey(routes[i]) != StaticKey(routes[j]) {
      assert Key(routes[i]) != Key(routes[j]);
    }
    RouteCountExact(routes);
  }

  // ---------- which route answers, by position ----------

  lemma {:induction false} LastStaticAt(routes: seq<RouteConfig>, i: nat, path: string, httpMethod: string)
    requires i < |routes| && StaticHit(routes[i], path, httpMethod)
    requires forall j :: i < j < |routes| ==> !StaticHit(routes[j], path, httpMethod)
    ensures LastStatic(routes, path, httpMethod) == Some(routes[i])
  {
    var n := |routes| - 1;
    if i == n {
    } else {
      LastStaticAt(routes[..n], i, path, httpMethod);
    }
  }

  predicate NoneBefore(routes: seq<RouteConfig>, i: nat, path: string, httpMethod: string) {
    forall j :: 0 <= j < i && j < |routes| ==> !DynamicHit(routes[j], path, httpMethod)
  }

  lemma NoneBeforeInTail(routes: seq<RouteConfig>, i: nat, path: string, httpMethod: string)
    requires 0 < i < |routes| && NoneBefore(routes, i, path, httpMethod)
    ensures !DynamicHit(routes[0], path, httpMethod) && NoneBefore(routes[1..], i - 1, path, httpMethod)
    ensures FirstDynamic(routes, path, httpMethod) == FirstDynamic(routes[1..], path, httpMethod)
  {
    forall j | 0 <= j < i - 1 ensures !DynamicHit(routes[1..][j], path, httpMethod) {
      assert routes[1..][j] == routes[j + 1];
    }
  }

  lemma {:induction false} FirstDynamicAt(routes: seq<RouteConfig>, i: nat, path: string, httpMethod: string)
    requires i < |routes| && DynamicHit(routes[i], path, httpMethod) && NoneBefore(routes, i, path, httpMethod)
    ensures FirstDynamic(routes, path, httpMethod) == Some(routes[i])
  {
    if i == 0 {
    } else {
      NoneBeforeInTail(routes, i, path, httpMethod);
      assert routes[1..][i - 1] == routes[i];
      FirstDynamicAt(routes[1..], i - 1, path, httpMethod);
    }
  }

  /** A request is answered by the last of the static routes it hits. */
  lemma LastStaticAnswers(routes: seq<RouteConfig>, i: nat, path: string, httpMethod: string)
    requires i < |routes| && StaticHit(routes[i], path, httpMethod)
    requires forall j :: i < j < |routes| ==> !StaticHit(routes[j], path, httpMethod)
    ensures LinearRoute(routes, path, httpMethod) == Success(RoutingDecision(routes[i].service, routes[i].grpcMethod, map[]))
  {
    LastStaticAt(routes, i, path, httpMethod);
  }

  /** If it hits none, by the first of the patterns it hits, with what that pattern binds. */
  lemma FirstDynamicAnswers(routes: seq<RouteConfig>, i: nat, path: string, httpMethod: string)
    requires forall j :: 0 <= j < |routes| ==> !StaticHit(routes[j], path, httpMethod)
    requires i < |routes| && DynamicHit(routes[i], path, httpMethod)
    requires forall j :: 0 <= j < i ==> !DynamicHit(routes[j], path, httpMethod)
    ensures LinearRoute(routes, path, httpMethod)
      == Success(RoutingDecision(routes[i].service, routes[i].grpcMethod, Match(PatternOf(routes[i]).segments, path).value))
  {
    LastStaticHits(routes, path, httpMethod);
    FirstDynamicAt(routes, i, path, httpMethod);
  }

  /** If it hits neither, it is not found, and only then. */
  lemma NotFoundExactly(routes: seq<RouteConfig>, path: string, httpMethod: string)
    ensures LinearRoute(routes, path, httpMethod).Failure? <==>
      forall j :: 0 <= j < |routes| ==> !StaticHit(routes[j], path, httpMethod) && !DynamicHit(routes[j], path, httpMethod)
    ensures LinearRoute(routes, path, httpMethod).Failure? ==>
      LinearRoute(routes, path, httpMethod) == Failure(RouteNotFound(path, httpMethod))
  {
    LastStaticHits(routes, path, httpMethod);
    FirstDynamicHits(routes, path, httpMethod);
    assert forall j :: 0 <= j < |routes| ==> routes[j] in routes;
  }

  lemma HitsIgnoreCase(r: RouteConfig, path: string, httpMethod: string)
    ensures StaticHit(r, path, Upper(httpMethod)) <==> StaticHit(r, path, httpMethod)
    ensures DynamicHit(r, path, Upper(httpMethod)) <==> DynamicHit(r, path, httpMethod)
    ensures DynamicHit(r.(httpMethod := Upper(r.httpMethod)), path, httpMethod) <==> DynamicHit(r, path, httpMethod)
  {
    UpperIdempotent(httpMethod);
    UpperIdempotent(r.httpMethod);
  }

  lemma {:induction false} FirstDynamicIgnoresCase(routes: seq<RouteConfig>, path: string, httpMethod: string)
    ensures FirstDynamic(routes, path, Upper(httpMethod)) == FirstDynamic(routes, path, httpMethod)
  {
    if routes == [] {
    } else {
      HitsIgnoreCase(routes[0], path, httpMethod);
      FirstDynamicIgnoresCase(routes[1..], path, httpMethod);
    }
  }

  lemma {:induction false} LastStaticIgnoresCase(routes: seq<RouteConfig>, path: string, httpMethod: string)
    ensures LastStatic(routes, path, Upper(httpMethod)) == LastStatic(routes, path, httpMethod)
  {
    if routes == [] {
    } else {
      var n := |routes| - 1;
      HitsIgnoreCase(routes[n], path, httpMethod);
      LastStaticIgnoresCase(routes[..n], path, httpMethod);
    }
  }

  /** A request's verb may be written in any case. */
  lemma RequestCaseDoesNotMatter(routes: seq<RouteConfig>, path: string, httpMethod: string)
    ensures LinearRoute(routes, path, Upper(httpMethod)).Success? <==> LinearRoute(routes, path, httpMethod).Success?
    ensures LinearRoute(routes, path, httpMethod).Success? ==>
      LinearRoute(routes, path, Upper(httpMethod)) == LinearRoute(routes, path, httpMethod)
  {
    FirstDynamicIgnoresCase(routes, path, httpMethod);
    LastStaticIgnoresCase(routes, path, httpMethod);
  }

  // ---------- which static routes can answer ----------

  /** Some request is answered by this static route. */
  ghost predicate Reachable(routes: seq<RouteConfig>, r: RouteConfig) {
    exists path, httpMethod :: LastStatic(routes, path, httpMethod) == Some(r)
  }

  /** No later static route has the path and verb of the static route at i. */
  predicate IsLastOfKey(routes: seq<RouteConfig>, i: nat)
    requires i < |routes|
  {
    && PatternOf(routes[i]).IsStatic()
    && forall j :: i < j < |routes| && PatternOf(routes[j]).IsStatic() ==>
      routes[j].path != routes[i].path || routes[j].httpMethod != routes[i].httpMethod
  }

  lemma {:induction false} LastOfKeyAnswers(routes: seq<RouteConfig>, i: nat)
    requires i < |routes| && IsLastOfKey(routes, i) && Upper(routes[i].httpMethod) == routes[i].httpMethod
    ensures LastStatic(routes, routes[i].path, routes[i].httpMethod) == Some(routes[i])
  {
    var n := |routes| - 1;
    if i == n {
    } else {
      LastOfKeyAnswers(routes[..n], i);
    }
  }

  lemma {:induction false} AnswerIsLastOfKey(routes: seq<RouteConfig>, path: string, httpMethod: string) returns (i: nat)
    requires LastStatic(routes, path, httpMethod).Some?
    ensures i < |routes| && Some(routes[i]) == LastStatic(routes, path, httpMethod)
    ensures IsLastOfKey(routes, i) && StaticHit(routes[i], path, httpMethod)
  {
    var n := |routes| - 1;
    if StaticHit(routes[n], path, httpMethod) {
      i := n;
    } else {
      i := AnswerIsLastOfKey(routes[..n], path, httpMethod);
    }
  }

  /** In any list, a static route can answer a request exactly when its verb is upper-case, for
      lookups upper-case the verb, and it stands somewhere after which no static route has its path
      and verb. Then it answers the request for just these. */
  lemma ReachableExactly(routes: seq<RouteConfig>, r: RouteConfig)
    ensures Reachable(routes, r) <==>
      (Upper(r.httpMethod) == r.httpMethod && exists i: nat :: i < |routes| && routes[i] == r && IsLastOfKey(routes, i))
    ensures Reachable(routes, r) ==>
      LinearRoute(routes, r.path, r.httpMethod) == Success(RoutingDecision(r.service, r.grpcMethod, map[]))
  {
    if Reachable(routes, r) {
      var path, httpMethod :| LastStatic(routes, path, httpMethod) == Some(r);
      var i := AnswerIsLastOfKey(routes, path, httpMethod);
      UpperIdempotent(httpMethod);
      LastOfKeyAnswers(routes, i);
    }
    forall i: nat | i < |routes| && routes[i] == r && IsLastOfKey(routes, i) && Upper(r.httpMethod) == r.httpMethod
      ensures Reachable(routes, r)
    {
      LastOfKeyAnswers(routes, i);
    }
  }

  /** On a list without duplicates an installed static route can answer exactly when its verb is upper-case. */
  lemma DeduplicatedReachableExactly(routes: seq<RouteConfig>, r: RouteConfig)
    requires DistinctKeys(routes) && r in routes && PatternOf(r).IsStatic()
    ensures Reachable(routes, r) <==> Upper(r.httpMethod) == r.httpMethod
  {
    ReachableExactly(routes, r);
    var i :| 0 <= i < |routes| && routes[i] == r;
    forall j | i < j < |routes| ensures routes[j].path != r.path || routes[j].httpMethod != r.httpMethod {
      assert Key(routes[i]) != Key(routes[j]);
    }
    assert IsLastOfKey(routes, i);
  }

  /** A static route whose verb is not upper-case answers no request, in whatever list it stands. */
  lemma LowerCaseStaticUnreachable(routes: seq<RouteConfig>, r: RouteConfig, path: string, httpMethod: string)
    requires PatternOf(r).IsStatic() && Upper(r.httpMethod) != r.httpMethod
    ensures LastStatic(routes, path, httpMethod) != Some(r) && FirstDynamic(routes, path, httpMethod) != Some(r)
  {
    ReachableExactly(routes, r);
    FirstDynamicHits(routes, path, httpMethod);
  }
}
