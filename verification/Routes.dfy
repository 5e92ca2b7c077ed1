/** Route configurations and manual overrides, shared by discovery and the router. */
module Routes {
  import opened Wrappers

  datatype RouteConfig = RouteConfig(path: string, httpMethod: string, service: string, grpcMethod: string)

  datatype RouteOverride = RouteOverride(
    grpcMethod: string,
    httpPath: Option<string>,
    httpMethod: Option<string>,
    service: Option<string>)

  datatype DiscoveryError =
    | ReflectionNotSupported(service: string)
    | ConnectionFailed(message: string)
    | QueryFailed(message: string)
    | DuplicateRoute(method1: string, method2: string, httpRoute: string)
    | EmptyService(service: string)

  /** The text under which the validator recognises a route. */
  function Key(r: RouteConfig): string {
    r.httpMethod + " " + r.path
  }

  predicate SpaceFree(s: string) {
    ' ' !in s
  }

  /** Keys tell verbs and paths apart as long as verbs hold no space. */
  lemma KeyInjective(r: RouteConfig, s: RouteConfig)
    requires SpaceFree(r.httpMethod) && SpaceFree(s.httpMethod)
    requires Key(r) == Key(s)
    ensures r.httpMethod == s.httpMethod && r.path == s.path
  {
    var m, n := |r.httpMethod|, |s.httpMethod|;
    KeyShape(r);
    KeyShape(s);
    assert m == n;
    assert r.httpMethod == Key(r)[..m] && s.httpMethod == Key(s)[..n];
    assert r.path == Key(r)[m + 1..] && s.path == Key(s)[n + 1..];
  }

  lemma KeyShape(r: RouteConfig)
    requires SpaceFree(r.httpMethod)
    ensures |Key(r)| > |r.httpMethod| && Key(r)[|r.httpMethod|] == ' '
    ensures forall k :: 0 <= k < |r.httpMethod| ==> Key(r)[k] != ' '
  {
  }

  predicate DistinctKeys(routes: seq<RouteConfig>) {
    forall i, j :: 0 <= i < j < |routes| ==> Key(routes[i]) != Key(routes[j])
  }

  function Keys(routes: seq<RouteConfig>): (keys: set<string>)
    ensures forall i :: 0 <= i < |routes| ==> Key(routes[i]) in keys
  {
    set i | 0 <= i < |routes| :: Key(routes[i])
  }

  function GrpcMethods(routes: seq<RouteConfig>): (methods: set<string>)
    ensures forall i :: 0 <= i < |routes| ==> routes[i].grpcMethod in methods
  {
    set i | 0 <= i < |routes| :: routes[i].grpcMethod
  }

  lemma KeysOfOne(r: RouteConfig)
    ensures Keys([r]) == {Key(r)}
  {
    assert Key([r][0]) in Keys([r]);
  }

  lemma KeysOfConcat(a: seq<RouteConfig>, b: seq<RouteConfig>)
    ensures Keys(a + b) == Keys(a) + Keys(b)
  {
    forall k | k in Keys(a + b) ensures k in Keys(a) + Keys(b) {
      var i :| 0 <= i < |a + b| && Key((a + b)[i]) == k;
      assert (a + b)[i] == if i < |a| then a[i] else b[i - |a|];
    }
    forall k | k in Keys(a) ensures k in Keys(a + b) {
      var i :| 0 <= i < |a| && Key(a[i]) == k;
      assert (a + b)[i] == a[i];
    }
    forall k | k in Keys(b) ensures k in Keys(a + b) {
      var i :| 0 <= i < |b| && Key(b[i]) == k;
      assert (a + b)[|a| + i] == b[i];
    }
  }

  /** The routes of one service, in order. */
  function ForService(routes: seq<RouteConfig>, service: string): seq<RouteConfig> {
    if routes == [] then []
    else
      var n := |routes| - 1;
      var own := ForService(routes[..n], service);
      if routes[n].service == service then own + [routes[n]] else own
  }

  lemma {:induction false} ForServiceMembers(routes: seq<RouteConfig>, service: string)
    ensures forall r :: r in ForService(routes, service) <==> r in routes && r.service == service
  {
    if routes == [] {
    } else {
      var n := |routes| - 1;
      ForServiceMembers(routes[..n], service);
      assert routes == routes[..n] + [routes[n]];
    }
  }

  lemma {:induction false} ForServiceOfConcat(a: seq<RouteConfig>, b: seq<RouteConfig>, service: string)
    ensures ForService(a + b, service) == ForService(a, service) + ForService(b, service)
  {
    if b == [] {
      assert a + b == a;
    } else {
      var n := |b| - 1;
      ForServiceOfConcat(a, b[..n], service);
      assert (a + b)[..|a| + n] == a + b[..n];
    }
  }

  lemma {:induction false} ForServiceAll(routes: seq<RouteConfig>, service: string)
    requires forall r :: r in routes ==> r.service == service
    ensures ForService(routes, service) == routes
  {
    if routes == [] {
    } else {
      var n := |routes| - 1;
      ForServiceAll(routes[..n], service);
      assert routes[..n] + [routes[n]] == routes;
    }
  }

  lemma {:induction false} ForServiceNone(routes: seq<RouteConfig>, service: string)
    requires forall r :: r in routes ==> r.service != service
    ensures ForService(routes, service) == []
  {
    if routes == [] {
    } else {
      ForServiceNone(routes[..|routes| - 1], service);
    }
  }

  lemma {:induction false} ForServiceDistinct(routes: seq<RouteConfig>, service: string)
    requires DistinctKeys(routes)
    ensures DistinctKeys(ForService(routes, service))
    ensures forall i :: 0 <= i < |ForService(routes, service)| ==> Key(ForService(routes, service)[i]) in Keys(routes)
  {
    if routes == [] {
    } else {
      var n := |routes| - 1;
      ForServiceDistinct(routes[..n], service);
      assert routes == routes[..n] + [routes[n]];
      KeysOfConcat(routes[..n], [routes[n]]);
      assert Key(routes[n]) !in Keys(routes[..n]) by {
        assert forall i :: 0 <= i < n ==> routes[..n][i] == routes[i];
      }
    }
  }
}
