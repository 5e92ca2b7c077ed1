/** Route discovery and the refresh cycle (discovery/service.rs). */
module RouteDiscovery {
  import opened Wrappers
  import opened Routes
  import ConventionMapper
  import OverrideHandler
  import RouteValidator
  import Router = RequestRouter

  datatype Method = Method(name: string, fullName: string)

  /** The reply to a query for one gRPC service's methods. */
  datatype MethodsReply = Methods(methods: seq<Method>) | MethodsFailed

  /** What reflection answers when a backend is queried: an attempt's only input from outside. */
  datatype Attempt =
    | NoChannel
    | ListFailed(unimplemented: bool)
    | Listed(replies: seq<MethodsReply>)

  /** What an attempt means for a refresh cycle. */
  datatype Outcome = Found(routes: seq<RouteConfig>) | Empty | Retain

  // ---------- discovering one service ----------

  /** The route a method is mapped to, if a convention covers its name. */
  function RouteOf(service: string, m: Method): Option<RouteConfig> {
    match ConventionMapper.MapMethod(m.name, m.fullName)
    case None => None
    case Some(mapping) => Some(RouteConfig(mapping.httpPath, mapping.httpMethod, service, mapping.grpcMethod))
  }

  function Mapped(service: string, methods: seq<Method>): (mapped: seq<Option<RouteConfig>>)
    ensures |mapped| == |methods|
    ensures forall i :: 0 <= i < |methods| ==> mapped[i] == RouteOf(service, methods[i])
  {
    seq(|methods|, i requires 0 <= i < |methods| => RouteOf(service, methods[i]))
  }

  function Collected(mapped: seq<Option<RouteConfig>>): seq<RouteConfig> {
    if mapped == [] then []
    else
      var n := |mapped| - 1;
      Collected(mapped[..n]) + (if mapped[n].Some? then [mapped[n].value] else [])
  }

  /** The routes of a service's methods, in order, skipping those no convention covers. */
  function MapMethods(service: string, methods: seq<Method>): seq<RouteConfig> {
    Collected(Mapped(service, methods))
  }

  lemma {:induction false} CollectedMembers(mapped: seq<Option<RouteConfig>>, r: RouteConfig)
    ensures r in Collected(mapped) <==> Some(r) in mapped
  {
    if mapped == [] {
    } else {
      CollectedMembers(mapped[..|mapped| - 1], r);
    }
  }

  /** All methods of the replies up to the first failed one, if none failed. */
  function AllMethods(replies: seq<MethodsReply>): Option<seq<Method>> {
    if replies == [] then Some([])
    else
      var n := |replies| - 1;
      match (AllMethods(replies[..n]), replies[n])
      case (Some(earlier), Methods(methods)) => Some(earlier + methods)
      case _ => None
  }

  function OutcomeOf(service: string, attempt: Attempt): Outcome {
    match attempt
    case NoChannel => Retain
    case ListFailed(_) => Retain
    case Listed(replies) =>
      if replies == [] then Empty
      else match AllMethods(replies)
        case None => Retain
        case Some(methods) =>
          var routes := MapMethods(service, methods);
          if routes == [] then Empty
          else if DistinctKeys(routes) then Found(routes)
          else Retain
  }

  /** How an outcome shows in the result of the source's function. */
  predicate Reports(result: Result<seq<RouteConfig>, DiscoveryError>, outcome: Outcome) {
    match outcome
    case Found(routes) => result == Success(routes)
    case Empty => result.Failure? && result.error.EmptyService?
    case Retain => result.Failure? && !result.error.EmptyService?
  }

  method DiscoverServiceRoutes(service: string, attempt: Attempt)
    returns (result: Result<seq<RouteConfig>, DiscoveryError>)
    ensures Reports(result, OutcomeOf(service, attempt))
  {
    match attempt {
      case NoChannel => return Failure(ConnectionFailed(service));
      case ListFailed(unimplemented) =>
        return Failure(if unimplemented then ReflectionNotSupported(service) else QueryFailed(service));
      case Listed(replies) =>
        if replies == [] {
          return Failure(EmptyService(service));
        }
        var routes: seq<RouteConfig> := [];
        ghost var methods: seq<Method> := [];
        for i := 0 to |replies|
          invariant AllMethods(replies[..i]) == Some(methods)
          invariant routes == MapMethods(service, methods)
        {
          assert replies[..i + 1][..i] == replies[..i];
          if replies[i].MethodsFailed? {
            FailedReplyDecides(replies, i);
            return Failure(QueryFailed(service));
          }
          routes := AddMethods(service, methods, replies[i].methods, routes);
          methods := methods + replies[i].methods;
        }
        assert replies[..|replies|] == replies;
        if routes == [] {
          return Failure(EmptyService(service));
        }
        var checked := RouteValidator.CheckDuplicates(routes);
        if checked.Failure? {
          return Failure(checked.error);
        }
        return Success(routes);
    }
  }

  /** The inner loop over one reply: map each method, skipping those no convention covers. */
  method AddMethods(service: string, ghost earlier: seq<Method>, methods: seq<Method>, before: seq<RouteConfig>)
    returns (routes: seq<RouteConfig>)
    requires before == MapMethods(service, earlier)
    ensures routes == MapMethods(service, earlier + methods)
  {
    routes := before;
    assert earlier + methods[..0] == earlier;
    for i := 0 to |methods|
      invariant routes == MapMethods(service, earlier + methods[..i])
    {
      MapOneMore(service, earlier + methods[..i], methods[i]);
      assert earlier + methods[..i + 1] == earlier + methods[..i] + [methods[i]];
      match ConventionMapper.MapMethod(methods[i].name, methods[i].fullName)
      case None =>
      case Some(m) => routes := routes + [RouteConfig(m.httpPath, m.httpMethod, service, m.grpcMethod)];
    }
    assert methods[..|methods|] == methods;
  }

  lemma MapOneMore(service: string, earlier: seq<Method>, m: Method)
    ensures MapMethods(service, earlier + [m]) ==
      MapMethods(service, earlier) + (if RouteOf(service, m).Some? then [RouteOf(service, m).value] else [])
  {
    assert Mapped(service, earlier + [m])[..|earlier|] == Mapped(service, earlier);
  }

  lemma {:induction false} FailedReplyDecides(replies: seq<MethodsReply>, i: nat)
    requires i < |replies| && replies[i].MethodsFailed?
    ensures AllMethods(replies) == None
  {
    if i == |replies| - 1 {
    } else {
      FailedReplyDecides(replies[..|replies| - 1], i);
    }
  }

  // ---------- one refresh cycle ----------

  datatype ServiceConfig = ServiceConfig(name: string, autoDiscover: bool)

  /** The services a cycle visits, in iteration order. */
  function AutoServices(services: seq<ServiceConfig>): seq<string> {
    if services == [] then []
    else
      var n := |services| - 1;
      AutoServices(services[..n]) + (if services[n].autoDiscover then [services[n].name] else [])
  }

  /** What one service contributes to the next table: its fresh routes, nothing, or its present routes. */
  function Contribution(service: string, attempt: Attempt, table: seq<RouteConfig>): seq<RouteConfig> {
    match OutcomeOf(service, attempt)
    case Found(routes) => routes
    case Empty => []
    case Retain => ForService(table, service)
  }

  function Gathered(names: seq<string>, attempts: string -> Attempt, table: seq<RouteConfig>): seq<RouteConfig> {
    if names == [] then []
    else
      var n := |names| - 1;
      Gathered(names[..n], attempts, table) + Contribution(names[n], attempts(names[n]), table)
  }

  /** The services whose routes a cycle retains. */
  function Failures(names: seq<string>, attempts: string -> Attempt): nat {
    if names == [] then 0
    else
      var n := |names| - 1;
      Failures(names[..n], attempts) + if OutcomeOf(names[n], attempts(names[n])).Retain? then 1 else 0
  }

  /** The routes a cycle retains. */
  function RetainedRoutes(names: seq<string>, attempts: string -> Attempt, table: seq<RouteConfig>): nat {
    if names == [] then 0
    else
      var n := |names| - 1;
      RetainedRoutes(names[..n], attempts, table) +
      if OutcomeOf(names[n], attempts(names[n])).Retain? then |ForService(table, names[n])| else 0
  }

  /** The table a cycle installs. */
  function Refreshed(names: seq<string>, attempts: string -> Attempt, table: seq<RouteConfig>, overrides: seq<RouteOverride>)
    : seq<RouteConfig>
  {
    RouteValidator.Dedup(OverrideHandler.Overridden(Gathered(names, attempts, table), overrides))
  }

  /** The routes of all services that answer; others are skipped. Used at start-up and by the admin refresh. */
  function Discovered(names: seq<string>, attempts: string -> Attempt): seq<RouteConfig> {
    if names == [] then []
    else
      var n := |names| - 1;
      var outcome := OutcomeOf(names[n], attempts(names[n]));
      Discovered(names[..n], attempts) + (if outcome.Found? then outcome.routes else [])
  }

  /** One more visited service, and what a cycle then has gathered and counted. */
  lemma VisitOne(names: seq<string>, name: string, attempts: string -> Attempt, table: seq<RouteConfig>)
    ensures var visited := names + [name];
      var (routes, fails) := (Contribution(name, attempts(name), table), OutcomeOf(name, attempts(name)).Retain?);
      && Gathered(visited, attempts, table) == Gathered(names, attempts, table) + routes
      && Failures(visited, attempts) == Failures(names, attempts) + (if fails then 1 else 0)
      && RetainedRoutes(visited, attempts, table) == RetainedRoutes(names, attempts, table) + (if fails then |routes| else 0)
  {
    assert (names + [name])[..|names|] == names;
  }

  lemma AutoServicesSnoc(services: seq<ServiceConfig>, service: ServiceConfig)
    ensures AutoServices(services + [service])
      == if service.autoDiscover then AutoServices(services) + [service.name] else AutoServices(services)
  {
    assert (services + [service])[..|services|] == services;
  }

  class RouteDiscoveryService {
    const services: seq<ServiceConfig>
    const overrides: seq<RouteOverride>

    constructor (services: seq<ServiceConfig>, overrides: seq<RouteOverride>)
      ensures this.services == services && this.overrides == overrides
    {
      this.services, this.overrides := services, overrides;
    }

    method DiscoverRoutes(attempts: string -> Attempt) returns (routes: seq<RouteConfig>)
      ensures routes == Discovered(AutoServices(services), attempts)
    {
      routes := [];
      for i := 0 to |services|
        invariant routes == Discovered(AutoServices(services[..i]), attempts)
      {
        assert services[..i + 1][..i] == services[..i];
        ghost var visited := AutoServices(services[..i]);
        if !services[i].autoDiscover {
          assert AutoServices(services[..i + 1]) == visited;
          continue;
        }
        assert AutoServices(services[..i + 1]) == visited + [services[i].name];
        assert (visited + [services[i].name])[..|visited|] == visited;
        var result := DiscoverServiceRoutes(services[i].name, attempts(services[i].name));
        if result.Success? {
          routes := routes + result.value;
        }
      }
      assert services[..|services|] == services;
    }

    /** Start-up (main.rs) and admin refresh (handlers/admin.rs): overridden, but not deduplicated. */
    method Reload(router: Router.RequestRouter, attempts: string -> Attempt)
      modifies router
      ensures router.Valid()
      ensures router.table == OverrideHandler.Overridden(Discovered(AutoServices(services), attempts), overrides)
    {
      var routes := DiscoverRoutes(attempts);
      var all := OverrideHandler.ApplyOverrides(routes, overrides);
      router.UpdateRoutes(all);
    }

    /** What a cycle does about one service: take its fresh routes, drop them all, or retain the present ones. */
    method Visit(router: Router.RequestRouter, name: string, attempt: Attempt)
      returns (routes: seq<RouteConfig>, failed: bool)
      requires router.Valid()
      ensures routes == Contribution(name, attempt, router.table)
      ensures failed <==> OutcomeOf(name, attempt).Retain?
    {
      var result := DiscoverServiceRoutes(name, attempt);
      match result {
        case Success(found) =>
          return found, false;
        case Failure(EmptyService(_)) =>
          return [], false;
        case Failure(_) =>
          routes := router.GetRoutesForService(name);
          return routes, true;
      }
    }

    /** The first part of a cycle: visit every service in turn. */
    method Gather(router: Router.RequestRouter, attempts: string -> Attempt)
      returns (allRoutes: seq<RouteConfig>, successCount: nat, failureCount: nat, retainedCount: nat)
      requires router.Valid()
      ensures allRoutes == Gathered(AutoServices(services), attempts, router.table)
      ensures failureCount == Failures(AutoServices(services), attempts)
      ensures successCount == |AutoServices(services)| - failureCount
      ensures retainedCount == RetainedRoutes(AutoServices(services), attempts, router.table)
    {
      allRoutes, successCount, failureCount, retainedCount := [], 0, 0, 0;
      for i := 0 to |services|
        invariant allRoutes == Gathered(AutoServices(services[..i]), attempts, router.table)
        invariant failureCount == Failures(AutoServices(services[..i]), attempts)
        invariant successCount == |AutoServices(services[..i])| - failureCount
        invariant retainedCount == RetainedRoutes(AutoServices(services[..i]), attempts, router.table)
      {
        assert services[..i + 1] == services[..i] + [services[i]];
        AutoServicesSnoc(services[..i], services[i]);
        if !services[i].autoDiscover {
          continue;
        }
        VisitOne(AutoServices(services[..i]), services[i].name, attempts, router.table);
        var routes, failed := Visit(router, services[i].name, attempts(services[i].name));
        allRoutes := allRoutes + routes;
        if failed {
          failureCount := failureCount + 1;
          retainedCount := retainedCount + |routes|;
        } else {
          successCount := successCount + 1;
        }
      }
      assert services[..|services|] == services;
    }

    /** The body of the refresh task's loop. */
    method RefreshCycle(router: Router.RequestRouter, attempts: string -> Attempt)
      returns (successCount: nat, failureCount: nat, retainedCount: nat)
      requires router.Valid()
      modifies router
      ensures router.Valid()
      ensures router.table == Refreshed(AutoServices(services), attempts, old(router.table), overrides)
      ensures failureCount == Failures(AutoServices(services), attempts)
      ensures successCount == |AutoServices(services)| - failureCount
      ensures retainedCount == RetainedRoutes(AutoServices(services), attempts, old(router.table))
    {
      var allRoutes: seq<RouteConfig>;
      allRoutes, successCount, failureCount, retainedCount := Gather(router, attempts);
      allRoutes := OverrideHandler.ApplyOverrides(allRoutes, overrides);
      allRoutes := RouteValidator.DeduplicateRoutes(allRoutes);
      router.UpdateRoutes(allRoutes);
    }
  }
}
