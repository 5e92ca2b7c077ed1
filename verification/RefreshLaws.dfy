/** What discovery and a refresh cycle make of each kind of answer, told by the answers themselves. */
module RefreshLaws {
  import opened Wrappers
  import opened Routes
  import opened RouteValidator
  import opened OverrideHandler
  import opened RouteDiscovery
  import opened RefreshStability
  import ConventionMapper

  // ---------- the kinds of answers ----------

  /** The backend names all its methods. */
  predicate Answers(attempt: Attempt) {
    attempt.Listed? && forall i :: 0 <= i < |attempt.replies| ==> attempt.replies[i].Methods?
  }

  /** All methods it names, reply by reply. */
  function Flat(replies: seq<MethodsReply>): seq<Method> {
    if replies == [] then []
    else (if replies[0].Methods? then replies[0].methods else []) + Flat(replies[1..])
  }

  /** The convention maps the method to this route. */
  predicate Maps(service: string, m: Method, r: RouteConfig) {
    var mapping := ConventionMapper.MapMethod(m.name, m.fullName);
    mapping.Some? && r == RouteConfig(mapping.value.httpPath, mapping.value.httpMethod, service, mapping.value.grpcMethod)
  }

  /** Some method of the answer is mapped to this route. */
  predicate Offered(service: string, attempt: Attempt, r: RouteConfig) {
    Answers(attempt) && exists k :: 0 <= k < |Flat(attempt.replies)| && Maps(service, Flat(attempt.replies)[k], r)
  }

  /** Two methods of the answer are mapped to routes with one key. */
  ghost predicate Clashes(service: string, attempt: Attempt) {
    Answers(attempt) && exists i, j, r, q :: 0 <= i < j < |Flat(attempt.replies)| && ClashAt(service, Flat(attempt.replies), i, j, r, q)
  }

  predicate ClashAt(service: string, methods: seq<Method>, i: int, j: int, r: RouteConfig, q: RouteConfig) {
    0 <= i < j < |methods| && Maps(service, methods[i], r) && Maps(service, methods[j], q) && Key(r) == Key(q)
  }

  lemma MapsIsRouteOf(service: string, m: Method, r: RouteConfig)
    ensures Maps(service, m, r) <==> RouteOf(service, m) == Some(r)
  {
  }

  // ---------- collecting ----------

  lemma {:induction false} AllMethodsConcat(a: seq<MethodsReply>, b: seq<MethodsReply>)
    requires AllMethods(a).Some? && AllMethods(b).Some?
    ensures AllMethods(a + b) == Some(AllMethods(a).value + AllMethods(b).value)
  {
    if b == [] {
      assert a + b == a && AllMethods(a).value + [] == AllMethods(a).value;
    } else {
      var n := |b| - 1;
      assert (a + b)[..|a| + n] == a + b[..n];
      AllMethodsConcat(a, b[..n]);
      assert (AllMethods(a).value + AllMethods(b[..n]).value) + b[n].methods == AllMethods(a).value + AllMethods(b).value;
    }
  }

  lemma AllMethodsOne(reply: MethodsReply)
    requires reply.Methods?
    ensures AllMethods([reply]) == Some(reply.methods)
  {
    assert [reply][..0] == [] && [] + reply.methods == reply.methods;
  }

  lemma {:induction false} AllMethodsFlat(replies: seq<MethodsReply>)
    requires forall i :: 0 <= i < |replies| ==> replies[i].Methods?
    ensures AllMethods(replies) == Some(Flat(replies))
  {
    if replies == [] {
    } else {
      AllMethodsFlat(replies[1..]);
      AllMethodsOne(replies[0]);
      AllMethodsConcat([replies[0]], replies[1..]);
      assert replies == [replies[0]] + replies[1..];
    }
  }

  lemma MappedMembers(service: string, methods: seq<Method>, r: RouteConfig)
    ensures r in MapMethods(service, methods) <==> exists k :: 0 <= k < |methods| && Maps(service, methods[k], r)
  {
    CollectedMembers(Mapped(service, methods), r);
    forall k | 0 <= k < |methods| ensures Maps(service, methods[k], r) <==> Mapped(service, methods)[k] == Some(r) {
      MapsIsRouteOf(service, methods[k], r);
    }
  }

  /** Distinct keys, told on the list before the gaps are taken out. */
  predicate SparseDistinct(mapped: seq<Option<RouteConfig>>) {
    forall i, j :: 0 <= i < j < |mapped| && mapped[i].Some? && mapped[j].Some? ==> Key(mapped[i].value) != Key(mapped[j].value)
  }

  lemma DistinctSnoc(routes: seq<RouteConfig>, r: RouteConfig)
    ensures DistinctKeys(routes + [r]) <==> DistinctKeys(routes) && forall q :: q in routes ==> Key(q) != Key(r)
  {
    var all := routes + [r];
    if DistinctKeys(all) {
      assert forall i :: 0 <= i < |routes| ==> all[i] == routes[i] && Key(all[i]) != Key(all[|routes|]);
    }
  }

  lemma SparseSnoc(mapped: seq<Option<RouteConfig>>, last: Option<RouteConfig>)
    ensures SparseDistinct(mapped + [last]) <==>
      SparseDistinct(mapped) && (last.Some? ==> forall q :: Some(q) in mapped ==> Key(q) != Key(last.value))
  {
    var all := mapped + [last];
    if SparseDistinct(all) && last.Some? {
      forall q | Some(q) in mapped ensures Key(q) != Key(last.value) {
        var i :| 0 <= i < |mapped| && mapped[i] == Some(q);
        assert all[i] == Some(q) && all[|mapped|] == last;
      }
    }
    if SparseDistinct(all) {
      assert forall i, j :: 0 <= i < j < |mapped| ==> all[i] == mapped[i] && all[j] == mapped[j];
    }
  }

  lemma {:induction false} CollectedDistinct(mapped: seq<Option<RouteConfig>>)
    ensures DistinctKeys(Collected(mapped)) <==> SparseDistinct(mapped)
  {
    if mapped == [] {
    } else {
      var (front, last) := (mapped[..|mapped| - 1], mapped[|mapped| - 1]);
      assert mapped == front + [last];
      CollectedDistinct(front);
      SparseSnoc(front, last);
      if last.Some? {
        DistinctSnoc(Collected(front), last.value);
        forall q: RouteConfig ensures q in Collected(front) <==> Some(q) in front {
          CollectedMembers(front, q);
        }
      } else {
        assert Collected(front) + [] == Collected(front);
      }
    }
  }

  lemma ClashesExactly(service: string, attempt: Attempt)
    requires Answers(attempt)
    ensures Clashes(service, attempt) <==> !DistinctKeys(MapMethods(service, Flat(attempt.replies)))
  {
    var methods := Flat(attempt.replies);
    var mapped := Mapped(service, methods);
    CollectedDistinct(mapped);
    forall i, j, r, q ensures ClashAt(service, methods, i, j, r, q) <==>
        (0 <= i < j < |methods| && mapped[i] == Some(r) && mapped[j] == Some(q) && Key(r) == Key(q))
    {
      if 0 <= i < j < |methods| {
        MapsIsRouteOf(service, methods[i], r);
        MapsIsRouteOf(service, methods[j], q);
      }
    }
    if !SparseDistinct(mapped) {
      var i, j :| 0 <= i < j < |mapped| && mapped[i].Some? && mapped[j].Some? && Key(mapped[i].value) == Key(mapped[j].value);
      assert ClashAt(service, methods, i, j, mapped[i].value, mapped[j].value);
    }
  }

  // ---------- what an answer counts as ----------

  /** Without a complete answer, and with one that clashes, a service counts as failed; with one
      that is mapped to nothing, as empty; with any other, its routes are found. */
  lemma OutcomeExactly(service: string, attempt: Attempt)
    ensures OutcomeOf(service, attempt).Retain? <==> !Answers(attempt) || Clashes(service, attempt)
    ensures OutcomeOf(service, attempt).Empty? <==> Answers(attempt) && forall r :: !Offered(service, attempt, r)
    ensures OutcomeOf(service, attempt).Found? ==>
      forall r :: r in OutcomeOf(service, attempt).routes <==> Offered(service, attempt, r)
  {
    if Answers(attempt) {
      AnswerCounts(service, attempt);
    } else if attempt.Listed? {
      var i :| 0 <= i < |attempt.replies| && attempt.replies[i].MethodsFailed?;
      FailedReplyDecides(attempt.replies, i);
    }
  }

  lemma AnswerCounts(service: string, attempt: Attempt)
    requires Answers(attempt)
    ensures OutcomeOf(service, attempt).Retain? <==> Clashes(service, attempt)
    ensures OutcomeOf(service, attempt).Empty? <==> forall r :: !Offered(service, attempt, r)
    ensures OutcomeOf(service, attempt).Found? ==>
      forall r :: r in OutcomeOf(service, attempt).routes <==> Offered(service, attempt, r)
  {
    var routes := MapMethods(service, Flat(attempt.replies));
    AllMethodsFlat(attempt.replies);
    ClashesExactly(service, attempt);
    forall r: RouteConfig ensures r in routes <==> Offered(service, attempt, r) {
      MappedMembers(service, Flat(attempt.replies), r);
    }
    assert routes != [] ==> routes[0] in routes;
  }

  // ---------- start-up and admin refresh ----------

  /** The routes installed, before overrides, are exactly those the visited services offer without clashing. */
  lemma {:induction false} DiscoveredExactly(names: seq<string>, attempts: string -> Attempt, r: RouteConfig)
    ensures r in Discovered(names, attempts) <==>
      r.service in names && Offered(r.service, attempts(r.service), r) && !Clashes(r.service, attempts(r.service))
  {
    if names == [] {
    } else {
      var n := |names| - 1;
      DiscoveredExactly(names[..n], attempts, r);
      OutcomeExactly(names[n], attempts(names[n]));
      assert names == names[..n] + [names[n]];
    }
  }

  // ---------- refresh ----------

  /** What a cycle takes for a service: what it offers if it answers without clashing, and otherwise
      what the table holds. */
  ghost predicate Takes(service: string, attempt: Attempt, table: seq<RouteConfig>, r: RouteConfig) {
    r.service == service &&
    if Answers(attempt) && !Clashes(service, attempt) then Offered(service, attempt, r) else r in table
  }

  ghost predicate Taken(names: seq<string>, attempts: string -> Attempt, table: seq<RouteConfig>, r: RouteConfig) {
    r.service in names && Takes(r.service, attempts(r.service), table, r)
  }

  lemma ContributionExactly(service: string, attempt: Attempt, table: seq<RouteConfig>, r: RouteConfig)
    ensures r in Contribution(service, attempt, table) <==> Takes(service, attempt, table, r)
  {
    OutcomeExactly(service, attempt);
    ForServiceMembers(table, service);
  }

  lemma TakenSnoc(names: seq<string>, name: string, attempts: string -> Attempt, table: seq<RouteConfig>, r: RouteConfig)
    ensures Taken(names + [name], attempts, table, r) <==>
      Taken(names, attempts, table, r) || Takes(name, attempts(name), table, r)
  {
  }

  /** Before overrides, a cycle takes exactly these. */
  lemma {:induction false} GatheredExactly(names: seq<string>, attempts: string -> Attempt, table: seq<RouteConfig>, r: RouteConfig)
    ensures r in Gathered(names, attempts, table) <==> Taken(names, attempts, table, r)
  {
    if names == [] {
    } else {
      var (front, name) := (names[..|names| - 1], names[|names| - 1]);
      assert names == front + [name];
      GatheredExactly(front, attempts, table, r);
      ContributionExactly(name, attempts(name), table, r);
      TakenSnoc(front, name, attempts, table, r);
      VisitOne(front, name, attempts, table);
    }
  }

  /** Every route a cycle takes has its key, as overridden, in the new table. */
  lemma TakenIsInstalled(names: seq<string>, attempts: string -> Attempt, table: seq<RouteConfig>,
    overrides: seq<RouteOverride>, r: RouteConfig)
    ensures Taken(names, attempts, table, r) ==> Key(Patch(overrides, r)) in Keys(Refreshed(names, attempts, table, overrides))
  {
    var gathered := Gathered(names, attempts, table);
    GatheredExactly(names, attempts, table, r);
    if r in gathered {
      var i :| 0 <= i < |gathered| && gathered[i] == r;
      assert Overridden(gathered, overrides)[i] == Patch(overrides, r);
      DedupKeepsKeys(Overridden(gathered, overrides));
    }
  }

  /** And every route of the new table is one taken, as overridden, or added by an override. */
  lemma InstalledIsTaken(names: seq<string>, attempts: string -> Attempt, table: seq<RouteConfig>,
    overrides: seq<RouteOverride>, r: RouteConfig)
    requires r in Refreshed(names, attempts, table, overrides)
    ensures (exists x :: Taken(names, attempts, table, x) && r == Patch(overrides, x)) ||
      (exists k :: 0 <= k < |overrides| && Complete(overrides[k]) && r == NewRoute(overrides[k]))
  {
    var gathered := Gathered(names, attempts, table);
    DedupSubset(Overridden(gathered, overrides));
    if r in PatchAll(overrides, gathered) {
      var i :| 0 <= i < |gathered| && r == Patch(overrides, gathered[i]);
      GatheredExactly(names, attempts, table, gathered[i]);
    } else {
      AddedMembers(overrides, GrpcMethods(gathered));
      var k :| 0 <= k < |overrides| && AddedFrom(overrides[k], GrpcMethods(gathered), r);
    }
  }

  /** Without overrides the new table holds only routes taken, and a route of each of their keys. */
  lemma PlainCycleExactly(names: seq<string>, attempts: string -> Attempt, table: seq<RouteConfig>, r: RouteConfig)
    ensures r in Refreshed(names, attempts, table, []) ==> Taken(names, attempts, table, r)
    ensures Taken(names, attempts, table, r) ==> Key(r) in Keys(Refreshed(names, attempts, table, []))
  {
    if r in Refreshed(names, attempts, table, []) {
      InstalledIsTaken(names, attempts, table, [], r);
    }
    if Taken(names, attempts, table, r) {
      TakenIsInstalled(names, attempts, table, [], r);
    }
  }

  // ---------- order ----------

  lemma {:induction false} GatheredConcat(a: seq<string>, b: seq<string>, attempts: string -> Attempt, table: seq<RouteConfig>)
    ensures Gathered(a + b, attempts, table) == Gathered(a, attempts, table) + Gathered(b, attempts, table)
  {
    if b == [] {
      assert a + b == a && Gathered(a, attempts, table) + [] == Gathered(a, attempts, table);
    } else {
      var (front, name) := (b[..|b| - 1], b[|b| - 1]);
      assert b == front + [name] && a + b == a + front + [name];
      GatheredConcat(a, front, attempts, table);
      VisitOne(front, name, attempts, table);
      VisitOne(a + front, name, attempts, table);
      Associative(Gathered(a, attempts, table), Gathered(front, attempts, table), Contribution(name, attempts(name), table));
    }
  }

  lemma Associative<T>(a: seq<T>, b: seq<T>, c: seq<T>)
    ensures (a + b) + c == a + (b + c)
  {
  }

  lemma OnlyOfItsKey(front: seq<RouteConfig>, rest: seq<RouteConfig>, r: RouteConfig)
    requires r in front && forall q :: q in front && Key(q) == Key(r) ==> q == r
    ensures r in Dedup(front + rest)
  {
    LookupFinds(front, Key(r));
    LookupConcat(front, rest, Key(r));
    DedupIsLookup(front + rest, r);
    assert exists i :: 0 <= i < |front| && front[i] == r;
  }

  lemma OverriddenConcat(front: seq<RouteConfig>, rest: seq<RouteConfig>, overrides: seq<RouteOverride>)
    ensures Overridden(front + rest, overrides)
      == PatchAll(overrides, front) + (PatchAll(overrides, rest) + Added(overrides, GrpcMethods(front + rest)))
  {
    assert PatchAll(overrides, front + rest) == PatchAll(overrides, front) + PatchAll(overrides, rest);
    Associative(PatchAll(overrides, front), PatchAll(overrides, rest), Added(overrides, GrpcMethods(front + rest)));
  }

  lemma PatchedWins(front: seq<RouteConfig>, rest: seq<RouteConfig>, overrides: seq<RouteOverride>, r: RouteConfig)
    requires r in front
    requires forall q :: q in front && Key(Patch(overrides, q)) == Key(Patch(overrides, r)) ==> Patch(overrides, q) == Patch(overrides, r)
    ensures Patch(overrides, r) in Dedup(Overridden(front + rest, overrides))
  {
    var patched := PatchAll(overrides, front);
    forall x | x in patched && Key(x) == Key(Patch(overrides, r)) ensures x == Patch(overrides, r) {
      var i :| 0 <= i < |patched| && patched[i] == x;
      assert front[i] in front;
    }
    var k :| 0 <= k < |front| && front[k] == r;
    assert patched[k] == Patch(overrides, r);
    OverriddenConcat(front, rest, overrides);
    OnlyOfItsKey(patched, PatchAll(overrides, rest) + Added(overrides, GrpcMethods(front + rest)), Patch(overrides, r));
  }

  /** No service of these brings another route of the key that an overridden route has. */
  ghost predicate Unrivalled(names: seq<string>, attempts: string -> Attempt, table: seq<RouteConfig>,
    overrides: seq<RouteOverride>, r: RouteConfig)
  {
    forall q :: Taken(names, attempts, table, q) && Key(Patch(overrides, q)) == Key(Patch(overrides, r)) ==>
      Patch(overrides, q) == Patch(overrides, r)
  }

  /** A route taken for a service is in the new table, as overridden, unless the service or one visited
      before it brings another route of its key: what later services bring does not matter. */
  lemma EarliestTakenWins(before: seq<string>, after: seq<string>, attempts: string -> Attempt, table: seq<RouteConfig>,
    overrides: seq<RouteOverride>, r: RouteConfig)
    ensures Taken(before, attempts, table, r) && Unrivalled(before, attempts, table, overrides, r) ==>
      Patch(overrides, r) in Refreshed(before + after, attempts, table, overrides)
  {
    GatheredConcat(before, after, attempts, table);
    GatheredExactly(before, attempts, table, r);
    if Taken(before, attempts, table, r) && Unrivalled(before, attempts, table, overrides, r) {
      var front := Gathered(before, attempts, table);
      forall q | q in front && Key(Patch(overrides, q)) == Key(Patch(overrides, r)) ensures Patch(overrides, q) == Patch(overrides, r) {
        GatheredExactly(before, attempts, table, q);
      }
      PatchedWins(front, Gathered(after, attempts, table), overrides, r);
    }
  }

  lemma {:induction false} CollectedInOrder(mapped: seq<Option<RouteConfig>>, i: nat, j: nat) returns (p: nat, q: nat)
    requires i < j < |mapped| && mapped[i].Some? && mapped[j].Some?
    ensures p < q < |Collected(mapped)| && Collected(mapped)[p] == mapped[i].value && Collected(mapped)[q] == mapped[j].value
  {
    var (n, front) := (|mapped| - 1, mapped[..|mapped| - 1]);
    if j == n {
      CollectedMembers(front, mapped[i].value);
      assert front[i] == mapped[i];
      p :| 0 <= p < |Collected(front)| && Collected(front)[p] == mapped[i].value;
      q := |Collected(front)|;
    } else {
      p, q := CollectedInOrder(front, i, j);
    }
  }

  /** The two routes stand in this order in the list. */
  ghost predicate StandInOrder(routes: seq<RouteConfig>, r: RouteConfig, q: RouteConfig) {
    exists k, l :: 0 <= k < l < |routes| && routes[k] == r && routes[l] == q
  }

  predicate MapInOrder(service: string, methods: seq<Method>, i: nat, j: nat, r: RouteConfig, q: RouteConfig) {
    i < j < |methods| && Maps(service, methods[i], r) && Maps(service, methods[j], q)
  }

  /** The routes found for a service are in the order of its methods. */
  lemma FoundInOrder(service: string, attempt: Attempt, i: nat, j: nat, r: RouteConfig, q: RouteConfig)
    ensures OutcomeOf(service, attempt).Found? && Answers(attempt) && MapInOrder(service, Flat(attempt.replies), i, j, r, q) ==>
      StandInOrder(OutcomeOf(service, attempt).routes, r, q)
  {
    if Answers(attempt) && MapInOrder(service, Flat(attempt.replies), i, j, r, q) {
      var methods := Flat(attempt.replies);
      AllMethodsFlat(attempt.replies);
      MapsIsRouteOf(service, methods[i], r);
      MapsIsRouteOf(service, methods[j], q);
      var k, l := CollectedInOrder(Mapped(service, methods), i, j);
    }
  }

  /** The services visited are exactly those configured for discovery. */
  lemma {:induction false} VisitedExactly(services: seq<ServiceConfig>, name: string)
    ensures name in AutoServices(services) <==>
      exists i :: 0 <= i < |services| && services[i].name == name && services[i].autoDiscover
  {
    if services == [] {
    } else {
      var n := |services| - 1;
      VisitedExactly(services[..n], name);
      assert services == services[..n] + [services[n]];
    }
  }
}
