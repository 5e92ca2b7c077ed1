/** Runs of the gateway's limiter: window bounds and agreement with an ideal log. */
module GatewayRateLimiterRuns {
  import opened GatewayRateLimiter
  import opened RequestTimes

  datatype Event =
    | Request(client: string, time: int)
    | CountQuery(client: string, time: int)
    | Cleanup(time: int)

  function Step(config: Config, store: seq<Entry>, e: Event): seq<Entry> {
    match e
    case Request(client, time) => Check(config, store, client, time).0
    case CountQuery(client, _) => Query(store, client).0
    case Cleanup(time) => Cleaned(config, store, time)
  }

  function Run(config: Config, store: seq<Entry>, events: seq<Event>): seq<Entry>
    decreases |events|
  {
    if events == [] then store else Run(config, Step(config, store, events[0]), events[1..])
  }

  /** The requests of a client that are accepted in a run. */
  function Accepts(config: Config, store: seq<Entry>, events: seq<Event>, client: string): nat
    decreases |events|
  {
    if events == [] then 0
    else
      var e := events[0];
      (if e.Request? && e.client == client && Check(config, store, client, e.time).1 then 1 else 0) +
      Accepts(config, Step(config, store, e), events[1..], client)
  }

  /** The clients a run touches, by a request or a count query. */
  function TouchedBy(events: seq<Event>): set<string> {
    if events == [] then {}
    else (if events[0].Cleanup? then {} else {events[0].client}) + TouchedBy(events[1..])
  }

  predicate Within(events: seq<Event>, from: int, to: int) {
    forall i :: 0 <= i < |events| ==> from <= events[i].time <= to
  }

  // ---------- the cache ----------

  function Clients(store: seq<Entry>): set<string> {
    set i | 0 <= i < |store| :: store[i].client
  }

  lemma {:induction false} ClientsCount(store: seq<Entry>)
    requires Distinct(store)
    ensures |Clients(store)| == |store|
  {
    if store == [] {
    } else {
      var n := |store| - 1;
      ClientsCount(store[..n]);
      assert Clients(store) == Clients(store[..n]) + {store[n].client} by {
        forall i | 0 <= i < |store| ensures store[i].client in Clients(store[..n]) + {store[n].client} {
          if i < n {
            assert store[..n][i].client == store[i].client;
          }
        }
        forall i | 0 <= i < n ensures store[..n][i].client in Clients(store) {
          assert store[i].client == store[..n][i].client;
        }
      }
      assert store[n].client !in Clients(store[..n]) by {
        assert forall i :: 0 <= i < n ==> store[..n][i].client == store[i].client;
      }
    }
  }

  lemma {:induction false} IndexOfDistinct(store: seq<Entry>, i: nat)
    requires Distinct(store) && i < |store|
    ensures Has(store, store[i].client) && IndexOf(store, store[i].client) == i
  {
  }

  lemma {:induction false} WithoutOthers(store: seq<Entry>, client: string)
    requires forall e :: e in store ==> e.client != client
    ensures Without(store, {client}) == store
  {
    if store == [] {
    } else {
      var n := |store| - 1;
      WithoutOthers(store[..n], client);
      assert store[n] in store;
    }
  }

  lemma WithoutAbsent(store: seq<Entry>, client: string)
    requires !Has(store, client)
    ensures Without(store, {client}) == store
  {
  }

  function Cut(store: seq<Entry>, p: nat): (cut: seq<Entry>)
    requires p < |store|
    ensures |cut| == |store| - 1
    ensures forall j :: 0 <= j < p ==> cut[j] == store[j]
    ensures forall j :: p <= j < |cut| ==> cut[j] == store[j + 1]
  {
    store[..p] + store[p + 1..]
  }

  /** Taking a client out of the cache cuts its one entry. */
  lemma {:induction false} WithoutCut(store: seq<Entry>, p: nat)
    requires Distinct(store) && p < |store|
    ensures Without(store, {store[p].client}) == Cut(store, p)
  {
    var n := |store| - 1;
    if p < n {
      WithoutCut(store[..n], p);
      assert store[..n][p] == store[p];
      assert Cut(store[..n], p) + [store[n]] == Cut(store, p);
    } else {
      assert !Has(store[..n], store[n].client) by {
        assert forall j :: 0 <= j < n ==> store[..n][j] == store[j];
      }
      WithoutAbsent(store[..n], store[n].client);
      assert Without(store, {store[n].client}) == store[..n];
      assert Cut(store, n) == store[..n];
    }
  }

  lemma DistinctCut(store: seq<Entry>, p: nat)
    requires Distinct(store) && p < |store|
    ensures Distinct(Cut(store, p)) && !Has(Cut(store, p), store[p].client)
  {
  }

  lemma DistinctCons(e: Entry, rest: seq<Entry>)
    requires Distinct(rest) && !Has(rest, e.client)
    ensures Distinct([e] + rest)
  {
  }

  /** Using an entry keeps clients distinct and puts the used one first. */
  lemma UseWellFormed(store: seq<Entry>, client: string, state: ClientState)
    requires Distinct(store)
    ensures Distinct(Use(store, client, state))
    ensures |Use(store, client, state)| == if Has(store, client) then |store| else |store| + 1
  {
    if Has(store, client) {
      var i := IndexOf(store, client);
      WithoutCut(store, i);
      DistinctCut(store, i);
    } else {
      WithoutAbsent(store, client);
    }
    DistinctCons(Entry(client, state), Without(store, {client}));
  }

  lemma PutWellFormed(store: seq<Entry>, client: string, state: ClientState)
    requires WellFormed(store) && !Has(store, client)
    ensures WellFormed(Put(store, client, state))
  {
  }

  lemma {:induction false} CleanedWellFormed(config: Config, store: seq<Entry>, now: int)
    requires Distinct(store)
    ensures |Cleaned(config, store, now)| <= |store| && Distinct(Cleaned(config, store, now))
    ensures forall j :: 0 <= j < |Cleaned(config, store, now)| ==> Has(store, Cleaned(config, store, now)[j].client)
  {
    if store == [] {
    } else {
      var n := |store| - 1;
      CleanedWellFormed(config, store[..n], now);
      forall j | 0 <= j < |Cleaned(config, store[..n], now)|
        ensures Has(store, Cleaned(config, store[..n], now)[j].client)
        ensures Cleaned(config, store[..n], now)[j].client != store[n].client
      {
        var k :| 0 <= k < n && store[..n][k].client == Cleaned(config, store[..n], now)[j].client;
        assert store[k] == store[..n][k];
      }
    }
  }

  lemma StepWellFormed(config: Config, store: seq<Entry>, e: Event)
    requires WellFormed(store)
    ensures WellFormed(Step(config, store, e))
  {
    match e
    case Request(client, time) =>
      var present := Admitted(store, client, time);
      if !Has(store, client) {
        PutWellFormed(store, client, ClientState([], time));
      }
      forall state { UseWellFormed(present, client, state); }
    case CountQuery(client, _) =>
      if Has(store, client) {
        UseWellFormed(store, client, StateOf(store, client));
      }
    case Cleanup(time) => CleanedWellFormed(config, store, time);
  }

  /** In every run from an empty cache, clients are distinct and at most 10,000 are tracked. */
  lemma {:induction false} RunWellFormed(config: Config, store: seq<Entry>, events: seq<Event>)
    requires WellFormed(store)
    ensures WellFormed(Run(config, store, events))
    decreases |events|
  {
    if events == [] {
    } else {
      StepWellFormed(config, store, events[0]);
      RunWellFormed(config, Step(config, store, events[0]), events[1..]);
    }
  }

  // ---------- one client through a window ----------

  /** The client is tracked at index i, only clients in seen were used after it, and its last n
      recorded requests are not before start. */
  predicate TrackedAt(store: seq<Entry>, client: string, i: nat, n: nat, start: int, seen: set<string>) {
    && i < |store| && store[i].client == client
    && (forall j :: 0 <= j < i ==> store[j].client in seen)
    && LastFrom(store[i].state.requests, n, start)
  }

  lemma {:induction false} PruneKeepsRecent(requests: seq<int>, now: int, window: int, n: nat, start: int)
    requires LastFrom(requests, n, start) && now - start <= window
    ensures LastFrom(Prune(requests, now, window), n, start)
  {
    if requests == [] || now - requests[0] <= window {
    } else {
      assert |requests| > n;
      PruneKeepsRecent(requests[1..], now, window, n, start);
    }
  }

  /** Using another client's entry moves one more client in front. */
  lemma UseTracks(store: seq<Entry>, client: string, i: nat, n: nat, start: int, seen: set<string>, other: string, state: ClientState)
    returns (k: nat)
    requires Distinct(store) && TrackedAt(store, client, i, n, start, seen) && other != client
    ensures TrackedAt(Use(store, other, state), client, k, n, start, seen + {other})
  {
    var after := Use(store, other, state);
    if Has(store, other) {
      var p := IndexOf(store, other);
      WithoutCut(store, p);
      assert after == [Entry(other, state)] + Cut(store, p);
      k := if i < p then i + 1 else i;
    } else {
      WithoutAbsent(store, other);
      k := i + 1;
    }
  }

  /** The victim of an eviction was used before every other client of a full cache. */
  lemma NotTheVictim(store: seq<Entry>, client: string, i: nat, n: nat, start: int, seen: set<string>, other: string)
    requires WellFormed(store) && |store| == MAX_TRACKED_CLIENTS && !Has(store, other)
    requires TrackedAt(store, client, i, n, start, seen)
    requires |seen + {client, other}| <= MAX_TRACKED_CLIENTS
    ensures i < MAX_TRACKED_CLIENTS - 1
  {
    if i == MAX_TRACKED_CLIENTS - 1 {
      ClientsCount(store);
      assert other !in Clients(store);
      assert Clients(store) + {other} <= seen + {client, other};
      SubsetCount(Clients(store) + {other}, seen + {client, other});
      assert false;
    }
  }

  lemma {:induction false} SubsetCount<T>(a: set<T>, b: set<T>)
    requires a <= b
    ensures |a| <= |b|
  {
    if a == {} {
    } else {
      var x :| x in a;
      SubsetCount(a - {x}, b - {x});
    }
  }

  lemma AdmitTracks(store: seq<Entry>, client: string, i: nat, n: nat, start: int, seen: set<string>, other: string, now: int)
    returns (k: nat)
    requires WellFormed(store) && TrackedAt(store, client, i, n, start, seen) && other != client
    requires |seen + {client, other}| <= MAX_TRACKED_CLIENTS
    ensures TrackedAt(Admitted(store, other, now), client, k, n, start, seen + {other})
  {
    if Has(store, other) {
      k := i;
    } else {
      if |store| == MAX_TRACKED_CLIENTS {
        NotTheVictim(store, client, i, n, start, seen, other);
      }
      k := i + 1;
    }
  }

  lemma {:induction false} CleanTracks(config: Config, store: seq<Entry>, client: string, i: nat, n: nat, start: int, seen: set<string>, now: int)
    returns (k: nat)
    requires TrackedAt(store, client, i, n, start, seen) && n > 0 && now - start <= config.Window()
    ensures TrackedAt(Cleaned(config, store, now), client, k, n, start, seen)
  {
    var m := |store| - 1;
    if i < m {
      k := CleanTracks(config, store[..m], client, i, n, start, seen, now);
    } else {
      var requests := store[m].state.requests;
      assert HasRecent(requests, now, config.Window()) by {
        assert now - requests[|requests| - 1] <= config.Window();
      }
      PruneKeepsRecent(requests, now, config.Window(), n, start);
      CleanedClientsSeen(config, store[..m], now, seen);
      k := |Cleaned(config, store[..m], now)|;
    }
  }

  lemma {:induction false} CleanedClientsSeen(config: Config, store: seq<Entry>, now: int, seen: set<string>)
    requires forall j :: 0 <= j < |store| ==> store[j].client in seen
    ensures forall j :: 0 <= j < |Cleaned(config, store, now)| ==> Cleaned(config, store, now)[j].client in seen
  {
    if store == [] {
    } else {
      CleanedClientsSeen(config, store[..|store| - 1], now, seen);
    }
  }

  /** As TrackedAt, for a client accepted n times so far; nothing is claimed while n is zero. */
  predicate Held(store: seq<Entry>, client: string, i: nat, n: nat, start: int, seen: set<string>) {
    n > 0 ==> TrackedAt(store, client, i, n, start, seen)
  }

  predicate Accepted(config: Config, store: seq<Entry>, e: Event, client: string) {
    e.Request? && e.client == client && Check(config, store, client, e.time).1
  }

  function Touch(e: Event): set<string> {
    if e.Cleanup? then {} else {e.client}
  }

  lemma OwnRequestHolds(config: Config, store: seq<Entry>, client: string, now: int, i: nat, n: nat, start: int, seen: set<string>)
    returns (m: nat)
    requires config.enabled && WellFormed(store) && n <= config.requestsPerMinute
    requires Held(store, client, i, n, start, seen) && start <= now <= start + config.Window()
    ensures m == n + (if Check(config, store, client, now).1 then 1 else 0)
    ensures m <= config.requestsPerMinute
    ensures Held(Check(config, store, client, now).0, client, 0, m, start, seen + {client})
  {
    var present := Admitted(store, client, now);
    if n > 0 {
      IndexOfDistinct(store, i);
      PruneKeepsRecent(StateOf(present, client).requests, now, config.Window(), n, start);
    }
    m := n + (if Check(config, store, client, now).1 then 1 else 0);
  }

  lemma OtherRequestHolds(config: Config, store: seq<Entry>, client: string, other: string, now: int, i: nat, n: nat, start: int, seen: set<string>)
    returns (k: nat)
    requires config.enabled && WellFormed(store) && other != client
    requires Held(store, client, i, n, start, seen) && |seen + {client, other}| <= MAX_TRACKED_CLIENTS
    ensures Held(Check(config, store, other, now).0, client, k, n, start, seen + {other})
  {
    k := 0;
    if n > 0 {
      var present := Admitted(store, other, now);
      if !Has(store, other) {
        PutWellFormed(store, other, ClientState([], now));
      }
      var p := AdmitTracks(store, client, i, n, start, seen, other, now);
      var state := StateOf(present, other);
      var kept := Prune(state.requests, now, config.Window());
      assert seen + {other} + {other} == seen + {other};
      if |kept| >= config.requestsPerMinute {
        k := UseTracks(present, client, p, n, start, seen + {other}, other, state.(requests := kept));
      } else {
        k := UseTracks(present, client, p, n, start, seen + {other}, other, ClientState(kept + [now], now));
      }
    }
  }

  lemma QueryHolds(store: seq<Entry>, client: string, other: string, i: nat, n: nat, start: int, seen: set<string>)
    returns (k: nat)
    requires WellFormed(store) && Held(store, client, i, n, start, seen)
    ensures Held(Query(store, other).0, client, k, n, start, seen + {other})
  {
    k := i;
    if n > 0 && Has(store, other) {
      if other == client {
        IndexOfDistinct(store, i);
        k := 0;
      } else {
        k := UseTracks(store, client, i, n, start, seen, other, StateOf(store, other));
      }
    }
  }

  lemma StepHolds(config: Config, store: seq<Entry>, e: Event, client: string, i: nat, n: nat, start: int, seen: set<string>)
    returns (k: nat, m: nat)
    requires config.enabled && WellFormed(store) && n <= config.requestsPerMinute
    requires Held(store, client, i, n, start, seen) && start <= e.time <= start + config.Window()
    requires |seen + Touch(e) + {client}| <= MAX_TRACKED_CLIENTS
    ensures m == n + (if Accepted(config, store, e, client) then 1 else 0)
    ensures m <= config.requestsPerMinute
    ensures Held(Step(config, store, e), client, k, m, start, seen + Touch(e))
  {
    m, k := n, i;
    match e
    case Request(other, time) =>
      if other == client {
        m := OwnRequestHolds(config, store, client, time, i, n, start, seen);
        k := 0;
      } else {
        assert seen + {client, other} == seen + Touch(e) + {client};
        k := OtherRequestHolds(config, store, client, other, time, i, n, start, seen);
      }
    case CountQuery(other, _) => k := QueryHolds(store, client, other, i, n, start, seen);
    case Cleanup(time) =>
      if n > 0 {
        k := CleanTracks(config, store, client, i, n, start, seen, time);
        assert seen + Touch(e) == seen;
      }
  }

  lemma {:induction false} WindowHolds(config: Config, store: seq<Entry>, events: seq<Event>, client: string, i: nat, n: nat, start: int, seen: set<string>)
    requires config.enabled && WellFormed(store) && n <= config.requestsPerMinute
    requires Held(store, client, i, n, start, seen)
    requires Within(events, start, start + config.Window())
    requires |seen + TouchedBy(events) + {client}| <= MAX_TRACKED_CLIENTS
    ensures n + Accepts(config, store, events, client) <= config.requestsPerMinute
    decreases |events|
  {
    if events == [] {
    } else {
      var e := events[0];
      SubsetCount(seen + Touch(e) + {client}, seen + TouchedBy(events) + {client});
      assert start <= events[0].time <= start + config.Window();
      var k, m := StepHolds(config, store, e, client, i, n, start, seen);
      StepWellFormed(config, store, e);
      assert seen + Touch(e) + TouchedBy(events[1..]) == seen + TouchedBy(events);
      WindowHolds(config, Step(config, store, e), events[1..], client, k, m, start, seen + Touch(e));
    }
  }

  lemma {:induction false} UntouchedHasNoAccepts(config: Config, store: seq<Entry>, events: seq<Event>, client: string)
    requires client !in TouchedBy(events)
    ensures Accepts(config, store, events, client) == 0
    decreases |events|
  {
    if events == [] {
    } else {
      UntouchedHasNoAccepts(config, Step(config, store, events[0]), events[1..], client);
    }
  }

  /** In every run: during any stretch of time no longer than the window, ends included, in which
      at most 10,000 distinct clients are touched, each client has at most the configured number
      of requests accepted. */
  lemma WindowBound(config: Config, earlier: seq<Event>, events: seq<Event>, client: string, start: int)
    requires config.enabled
    requires Within(events, start, start + config.Window())
    requires |TouchedBy(events)| <= MAX_TRACKED_CLIENTS
    ensures Accepts(config, Run(config, [], earlier), events, client) <= config.requestsPerMinute
  {
    if client in TouchedBy(events) {
      RunWellFormed(config, [], earlier);
      assert {} + TouchedBy(events) + {client} == TouchedBy(events);
      WindowHolds(config, Run(config, [], earlier), events, client, 0, 0, start, {});
    } else {
      UntouchedHasNoAccepts(config, Run(config, [], earlier), events, client);
    }
  }

  // ---------- the bound on touched clients is needed ----------

  function Requests(clients: seq<string>, time: int): seq<Event> {
    seq(|clients|, i requires 0 <= i < |clients| => Request(clients[i], time))
  }

  lemma {:induction false} RunConcat(config: Config, store: seq<Entry>, a: seq<Event>, b: seq<Event>, client: string)
    ensures Run(config, store, a + b) == Run(config, Run(config, store, a), b)
    ensures Accepts(config, store, a + b, client) == Accepts(config, store, a, client) + Accepts(config, Run(config, store, a), b, client)
    decreases |a|
  {
    if a == [] {
      assert a + b == b;
    } else {
      assert (a + b)[1..] == a[1..] + b;
      RunConcat(config, Step(config, store, a[0]), a[1..], b, client);
    }
  }

  predicate FrontIs(store: seq<Entry>, used: seq<string>) {
    |used| <= |store| && forall j :: 0 <= j < |used| ==> store[j].client == used[|used| - 1 - j]
  }

  lemma UseGrowsFront(store: seq<Entry>, used: seq<string>, p: nat, state: ClientState)
    requires Distinct(store) && FrontIs(store, used) && p < |store|
    requires p >= |used|
    ensures FrontIs(Use(store, store[p].client, state), used + [store[p].client])
  {
    WithoutCut(store, p);
  }

  lemma PutKeepsFront(store: seq<Entry>, used: seq<string>, next: string, state: ClientState)
    requires FrontIs(store, used) && |used| < MAX_TRACKED_CLIENTS
    ensures FrontIs(Put(store, next, state)[1..], used) && Put(store, next, state)[0].client == next
  {
  }

  /** Using a client puts it in front of the clients used before. */
  lemma FrontUsed(store: seq<Entry>, used: seq<string>, next: string, state: ClientState)
    requires Distinct(store) && next !in used
    requires (Has(store, next) && FrontIs(store, used)) || (store != [] && store[0].client == next && FrontIs(store[1..], used))
    ensures FrontIs(Use(store, next, state), used + [next])
  {
    if Has(store, next) && FrontIs(store, used) {
      var p := IndexOf(store, next);
      assert forall j :: 0 <= j < |used| ==> store[j].client in used;
      UseGrowsFront(store, used, p, state);
    } else {
      WithoutCut(store, 0);
    }
  }

  lemma FrontGrows(config: Config, store: seq<Entry>, used: seq<string>, next: string, time: int)
    requires config.enabled && WellFormed(store) && FrontIs(store, used)
    requires next !in used && |used| < MAX_TRACKED_CLIENTS
    ensures FrontIs(Check(config, store, next, time).0, used + [next])
  {
    if !Has(store, next) {
      PutWellFormed(store, next, ClientState([], time));
      PutKeepsFront(store, used, next, ClientState([], time));
    }
    forall state ensures FrontIs(Use(Admitted(store, next, time), next, state), used + [next]) {
      FrontUsed(Admitted(store, next, time), used, next, state);
    }
  }

  predicate AllDiffer(clients: seq<string>) {
    forall i, j :: 0 <= i < j < |clients| ==> clients[i] != clients[j]
  }

  lemma RequestsTail(clients: seq<string>, time: int)
    requires clients != []
    ensures Requests(clients, time)[0] == Request(clients[0], time)
    ensures Requests(clients, time)[1..] == Requests(clients[1..], time)
  {
  }

  lemma OneMoreUsed(used: seq<string>, others: seq<string>)
    requires AllDiffer(used + others) && others != []
    ensures others[0] !in used
    ensures (used + [others[0]]) + others[1..] == used + others
  {
    forall j | 0 <= j < |used| ensures used[j] != others[0] {
      assert (used + others)[j] != (used + others)[|used|];
    }
  }

  lemma {:induction false} FrontAfter(config: Config, store: seq<Entry>, used: seq<string>, others: seq<string>, time: int)
    requires config.enabled && WellFormed(store) && FrontIs(store, used)
    requires AllDiffer(used + others) && |used + others| <= MAX_TRACKED_CLIENTS
    ensures FrontIs(Run(config, store, Requests(others, time)), used + others)
    decreases |others|
  {
    if others == [] {
      assert used + others == used;
    } else {
      OneMoreUsed(used, others);
      FrontGrows(config, store, used, others[0], time);
      StepWellFormed(config, store, Request(others[0], time));
      RequestsTail(others, time);
      FrontAfter(config, Step(config, store, Request(others[0], time)), used + [others[0]], others[1..], time);
    }
  }

  lemma Evicted(config: Config, store: seq<Entry>, others: seq<string>, client: string, time: int)
    requires config.enabled && WellFormed(store)
    requires AllDiffer(others) && |others| == MAX_TRACKED_CLIENTS && client !in others
    ensures !Has(Run(config, store, Requests(others, time)), client)
  {
    var after := Run(config, store, Requests(others, time));
    assert [] + others == others;
    FrontAfter(config, store, [], others, time);
    RunWellFormed(config, store, Requests(others, time));
    forall j | 0 <= j < |after| ensures after[j].client != client {
      assert after[j].client == others[|others| - 1 - j];
    }
  }

  /** A client that keeps requesting at one time is accepted until its limit. */
  lemma {:induction false} RepeatedAccepts(config: Config, store: seq<Entry>, client: string, repeats: seq<string>, time: int)
    requires config.enabled && WellFormed(store)
    requires forall i :: 0 <= i < |repeats| ==> repeats[i] == client
    requires RecordedOf(store, client) + |repeats| <= config.requestsPerMinute
    ensures Accepts(config, store, Requests(repeats, time), client) == |repeats|
    decreases |repeats|
  {
    if repeats == [] {
    } else {
      var e := Request(client, time);
      PruneShorter(StateOf(Admitted(store, client, time), client).requests, time, config.Window());
      StepWellFormed(config, store, e);
      RequestsTail(repeats, time);
      RepeatedAccepts(config, Step(config, store, e), client, repeats[1..], time);
    }
  }

  function RecordedOf(store: seq<Entry>, client: string): nat {
    if Has(store, client) then |StateOf(store, client).requests| else 0
  }

  lemma {:induction false} PruneShorter(requests: seq<int>, now: int, window: int)
    ensures |Prune(requests, now, window)| <= |requests|
  {
    if requests == [] || now - requests[0] <= window {
    } else {
      PruneShorter(requests[1..], now, window);
    }
  }

  lemma OneTooMany(config: Config, client: string, first: seq<Event>, others: seq<string>, time: int)
    requires config.enabled && config.requestsPerMinute > 0
    requires |others| == MAX_TRACKED_CLIENTS && client !in others && AllDiffer(others)
    ensures Accepts(config, [], first + Requests(others, time) + [Request(client, time)], client)
      == Accepts(config, [], first, client) + 1
  {
    var middle, last := Requests(others, time), [Request(client, time)];
    RunConcat(config, [], first + middle, last, client);
    RunConcat(config, [], first, middle, client);
    RunWellFormed(config, [], first);
    OthersAcceptNothing(config, Run(config, [], first), others, client, time);
    Evicted(config, Run(config, [], first), others, client, time);
    FreshIsAccepted(config, Run(config, Run(config, [], first), middle), client, time);
  }

  /** With 10,001 clients touched, all at one time, a client can have one request too many accepted:
      the others' requests evict its entry, and its full quota is forgotten. */
  lemma EvictionForgets(config: Config, client: string, repeats: seq<string>, others: seq<string>, time: int)
    requires config.enabled && config.requestsPerMinute > 0
    requires |repeats| == config.requestsPerMinute && forall i :: 0 <= i < |repeats| ==> repeats[i] == client
    requires |others| == MAX_TRACKED_CLIENTS && client !in others && AllDiffer(others)
    ensures var run := Requests(repeats, time) + Requests(others, time) + [Request(client, time)];
      Within(run, time, time) && Accepts(config, [], run, client) == config.requestsPerMinute + 1
  {
    RepeatedAccepts(config, [], client, repeats, time);
    OneTooMany(config, client, Requests(repeats, time), others, time);
    RequestsWithin(repeats, time);
    RequestsWithin(others, time);
    WithinConcat(Requests(repeats, time), Requests(others, time), time);
    WithinConcat(Requests(repeats, time) + Requests(others, time), [Request(client, time)], time);
  }

  lemma RequestsWithin(clients: seq<string>, time: int)
    ensures Within(Requests(clients, time), time, time)
  {
  }

  lemma WithinConcat(a: seq<Event>, b: seq<Event>, time: int)
    requires Within(a, time, time) && Within(b, time, time)
    ensures Within(a + b, time, time)
  {
  }

  lemma FreshIsAccepted(config: Config, store: seq<Entry>, client: string, time: int)
    requires config.requestsPerMinute > 0 && !Has(store, client)
    ensures Accepts(config, store, [Request(client, time)], client) == 1
  {
  }

  lemma {:induction false} OthersAcceptNothing(config: Config, store: seq<Entry>, others: seq<string>, client: string, time: int)
    requires client !in others
    ensures Accepts(config, store, Requests(others, time), client) == 0
    decreases |others|
  {
    if others == [] {
    } else {
      var e := Request(others[0], time);
      RequestsTail(others, time);
      OthersAcceptNothing(config, Step(config, store, e), others[1..], client, time);
    }
  }
}
