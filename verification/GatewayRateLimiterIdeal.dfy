/** The gateway's limiter against an ideal limiter that keeps every accepted request. */
module GatewayRateLimiterIdeal {
  import opened GatewayRateLimiter
  import opened GatewayRateLimiterRuns

  /** For each client, the times of all its accepted requests, oldest first. */
  type Log = map<string, seq<int>>

  function LogOf(log: Log, client: string): seq<int> {
    if client in log then log[client] else []
  }

  /** How many of the times lie within the window that ends now. */
  function CountRecent(times: seq<int>, now: int, window: int): nat {
    if times == [] then 0
    else (if now - times[0] <= window then 1 else 0) + CountRecent(times[1..], now, window)
  }

  predicate IdealAllows(config: Config, log: Log, client: string, now: int) {
    !config.enabled || CountRecent(LogOf(log, client), now, config.Window()) < config.requestsPerMinute
  }

  function IdealStep(config: Config, log: Log, e: Event): Log {
    if e.Request? && config.enabled && IdealAllows(config, log, e.client, e.time)
    then log[e.client := LogOf(log, e.client) + [e.time]]
    else log
  }

  /** The answers to the requests of a run, in order. */
  function Answers(config: Config, store: seq<Entry>, events: seq<Event>): seq<bool>
    decreases |events|
  {
    if events == [] then []
    else
      var e := events[0];
      (if e.Request? then [Check(config, store, e.client, e.time).1] else []) +
      Answers(config, Step(config, store, e), events[1..])
  }

  function IdealAnswers(config: Config, log: Log, events: seq<Event>): seq<bool>
    decreases |events|
  {
    if events == [] then []
    else
      var e := events[0];
      (if e.Request? then [IdealAllows(config, log, e.client, e.time)] else []) +
      IdealAnswers(config, IdealStep(config, log, e), events[1..])
  }

  predicate InOrder(events: seq<Event>, from: int) {
    (forall i :: 0 <= i < |events| ==> from <= events[i].time) &&
    (forall i, j :: 0 <= i < j < |events| ==> events[i].time <= events[j].time)
  }

  /** No event of the run makes the full cache drop an entry. */
  predicate NoEviction(config: Config, store: seq<Entry>, events: seq<Event>)
    decreases |events|
  {
    events == [] ||
    (!(events[0].Request? && !Has(store, events[0].client) && |store| >= MAX_TRACKED_CLIENTS) &&
      NoEviction(config, Step(config, store, events[0]), events[1..]))
  }

  // ---------- one deque against one log ----------

  predicate Sorted(times: seq<int>) {
    forall i, j :: 0 <= i < j < |times| ==> times[i] <= times[j]
  }

  /** The deque is the end of the log, and everything before it is older than the window. */
  predicate Mirrors(requests: seq<int>, log: seq<int>, now: int, window: int) {
    && |requests| <= |log|
    && log[|log| - |requests|..] == requests
    && forall k :: 0 <= k < |log| - |requests| ==> now - log[k] > window
  }

  lemma {:induction false} PruneMirrors(requests: seq<int>, log: seq<int>, before: int, now: int, window: int)
    requires Mirrors(requests, log, before, window) && before <= now
    ensures Mirrors(Prune(requests, now, window), log, now, window)
  {
    if requests == [] || now - requests[0] <= window {
    } else {
      var dropped := |log| - |requests|;
      assert log[dropped] == requests[0];
      assert log[dropped + 1..] == requests[1..];
      assert Mirrors(requests[1..], log, now, window);
      PruneMirrors(requests[1..], log, now, now, window);
    }
  }

  lemma {:induction false} CountAll(times: seq<int>, now: int, window: int)
    requires forall k :: 0 <= k < |times| ==> now - times[k] <= window
    ensures CountRecent(times, now, window) == |times|
  {
    if times == [] {
    } else {
      CountAll(times[1..], now, window);
    }
  }

  lemma {:induction false} CountSkips(stale: seq<int>, times: seq<int>, now: int, window: int)
    requires forall k :: 0 <= k < |stale| ==> now - stale[k] > window
    ensures CountRecent(stale + times, now, window) == CountRecent(times, now, window)
  {
    if stale == [] {
      assert stale + times == times;
    } else {
      assert (stale + times)[1..] == stale[1..] + times;
      CountSkips(stale[1..], times, now, window);
    }
  }

  lemma {:induction false} PruneStops(requests: seq<int>, now: int, window: int)
    ensures var kept := Prune(requests, now, window);
      |kept| <= |requests| && requests[|requests| - |kept|..] == kept && (kept != [] ==> now - kept[0] <= window)
  {
    if requests == [] || now - requests[0] <= window {
    } else {
      PruneStops(requests[1..], now, window);
    }
  }

  lemma EndOfSorted(log: seq<int>, dropped: nat, now: int, window: int)
    requires Sorted(log) && dropped < |log| && now - log[dropped] <= window
    ensures CountRecent(log[dropped..], now, window) == |log| - dropped
  {
    var kept := log[dropped..];
    assert forall k :: 0 <= k < |kept| ==> kept[k] == log[dropped + k];
    CountAll(kept, now, window);
  }

  /** After pruning, the deque holds as many requests as the log has within the window. */
  lemma PrunedCount(requests: seq<int>, log: seq<int>, before: int, now: int, window: int)
    requires Mirrors(requests, log, before, window) && before <= now && Sorted(log)
    ensures |Prune(requests, now, window)| == CountRecent(log, now, window)
  {
    var kept := Prune(requests, now, window);
    PruneMirrors(requests, log, before, now, window);
    PruneStops(requests, now, window);
    var dropped := |log| - |kept|;
    assert log == log[..dropped] + kept;
    CountSkips(log[..dropped], kept, now, window);
    if kept != [] {
      EndOfSorted(log, dropped, now, window);
    }
  }

  // ---------- the cache, client by client ----------

  function RequestsOf(store: seq<Entry>, client: string): seq<int> {
    if Has(store, client) then StateOf(store, client).requests else []
  }

  lemma RequestsAt(store: seq<Entry>, i: nat)
    requires Distinct(store) && i < |store|
    ensures RequestsOf(store, store[i].client) == store[i].state.requests
  {
  }

  lemma UseRequests(store: seq<Entry>, client: string, state: ClientState, other: string)
    requires Distinct(store)
    ensures RequestsOf(Use(store, client, state), other) == if other == client then state.requests else RequestsOf(store, other)
  {
    var after := Use(store, client, state);
    UseWellFormed(store, client, state);
    if other == client {
      RequestsAt(after, 0);
    } else if Has(store, client) {
      var p := IndexOf(store, client);
      WithoutCut(store, p);
      CutRequests(store, p, other);
      ConsRequests(Entry(client, state), Cut(store, p), other);
    } else {
      WithoutAbsent(store, client);
      ConsRequests(Entry(client, state), store, other);
    }
  }

  lemma ConsRequests(e: Entry, rest: seq<Entry>, other: string)
    requires Distinct([e] + rest) && other != e.client
    ensures RequestsOf([e] + rest, other) == RequestsOf(rest, other)
  {
  }

  lemma CutRequests(store: seq<Entry>, p: nat, other: string)
    requires Distinct(store) && p < |store| && other != store[p].client
    ensures RequestsOf(Cut(store, p), other) == RequestsOf(store, other)
  {
    DistinctCut(store, p);
    var cut := Cut(store, p);
    if Has(store, other) {
      var i := IndexOf(store, other);
      var k := if i < p then i else i - 1;
      assert cut[k] == store[i];
      RequestsAt(cut, k);
    } else {
      assert !Has(cut, other);
    }
  }

  lemma PutRequests(store: seq<Entry>, client: string, now: int, other: string)
    requires Distinct(store) && !Has(store, client) && |store| < MAX_TRACKED_CLIENTS
    ensures Distinct(Admitted(store, client, now))
    ensures RequestsOf(Admitted(store, client, now), other) == RequestsOf(store, other)
  {
  }

  lemma SnocRequests(front: seq<Entry>, e: Entry, other: string)
    requires Distinct(front + [e]) && other != e.client
    ensures RequestsOf(front + [e], other) == RequestsOf(front, other)
  {
    var all := front + [e];
    assert forall i :: 0 <= i < |front| ==> front[i] == all[i];
    if Has(front, other) {
      var i := IndexOf(front, other);
      RequestsAt(front, i);
      RequestsAt(all, i);
    } else {
      assert !Has(all, other);
    }
  }

  /** What cleaning leaves of a client's requests: the pruned ones, or none when all are old. */
  predicate CleanedTo(config: Config, before: seq<int>, after: seq<int>, now: int) {
    after == Prune(before, now, config.Window()) || (after == [] && !HasRecent(before, now, config.Window()))
  }

  lemma OwnEntryCleaned(config: Config, front: seq<Entry>, e: Entry, now: int)
    requires Distinct(front + [e]) && Distinct(Cleaned(config, front + [e], now))
    requires forall j :: 0 <= j < |Cleaned(config, front, now)| ==> Has(front, Cleaned(config, front, now)[j].client)
    ensures CleanedTo(config, RequestsOf(front + [e], e.client), RequestsOf(Cleaned(config, front + [e], now), e.client), now)
  {
    var store := front + [e];
    assert store[..|front|] == front;
    RequestsAt(store, |front|);
    assert !Has(front, e.client) by {
      assert forall i :: 0 <= i < |front| ==> store[i] == front[i];
    }
    if Removable(config, e.state, now) {
      assert Cleaned(config, store, now) == Cleaned(config, front, now);
      assert !Has(Cleaned(config, front, now), e.client);
    } else {
      RequestsAt(Cleaned(config, store, now), |Cleaned(config, front, now)|);
    }
  }

  lemma OtherEntryCleaned(config: Config, front: seq<Entry>, e: Entry, now: int, client: string)
    requires Distinct(front + [e]) && Distinct(Cleaned(config, front + [e], now)) && client != e.client
    ensures RequestsOf(front + [e], client) == RequestsOf(front, client)
    ensures RequestsOf(Cleaned(config, front + [e], now), client) == RequestsOf(Cleaned(config, front, now), client)
  {
    assert (front + [e])[..|front|] == front;
    SnocRequests(front, e, client);
    if Removable(config, e.state, now) {
      assert Cleaned(config, front + [e], now) == Cleaned(config, front, now);
    } else {
      SnocRequests(Cleaned(config, front, now), Pruned(config, e, now), client);
    }
  }

  lemma {:induction false} CleanedRequests(config: Config, store: seq<Entry>, now: int, client: string)
    requires Distinct(store)
    ensures CleanedTo(config, RequestsOf(store, client), RequestsOf(Cleaned(config, store, now), client), now)
  {
    if store == [] {
    } else {
      var (front, e) := (store[..|store| - 1], store[|store| - 1]);
      assert store == front + [e];
      CleanedWellFormed(config, front, now);
      CleanedWellFormed(config, store, now);
      if client == e.client {
        OwnEntryCleaned(config, front, e, now);
      } else {
        CleanedRequests(config, front, now, client);
        OtherEntryCleaned(config, front, e, now, client);
      }
    }
  }

  // ---------- agreement along a run ----------

  /** One client's deque mirrors its log, which is in order and not ahead of the clock. */
  predicate AgreeFor(window: int, requests: seq<int>, times: seq<int>, now: int) {
    Mirrors(requests, times, now, window) && Sorted(times) && forall k :: 0 <= k < |times| ==> times[k] <= now
  }

  ghost predicate Agree(config: Config, store: seq<Entry>, log: Log, now: int) {
    WellFormed(store) && forall c: string :: AgreeFor(config.Window(), RequestsOf(store, c), LogOf(log, c), now)
  }

  lemma AgreeLater(config: Config, store: seq<Entry>, log: Log, before: int, now: int)
    requires Agree(config, store, log, before) && before <= now
    ensures Agree(config, store, log, now)
  {
  }

  /** Same requests for every client, same agreement. */
  lemma SameRequestsAgree(config: Config, store: seq<Entry>, after: seq<Entry>, log: Log, now: int)
    requires Agree(config, store, log, now) && WellFormed(after)
    requires forall c: string :: RequestsOf(after, c) == RequestsOf(store, c)
    ensures Agree(config, after, log, now)
  {
  }

  lemma AdmittedAgrees(config: Config, store: seq<Entry>, log: Log, client: string, now: int)
    requires Agree(config, store, log, now)
    requires Has(store, client) || |store| < MAX_TRACKED_CLIENTS
    ensures Agree(config, Admitted(store, client, now), log, now)
  {
    if !Has(store, client) {
      forall c: string ensures RequestsOf(Admitted(store, client, now), c) == RequestsOf(store, c) {
        PutRequests(store, client, now, c);
      }
      PutWellFormed(store, client, ClientState([], now));
      SameRequestsAgree(config, store, Admitted(store, client, now), log, now);
    }
  }

  /** Using a client's entry with a deque that agrees with its log keeps the agreement. */
  lemma UseAgrees(config: Config, store: seq<Entry>, log: Log, log': Log, client: string, state: ClientState, now: int)
    requires Agree(config, store, log, now) && Has(store, client)
    requires AgreeFor(config.Window(), state.requests, LogOf(log', client), now)
    requires forall c: string :: c != client ==> LogOf(log', c) == LogOf(log, c)
    ensures Agree(config, Use(store, client, state), log', now)
  {
    UseWellFormed(store, client, state);
    forall c: string ensures AgreeFor(config.Window(), RequestsOf(Use(store, client, state), c), LogOf(log', c), now) {
      UseRequests(store, client, state, c);
      assert AgreeFor(config.Window(), RequestsOf(store, c), LogOf(log, c), now);
    }
  }

  lemma PresentAnswer(config: Config, store: seq<Entry>, log: Log, client: string, now: int)
    requires Agree(config, store, log, now) && Has(store, client)
    ensures var kept := Prune(StateOf(store, client).requests, now, config.Window());
      |kept| == CountRecent(LogOf(log, client), now, config.Window()) &&
      AgreeFor(config.Window(), kept, LogOf(log, client), now)
  {
    var requests := StateOf(store, client).requests;
    assert AgreeFor(config.Window(), RequestsOf(store, client), LogOf(log, client), now);
    PrunedCount(requests, LogOf(log, client), now, now, config.Window());
    PruneMirrors(requests, LogOf(log, client), now, now, config.Window());
  }

  lemma AppendAgrees(window: int, requests: seq<int>, times: seq<int>, now: int)
    requires AgreeFor(window, requests, times, now)
    ensures AgreeFor(window, requests + [now], times + [now], now)
  {
  }

  lemma LogUpdate(log: Log, client: string, times: seq<int>)
    ensures LogOf(log[client := times], client) == times
    ensures forall c: string :: c != client ==> LogOf(log[client := times], c) == LogOf(log, c)
  {
  }

  lemma AcceptAgrees(config: Config, store: seq<Entry>, log: Log, client: string, kept: seq<int>, now: int)
    requires Agree(config, store, log, now) && Has(store, client)
    requires AgreeFor(config.Window(), kept, LogOf(log, client), now)
    ensures Agree(config, Use(store, client, ClientState(kept + [now], now)), log[client := LogOf(log, client) + [now]], now)
  {
    var times := LogOf(log, client) + [now];
    AppendAgrees(config.Window(), kept, LogOf(log, client), now);
    LogUpdate(log, client, times);
    UseAgrees(config, store, log, log[client := times], client, ClientState(kept + [now], now), now);
  }

  lemma TrackedAnswer(config: Config, store: seq<Entry>, log: Log, client: string, now: int)
    requires config.enabled && Agree(config, store, log, now) && Has(store, client)
    ensures var state := StateOf(store, client);
      var kept := Prune(state.requests, now, config.Window());
      AgreeFor(config.Window(), kept, LogOf(log, client), now) &&
      CheckTracked(config, store, client, now) ==
        (if IdealAllows(config, log, client, now) then (Use(store, client, ClientState(kept + [now], now)), true)
         else (Use(store, client, state.(requests := kept)), false))
  {
    PresentAnswer(config, store, log, client, now);
  }

  lemma TrackedAgrees(config: Config, store: seq<Entry>, log: Log, client: string, now: int)
    requires config.enabled && Agree(config, store, log, now) && Has(store, client)
    ensures CheckTracked(config, store, client, now).1 == IdealAllows(config, log, client, now)
    ensures Agree(config, CheckTracked(config, store, client, now).0, IdealStep(config, log, Request(client, now)), now)
  {
    var state := StateOf(store, client);
    var kept := Prune(state.requests, now, config.Window());
    TrackedAnswer(config, store, log, client, now);
    if IdealAllows(config, log, client, now) {
      AcceptAgrees(config, store, log, client, kept, now);
    } else {
      UseAgrees(config, store, log, log, client, state.(requests := kept), now);
    }
  }

  /** The limiter's answer is the ideal one, and both go on in agreement. */
  lemma RequestAgrees(config: Config, store: seq<Entry>, log: Log, client: string, now: int)
    requires config.enabled && Agree(config, store, log, now)
    requires Has(store, client) || |store| < MAX_TRACKED_CLIENTS
    ensures Check(config, store, client, now).1 == IdealAllows(config, log, client, now)
    ensures Agree(config, Check(config, store, client, now).0, IdealStep(config, log, Request(client, now)), now)
  {
    AdmittedAgrees(config, store, log, client, now);
    TrackedAgrees(config, Admitted(store, client, now), log, client, now);
  }

  lemma CleanupAgrees(config: Config, store: seq<Entry>, log: Log, now: int)
    requires Agree(config, store, log, now)
    ensures Agree(config, Cleaned(config, store, now), log, now)
  {
    CleanedWellFormed(config, store, now);
    forall c: string ensures AgreeFor(config.Window(), RequestsOf(Cleaned(config, store, now), c), LogOf(log, c), now) {
      var requests := RequestsOf(store, c);
      assert AgreeFor(config.Window(), requests, LogOf(log, c), now);
      CleanedRequests(config, store, now, c);
      PruneMirrors(requests, LogOf(log, c), now, now, config.Window());
      if !HasRecent(requests, now, config.Window()) {
        NothingRecent(requests, LogOf(log, c), now, config.Window());
      }
    }
  }

  lemma NothingRecent(requests: seq<int>, log: seq<int>, now: int, window: int)
    requires Mirrors(requests, log, now, window) && !HasRecent(requests, now, window)
    ensures Mirrors([], log, now, window)
  {
  }

  lemma QueryAgrees(config: Config, store: seq<Entry>, log: Log, client: string, now: int)
    requires Agree(config, store, log, now)
    ensures Agree(config, Query(store, client).0, log, now)
  {
    if Has(store, client) {
      UseWellFormed(store, client, StateOf(store, client));
      forall c: string ensures RequestsOf(Query(store, client).0, c) == RequestsOf(store, c) {
        UseRequests(store, client, StateOf(store, client), c);
      }
      SameRequestsAgree(config, store, Query(store, client).0, log, now);
    }
  }

  lemma StepAgrees(config: Config, store: seq<Entry>, log: Log, e: Event, before: int)
    requires config.enabled && Agree(config, store, log, before) && before <= e.time
    requires e.Request? ==> Has(store, e.client) || |store| < MAX_TRACKED_CLIENTS
    ensures e.Request? ==> Check(config, store, e.client, e.time).1 == IdealAllows(config, log, e.client, e.time)
    ensures Agree(config, Step(config, store, e), IdealStep(config, log, e), e.time)
  {
    AgreeLater(config, store, log, before, e.time);
    match e
    case Request(client, time) => RequestAgrees(config, store, log, client, time);
    case CountQuery(client, time) => QueryAgrees(config, store, log, client, time);
    case Cleanup(time) => CleanupAgrees(config, store, log, time);
  }

  /** While nothing is evicted, every answer of a run is the ideal limiter's. */
  lemma {:induction false} AnswersAreIdeal(config: Config, store: seq<Entry>, log: Log, events: seq<Event>, now: int)
    requires config.enabled && Agree(config, store, log, now)
    requires InOrder(events, now) && NoEviction(config, store, events)
    ensures Answers(config, store, events) == IdealAnswers(config, log, events)
    decreases |events|
  {
    if events == [] {
    } else {
      var e := events[0];
      StepAgrees(config, store, log, e, now);
      assert InOrder(events[1..], e.time) by {
        assert forall i :: 0 <= i < |events[1..]| ==> events[1..][i] == events[i + 1];
      }
      AnswersAreIdeal(config, Step(config, store, e), IdealStep(config, log, e), events[1..], e.time);
    }
  }

  // ---------- when nothing is evicted, and what follows for cleanups ----------

  lemma {:induction false} FewClientsNoEviction(config: Config, store: seq<Entry>, events: seq<Event>)
    requires config.enabled && WellFormed(store)
    requires |Clients(store) + TouchedBy(events)| <= MAX_TRACKED_CLIENTS
    ensures NoEviction(config, store, events)
    decreases |events|
  {
    if events == [] {
    } else {
      var e := events[0];
      if e.Request? && !Has(store, e.client) {
        ClientsCount(store);
        SubsetCount(Clients(store) + {e.client}, Clients(store) + TouchedBy(events));
      }
      StepWellFormed(config, store, e);
      StepClients(config, store, e);
      SubsetCount(Clients(Step(config, store, e)) + TouchedBy(events[1..]), Clients(store) + TouchedBy(events));
      FewClientsNoEviction(config, Step(config, store, e), events[1..]);
    }
  }

  lemma UseClients(store: seq<Entry>, client: string, state: ClientState)
    requires Distinct(store)
    ensures Clients(Use(store, client, state)) <= Clients(store) + {client}
  {
    if Has(store, client) {
      WithoutCut(store, IndexOf(store, client));
    } else {
      WithoutAbsent(store, client);
    }
  }

  lemma StepClients(config: Config, store: seq<Entry>, e: Event)
    requires WellFormed(store)
    ensures Clients(Step(config, store, e)) <= Clients(store) + Touch(e)
  {
    match e
    case Request(client, time) =>
      var present := Admitted(store, client, time);
      if !Has(store, client) {
        PutWellFormed(store, client, ClientState([], time));
      }
      assert Clients(present) <= Clients(store) + {client};
      forall state ensures Clients(Use(present, client, state)) <= Clients(present) + {client} {
        UseClients(present, client, state);
      }
    case CountQuery(client, _) =>
      if Has(store, client) {
        UseClients(store, client, StateOf(store, client));
      }
    case Cleanup(time) =>
      CleanedClientsSeen(config, store, time, Clients(store));
  }

  lemma {:induction false} DisabledIsIdeal(config: Config, store: seq<Entry>, log: Log, events: seq<Event>)
    requires !config.enabled
    ensures Answers(config, store, events) == IdealAnswers(config, log, events)
    decreases |events|
  {
    if events == [] {
    } else {
      DisabledIsIdeal(config, Step(config, store, events[0]), log, events[1..]);
    }
  }

  /** In a run that touches at most 10,000 clients, every answer is the ideal limiter's. */
  lemma FewClientsAnswersAreIdeal(config: Config, events: seq<Event>, from: int)
    requires InOrder(events, from) && |TouchedBy(events)| <= MAX_TRACKED_CLIENTS
    ensures Answers(config, [], events) == IdealAnswers(config, map[], events)
  {
    if !config.enabled {
      DisabledIsIdeal(config, [], map[], events);
      return;
    }
    assert Clients([]) + TouchedBy(events) == TouchedBy(events);
    FewClientsNoEviction(config, [], events);
    AnswersAreIdeal(config, [], map[], events, from);
  }

  function RequestsOnly(events: seq<Event>): seq<Event> {
    if events == [] then []
    else (if events[0].Request? then [events[0]] else []) + RequestsOnly(events[1..])
  }

  lemma {:induction false} IdealIgnoresOthers(config: Config, log: Log, events: seq<Event>)
    ensures IdealAnswers(config, log, events) == IdealAnswers(config, log, RequestsOnly(events))
    decreases |events|
  {
    if events == [] {
    } else {
      var e := events[0];
      IdealIgnoresOthers(config, IdealStep(config, log, e), events[1..]);
      if e.Request? {
        assert RequestsOnly(events)[0] == e && RequestsOnly(events)[1..] == RequestsOnly(events[1..]);
      } else {
        assert RequestsOnly(events) == RequestsOnly(events[1..]);
        assert IdealStep(config, log, e) == log;
      }
    }
  }

  lemma {:induction false} RequestsOnlyTouch(events: seq<Event>)
    ensures TouchedBy(RequestsOnly(events)) <= TouchedBy(events)
  {
    if events == [] {
    } else {
      var rest := RequestsOnly(events[1..]);
      RequestsOnlyTouch(events[1..]);
      if events[0].Request? {
        assert RequestsOnly(events) == [events[0]] + rest && ([events[0]] + rest)[1..] == rest;
      } else {
        assert RequestsOnly(events) == rest;
      }
    }
  }

  lemma {:induction false} RequestsOnlyInOrder(events: seq<Event>, from: int)
    requires InOrder(events, from)
    ensures InOrder(RequestsOnly(events), from)
    decreases |events|
  {
    if events == [] {
    } else {
      var tail := events[1..];
      assert forall i :: 0 <= i < |tail| ==> tail[i] == events[i + 1];
      RequestsOnlyInOrder(tail, events[0].time);
    }
  }

  /** Cleanups and count queries, at whatever times, change no answer of such a run. */
  lemma CleanupNeverMatters(config: Config, events: seq<Event>, from: int)
    requires InOrder(events, from) && |TouchedBy(events)| <= MAX_TRACKED_CLIENTS
    ensures Answers(config, [], events) == Answers(config, [], RequestsOnly(events))
  {
    RequestsOnlyInOrder(events, from);
    RequestsOnlyTouch(events);
    SubsetCount(TouchedBy(RequestsOnly(events)), TouchedBy(events));
    FewClientsAnswersAreIdeal(config, events, from);
    FewClientsAnswersAreIdeal(config, RequestsOnly(events), from);
    IdealIgnoresOthers(config, map[], events);
  }
}
