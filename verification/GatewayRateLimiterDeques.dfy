/** What every client's deque satisfies in every run of the gateway's limiter. */
module GatewayRateLimiterDeques {
  import opened GatewayRateLimiter
  import opened GatewayRateLimiterRuns
  import opened GatewayRateLimiterIdeal

  /** In order, no longer than the limit, and not ahead of the clock. */
  predicate Fits(config: Config, requests: seq<int>, now: int) {
    Sorted(requests) && |requests| <= config.requestsPerMinute && forall k :: 0 <= k < |requests| ==> requests[k] <= now
  }

  predicate AllFit(config: Config, store: seq<Entry>, now: int) {
    forall e :: e in store ==> Fits(config, e.state.requests, now)
  }

  lemma PruneFits(config: Config, requests: seq<int>, before: int, now: int)
    requires Fits(config, requests, before) && before <= now
    ensures Fits(config, Prune(requests, now, config.Window()), now)
  {
  }

  lemma {:induction false} WithoutMembers(store: seq<Entry>, clients: set<string>)
    ensures forall e :: e in Without(store, clients) ==> e in store
  {
    if store == [] {
    } else {
      WithoutMembers(store[..|store| - 1], clients);
    }
  }

  lemma {:induction false} CleanedMembers(config: Config, store: seq<Entry>, now: int)
    ensures forall e :: e in Cleaned(config, store, now) ==> exists f :: f in store && e == Pruned(config, f, now)
  {
    if store == [] {
    } else {
      var n := |store| - 1;
      CleanedMembers(config, store[..n], now);
      assert store == store[..n] + [store[n]];
    }
  }

  lemma UseFits(config: Config, store: seq<Entry>, client: string, state: ClientState, now: int)
    requires AllFit(config, store, now) && Fits(config, state.requests, now)
    ensures AllFit(config, Use(store, client, state), now)
  {
    WithoutMembers(store, {client});
  }

  lemma CheckFits(config: Config, store: seq<Entry>, client: string, now: int)
    requires AllFit(config, store, now)
    ensures AllFit(config, Check(config, store, client, now).0, now)
  {
    if config.enabled {
      var present := Admitted(store, client, now);
      assert AllFit(config, present, now);
      var state := StateOf(present, client);
      assert present[IndexOf(present, client)] in present;
      PruneFits(config, state.requests, now, now);
      var kept := Prune(state.requests, now, config.Window());
      if |kept| >= config.requestsPerMinute {
        UseFits(config, present, client, state.(requests := kept), now);
      } else {
        UseFits(config, present, client, ClientState(kept + [now], now), now);
      }
    }
  }

  lemma StepFits(config: Config, store: seq<Entry>, e: Event, before: int)
    requires AllFit(config, store, before) && before <= e.time
    ensures AllFit(config, Step(config, store, e), e.time)
  {
    match e
    case Request(client, time) => CheckFits(config, store, client, time);
    case CountQuery(client, time) =>
      if Has(store, client) {
        assert store[IndexOf(store, client)] in store;
        UseFits(config, store, client, StateOf(store, client), time);
      }
    case Cleanup(time) =>
      CleanedMembers(config, store, time);
      forall f | f in store ensures Fits(config, Pruned(config, f, time).state.requests, time) {
        PruneFits(config, f.state.requests, before, time);
      }
  }

  /** In every run of a clock that does not go back, evictions included, every deque stays in order
      and within the limit. */
  lemma {:induction false} RunFits(config: Config, store: seq<Entry>, events: seq<Event>, from: int) returns (now: int)
    requires AllFit(config, store, from) && InOrder(events, from)
    ensures now == (if events == [] then from else events[|events| - 1].time)
    ensures AllFit(config, Run(config, store, events), now)
    decreases |events|
  {
    now := from;
    if events == [] {
    } else {
      var e := events[0];
      StepFits(config, store, e, from);
      var tail := events[1..];
      assert forall i :: 0 <= i < |tail| ==> tail[i] == events[i + 1];
      now := RunFits(config, Step(config, store, e), tail, e.time);
    }
  }
}
