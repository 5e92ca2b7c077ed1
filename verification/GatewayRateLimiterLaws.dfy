/** What the gateway's cleanup drops, and what its count query tells. */
module GatewayRateLimiterLaws {
  import opened Wrappers
  import opened GatewayRateLimiter
  import opened GatewayRateLimiterRuns
  import opened GatewayRateLimiterIdeal

  /** A request within the window, or one accepted less than two windows ago. */
  predicate Stays(config: Config, state: ClientState, now: int) {
    || (exists i :: 0 <= i < |state.requests| && now - state.requests[i] <= config.Window())
    || now - state.lastCleanup < 2 * config.Window()
  }

  lemma HasSnoc(front: seq<Entry>, e: Entry, client: string)
    ensures Has(front + [e], client) <==> Has(front, client) || e.client == client
  {
    var all := front + [e];
    assert all[|front|] == e && forall i :: 0 <= i < |front| ==> all[i] == front[i];
  }

  lemma CleanedHas(config: Config, front: seq<Entry>, e: Entry, now: int, client: string)
    ensures Has(Cleaned(config, front + [e], now), client)
      <==> Has(Cleaned(config, front, now), client) || (e.client == client && Stays(config, e.state, now))
  {
    var store := front + [e];
    assert store[..|front|] == front;
    if Removable(config, e.state, now) {
      assert Cleaned(config, store, now) == Cleaned(config, front, now) + [];
      assert Cleaned(config, front, now) + [] == Cleaned(config, front, now);
    } else {
      HasSnoc(Cleaned(config, front, now), Pruned(config, e, now), client);
    }
  }

  lemma {:induction false} CleanedHasOnlyClients(config: Config, store: seq<Entry>, now: int, client: string)
    requires !Has(store, client)
    ensures !Has(Cleaned(config, store, now), client)
  {
    if store == [] {
    } else {
      var (front, e) := (store[..|store| - 1], store[|store| - 1]);
      assert store == front + [e];
      HasSnoc(front, e, client);
      CleanedHasOnlyClients(config, front, now, client);
      CleanedHas(config, front, e, now, client);
    }
  }

  /** A cleanup drops a client exactly when none of its requests lies within the window and the last
      one accepted is at least two windows old. */
  lemma {:induction false} CleanupKeepsExactly(config: Config, store: seq<Entry>, now: int, i: nat)
    requires Distinct(store) && i < |store|
    ensures Has(Cleaned(config, store, now), store[i].client) <==> Stays(config, store[i].state, now)
  {
    var n := |store| - 1;
    var (front, e) := (store[..n], store[n]);
    assert store == front + [e];
    CleanedHas(config, front, e, now, store[i].client);
    if i == n {
      CleanedHasOnlyClients(config, front, now, e.client);
    } else {
      CleanupKeepsExactly(config, front, now, i);
    }
  }

  lemma {:induction false} PruneOnce(requests: seq<int>, now: int, window: int)
    ensures var kept := Prune(requests, now, window);
      Prune(kept, now, window) == kept && (window >= 0 ==> Prune(kept + [now], now, window) == kept + [now])
  {
    if requests != [] && now - requests[0] > window {
      PruneOnce(requests[1..], now, window);
    }
  }

  /** The state that a check leaves with a client is already pruned. */
  lemma CheckedIsPruned(config: Config, store: seq<Entry>, client: string, now: int)
    requires config.enabled
    ensures var after := Check(config, store, client, now).0;
      Has(after, client) && Prune(StateOf(after, client).requests, now, config.Window()) == StateOf(after, client).requests
  {
    var state := StateOf(Admitted(store, client, now), client);
    PruneOnce(state.requests, now, config.Window());
    assert Check(config, store, client, now).0[0].client == client;
  }

  /** Asked right after a check, the count is that of the client's accepted requests in the window. */
  lemma QueryAfterCheck(config: Config, store: seq<Entry>, log: Log, client: string, now: int)
    requires config.enabled && Agree(config, store, log, now)
    requires Has(store, client) || |store| < MAX_TRACKED_CLIENTS
    ensures Query(Check(config, store, client, now).0, client).1
      == Some(CountRecent(LogOf(IdealStep(config, log, Request(client, now)), client), now, config.Window()))
  {
    RequestAgrees(config, store, log, client, now);
    CheckedIsPruned(config, store, client, now);
    PresentAnswer(config, Check(config, store, client, now).0, IdealStep(config, log, Request(client, now)), client, now);
  }
}
