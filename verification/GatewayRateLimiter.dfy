/** The gateway's per-client sliding-window limiter over an LRU cache (rate_limit/limiter.rs). */
module GatewayRateLimiter {
  import opened Wrappers

  const MAX_TRACKED_CLIENTS: nat := 10_000
  const CLEANUP_THRESHOLD_MULTIPLIER: nat := 2
  const NANOS_PER_SECOND: nat := 1_000_000_000

  datatype Config = Config(enabled: bool, requestsPerMinute: nat, windowSeconds: nat) {
    function Window(): nat {
      windowSeconds * NANOS_PER_SECOND
    }
  }

  /** Request times, oldest first, and the time of the last accepted request. */
  datatype ClientState = ClientState(requests: seq<int>, lastCleanup: int)

  datatype Entry = Entry(client: string, state: ClientState)

  // ---------- the LRU cache, most recently used entry first ----------

  predicate Has(store: seq<Entry>, client: string) {
    exists i :: 0 <= i < |store| && store[i].client == client
  }

  function IndexOf(store: seq<Entry>, client: string): (i: nat)
    requires Has(store, client)
    ensures i < |store| && store[i].client == client
  {
    if store[0].client == client then 0 else
      assert Has(store[1..], client) by {
        var i :| 0 <= i < |store| && store[i].client == client;
        assert store[1..][i - 1].client == client;
      }
      1 + IndexOf(store[1..], client)
  }

  /** The entries of all clients but the given ones, in order. */
  function Without(store: seq<Entry>, clients: set<string>): seq<Entry> {
    if store == [] then []
    else
      var n := |store| - 1;
      Without(store[..n], clients) + (if store[n].client in clients then [] else [store[n]])
  }

  /** Use an entry: it moves to the front with its new state. */
  function Use(store: seq<Entry>, client: string, state: ClientState): seq<Entry> {
    [Entry(client, state)] + Without(store, {client})
  }

  function StateOf(store: seq<Entry>, client: string): ClientState
    requires Has(store, client)
  {
    store[IndexOf(store, client)].state
  }

  /** A new entry at the front; when the cache is full the least recently used entry is dropped. */
  function Put(store: seq<Entry>, client: string, state: ClientState): (after: seq<Entry>)
    ensures Has(after, client)
  {
    var after := [Entry(client, state)] +
      (if |store| >= MAX_TRACKED_CLIENTS then store[..MAX_TRACKED_CLIENTS - 1] else store);
    assert after[0].client == client;
    after
  }

  // ---------- the operations as functions of the cache ----------

  /** Drop requests from the front while they are older than the window. */
  function Prune(requests: seq<int>, now: int, window: int): seq<int> {
    if requests != [] && now - requests[0] > window then Prune(requests[1..], now, window) else requests
  }

  function Admitted(store: seq<Entry>, client: string, now: int): (after: seq<Entry>)
    ensures Has(after, client)
  {
    if Has(store, client) then store else Put(store, client, ClientState([], now))
  }

  function CheckTracked(config: Config, store: seq<Entry>, client: string, now: int): (seq<Entry>, bool)
    requires Has(store, client)
  {
    var state := StateOf(store, client);
    var kept := Prune(state.requests, now, config.Window());
    if |kept| >= config.requestsPerMinute then (Use(store, client, state.(requests := kept)), false)
    else (Use(store, client, ClientState(kept + [now], now)), true)
  }

  function Check(config: Config, store: seq<Entry>, client: string, now: int): (seq<Entry>, bool) {
    if !config.enabled then (store, true) else CheckTracked(config, Admitted(store, client, now), client, now)
  }

  function Query(store: seq<Entry>, client: string): (seq<Entry>, Option<nat>) {
    if Has(store, client) then (Use(store, client, StateOf(store, client)), Some(|StateOf(store, client).requests|))
    else (store, None)
  }

  predicate HasRecent(requests: seq<int>, now: int, window: int) {
    exists i :: 0 <= i < |requests| && now - requests[i] <= window
  }

  predicate Removable(config: Config, state: ClientState, now: int) {
    !HasRecent(state.requests, now, config.Window()) &&
    !(now - state.lastCleanup < config.Window() * CLEANUP_THRESHOLD_MULTIPLIER)
  }

  function Pruned(config: Config, e: Entry, now: int): Entry {
    Entry(e.client, e.state.(requests := Prune(e.state.requests, now, config.Window())))
  }

  /** Drop removable entries and prune the others, keeping the order of use. */
  function Cleaned(config: Config, store: seq<Entry>, now: int): seq<Entry> {
    if store == [] then []
    else
      var n := |store| - 1;
      Cleaned(config, store[..n], now) +
        (if Removable(config, store[n].state, now) then [] else [Pruned(config, store[n], now)])
  }

  predicate Distinct(store: seq<Entry>) {
    forall i, j :: 0 <= i < j < |store| ==> store[i].client != store[j].client
  }

  predicate WellFormed(store: seq<Entry>) {
    Distinct(store) && |store| <= MAX_TRACKED_CLIENTS
  }

  class RateLimiter {
    const config: Config
    var store: seq<Entry>

    constructor (config: Config)
      ensures this.config == config && store == []
    {
      this.config, store := config, [];
    }

    method CheckRateLimit(client: string, now: int) returns (allowed: bool)
      modifies this
      ensures (store, allowed) == Check(config, old(store), client, now)
    {
      if !config.enabled {
        return true;
      }
      if !Has(store, client) {
        store := Put(store, client, ClientState([], now));
      }
      var state := StateOf(store, client);
      var requests := PruneLoop(state.requests, now);
      if |requests| >= config.requestsPerMinute {
        store := Use(store, client, state.(requests := requests));
        return false;
      }
      store := Use(store, client, ClientState(requests + [now], now));
      return true;
    }

    method PruneLoop(requests: seq<int>, now: int) returns (kept: seq<int>)
      ensures kept == Prune(requests, now, config.Window())
    {
      kept := requests;
      while kept != [] && now - kept[0] > config.Window()
        invariant Prune(kept, now, config.Window()) == Prune(requests, now, config.Window())
      {
        kept := kept[1..];
      }
    }

    method GetClientRequestCount(client: string) returns (count: Option<nat>)
      modifies this
      ensures (store, count) == Query(old(store), client)
    {
      if !Has(store, client) {
        return None;
      }
      var state := StateOf(store, client);
      store := Use(store, client, state);
      return Some(|state.requests|);
    }

    /** Collect the keys to remove, remove them, then prune the remaining clients. */
    method CleanupExpired(now: int) returns (evicted: nat)
      requires Distinct(store)
      modifies this
      ensures store == Cleaned(config, old(store), now)
      ensures evicted == |old(store)| - |store|
    {
      ghost var before := store;
      var keys := CollectRemovable(now);
      RemoveAll(keys);
      PruneRemaining(now);
      RemovableKeySet(config, before, now);
      CleanedInSteps(config, before, now, KeySet(keys));
      EvictedCount(config, before, now);
      return |keys|;
    }

    method CollectRemovable(now: int) returns (keys: seq<string>)
      ensures keys == RemovableKeys(config, store, now)
    {
      keys := [];
      for i := 0 to |store|
        invariant keys == RemovableKeys(config, store[..i], now)
      {
        assert store[..i + 1][..i] == store[..i];
        if Removable(config, store[i].state, now) {
          keys := keys + [store[i].client];
        }
      }
      assert store[..|store|] == store;
    }

    method RemoveAll(keys: seq<string>)
      modifies this
      ensures store == Without(old(store), KeySet(keys))
    {
      WithoutNone(store);
      assert KeySet(keys[..0]) == {};
      for i := 0 to |keys|
        invariant store == Without(old(store), KeySet(keys[..i]))
      {
        WithoutTwice(old(store), KeySet(keys[..i]), {keys[i]});
        KeySetStep(keys, i);
        store := Without(store, {keys[i]});
      }
      assert keys[..|keys|] == keys;
    }

    method PruneRemaining(now: int)
      modifies this
      ensures store == PruneAll(config, old(store), now)
    {
      ghost var before := store;
      for i := 0 to |store|
        invariant |store| == |before|
        invariant forall j :: 0 <= j < i ==> store[j] == Pruned(config, before[j], now)
        invariant forall j :: i <= j < |store| ==> store[j] == before[j]
      {
        var e := store[i];
        var kept := PruneLoop(e.state.requests, now);
        store := store[i := Entry(e.client, e.state.(requests := kept))];
      }
    }
  }

  // ---------- the cleanup's three loops ----------

  function RemovableKeys(config: Config, store: seq<Entry>, now: int): seq<string> {
    if store == [] then []
    else
      var n := |store| - 1;
      RemovableKeys(config, store[..n], now) + (if Removable(config, store[n].state, now) then [store[n].client] else [])
  }

  function KeySet(keys: seq<string>): set<string> {
    set i | 0 <= i < |keys| :: keys[i]
  }

  function PruneAll(config: Config, store: seq<Entry>, now: int): (pruned: seq<Entry>)
    ensures |pruned| == |store|
    ensures forall j :: 0 <= j < |store| ==> pruned[j] == Pruned(config, store[j], now)
  {
    seq(|store|, j requires 0 <= j < |store| => Pruned(config, store[j], now))
  }

  lemma KeySetStep(keys: seq<string>, i: nat)
    requires i < |keys|
    ensures KeySet(keys[..i + 1]) == KeySet(keys[..i]) + {keys[i]}
  {
  }

  lemma {:induction false} WithoutNone(store: seq<Entry>)
    ensures Without(store, {}) == store
  {
    if store == [] {
    } else {
      WithoutNone(store[..|store| - 1]);
    }
  }

  lemma {:induction false} WithoutTwice(store: seq<Entry>, a: set<string>, b: set<string>)
    ensures Without(Without(store, a), b) == Without(store, a + b)
  {
    if store == [] {
    } else {
      var n := |store| - 1;
      var front := Without(store[..n], a);
      WithoutTwice(store[..n], a, b);
      if store[n].client in a {
        assert Without(store, a) == front;
      } else {
        assert Without(store, a) == front + [store[n]] && (front + [store[n]])[..|front|] == front;
      }
    }
  }

  lemma {:induction false} RemovableKeyMembers(config: Config, store: seq<Entry>, now: int)
    ensures forall k :: k in RemovableKeys(config, store, now) <==>
      exists i :: 0 <= i < |store| && store[i].client == k && Removable(config, store[i].state, now)
  {
    if store == [] {
    } else {
      var n := |store| - 1;
      RemovableKeyMembers(config, store[..n], now);
      forall k ensures k in RemovableKeys(config, store, now) <==>
        exists i :: 0 <= i < |store| && store[i].client == k && Removable(config, store[i].state, now)
      {
        if k in RemovableKeys(config, store[..n], now) {
          var i :| 0 <= i < n && store[..n][i].client == k && Removable(config, store[..n][i].state, now);
          assert store[i] == store[..n][i];
        }
        if i :| 0 <= i < |store| && store[i].client == k && Removable(config, store[i].state, now) {
          if i < n {
            assert store[i] == store[..n][i];
          }
        }
      }
    }
  }

  lemma RemovableKeySet(config: Config, store: seq<Entry>, now: int)
    requires Distinct(store)
    ensures forall i :: 0 <= i < |store| ==>
      (store[i].client in KeySet(RemovableKeys(config, store, now)) <==> Removable(config, store[i].state, now))
  {
    RemovableKeyMembers(config, store, now);
    var keys := RemovableKeys(config, store, now);
    assert forall k :: k in KeySet(keys) <==> k in keys;
  }

  lemma {:induction false} CleanedInSteps(config: Config, store: seq<Entry>, now: int, removed: set<string>)
    requires forall i :: 0 <= i < |store| ==> (store[i].client in removed <==> Removable(config, store[i].state, now))
    ensures PruneAll(config, Without(store, removed), now) == Cleaned(config, store, now)
  {
    if store == [] {
    } else {
      var n := |store| - 1;
      var front := Without(store[..n], removed);
      CleanedInSteps(config, store[..n], now, removed);
      if store[n].client in removed {
        assert Without(store, removed) == front;
      } else {
        assert Without(store, removed) == front + [store[n]] && (front + [store[n]])[..|front|] == front;
      }
    }
  }

  lemma {:induction false} EvictedCount(config: Config, store: seq<Entry>, now: int)
    ensures |RemovableKeys(config, store, now)| + |Cleaned(config, store, now)| == |store|
  {
    if store == [] {
    } else {
      EvictedCount(config, store[..|store| - 1], now);
    }
  }
}
