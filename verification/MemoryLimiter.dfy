/** The in-memory sliding window (pkg/ratelimit/memory_limiter.go). */
module MemoryLimiter {
  import opened RateLimitTypes
  import opened RequestTimes

  function KeyOf(clientIP: string, action: Action): string {
    clientIP + ":" + action.Name()
  }

  /** Two clients or actions never share an entry, and a key's end tells its action. */
  lemma KeyTellsAction(clientIP: string, action: Action)
    ensures |KeyOf(clientIP, action)| >= 5
    ensures action.Login? <==> KeyOf(clientIP, action)[|KeyOf(clientIP, action)| - 5..] == "login"
  {
    var key := KeyOf(clientIP, action);
    assert key[|key| - 5..] == action.Name()[|action.Name()| - 5..];
    assert "register"[3..] == "ister" && "login"[0..] == "login";
  }

  lemma KeyInjective(ip: string, action: Action, ip': string, action': Action)
    requires KeyOf(ip, action) == KeyOf(ip', action')
    ensures ip == ip' && action == action'
  {
    KeyTellsAction(ip, action);
    KeyTellsAction(ip', action');
    var key := KeyOf(ip, action);
    assert ip == key[..|key| - |action.Name()| - 1];
    assert ip' == key[..|key| - |action'.Name()| - 1];
  }

  /** The attempts strictly inside the window that ends now. */
  function Unexpired(attempts: seq<int>, cutoff: int): seq<int> {
    if attempts == [] then []
    else
      var n := |attempts| - 1;
      Unexpired(attempts[..n], cutoff) + (if attempts[n] > cutoff then [attempts[n]] else [])
  }

  type Clients = map<string, seq<int>>

  function AttemptsOf(clients: Clients, key: string): seq<int> {
    if key in clients then clients[key] else []
  }

  function CheckLimit(clients: Clients, key: string, limit: RateLimit, now: int): (Clients, Verdict) {
    var valid := Unexpired(AttemptsOf(clients, key), now - limit.window);
    if |valid| >= limit.maxAttempts then
      var verdict :=
        if valid == [] then Panics
        else
          var retryAfter := limit.window - (now - valid[0]);
          Denied(if retryAfter < 0 then 0 else retryAfter);
      (clients[key := valid], verdict)
    else (clients[key := valid + [now]], Allowed)
  }

  /** The limit that the cleanup picks for a key: by the key's last five characters. */
  function LimitFor(key: string, loginLimit: RateLimit, registerLimit: RateLimit): RateLimit
    requires |key| >= 5
  {
    if key[|key| - 5..] == "login" then loginLimit else registerLimit
  }

  predicate AllExpired(attempts: seq<int>, cutoff: int) {
    forall i :: 0 <= i < |attempts| ==> attempts[i] <= cutoff
  }

  predicate KeysLong(clients: Clients) {
    forall key :: key in clients ==> |key| >= 5
  }

  predicate Stale(key: string, attempts: seq<int>, loginLimit: RateLimit, registerLimit: RateLimit, now: int)
    requires |key| >= 5
  {
    AllExpired(attempts, now - LimitFor(key, loginLimit, registerLimit).window)
  }

  function Cleaned(clients: Clients, loginLimit: RateLimit, registerLimit: RateLimit, now: int): Clients
    requires KeysLong(clients)
  {
    map key | key in clients && !Stale(key, clients[key], loginLimit, registerLimit, now) :: clients[key]
  }

  class MemoryRateLimiter {
    var clients: Clients
    const loginLimit: RateLimit
    const registerLimit: RateLimit

    constructor (loginLimit: RateLimit, registerLimit: RateLimit)
      ensures this.loginLimit == loginLimit && this.registerLimit == registerLimit && clients == map[]
    {
      this.loginLimit, this.registerLimit, clients := loginLimit, registerLimit, map[];
    }

    function LimitOf(action: Action): RateLimit {
      if action.Login? then loginLimit else registerLimit
    }

    method Allow(clientIP: string, action: Action, now: int) returns (verdict: Verdict)
      modifies this
      ensures (clients, verdict) == CheckLimit(old(clients), KeyOf(clientIP, action), LimitOf(action), now)
    {
      var key, limit := KeyOf(clientIP, action), LimitOf(action);
      var attempts := if key in clients then clients[key] else [];
      var cutoff := now - limit.window;
      var valid: seq<int> := [];
      for i := 0 to |attempts|
        invariant valid == Unexpired(attempts[..i], cutoff)
      {
        assert attempts[..i + 1][..i] == attempts[..i];
        if attempts[i] > cutoff {
          valid := valid + [attempts[i]];
        }
      }
      assert attempts[..|attempts|] == attempts;
      clients := clients[key := valid];
      if |valid| >= limit.maxAttempts {
        if valid == [] {
          return Panics;
        }
        var retryAfter := limit.window - (now - valid[0]);
        return Denied(if retryAfter < 0 then 0 else retryAfter);
      }
      clients := clients[key := valid + [now]];
      assert clients == old(clients)[key := valid + [now]];
      return Allowed;
    }

    /** Collect the stale keys in any order, then delete them. */
    method Cleanup(now: int) returns (removed: nat)
      requires KeysLong(clients)
      modifies this
      ensures clients == Cleaned(old(clients), loginLimit, registerLimit, now)
      ensures removed == |old(clients)| - |clients|
    {
      var keysToRemove := CollectStale(now);
      ghost var before := clients;
      removed := DeleteAll(keysToRemove);
      CleanedIsWithoutStale(before, loginLimit, registerLimit, now, keysToRemove);
    }

    method DeleteAll(keys: set<string>) returns (removed: nat)
      requires keys <= clients.Keys
      modifies this
      ensures clients == old(clients) - keys
      ensures removed == |old(clients)| - |clients|
    {
      removed := 0;
      var todo := keys;
      while todo != {}
        invariant todo <= keys && todo <= clients.Keys
        invariant clients == old(clients) - (keys - todo)
        invariant removed == |old(clients)| - |clients|
        decreases |todo|
      {
        var key :| key in todo;
        RemoveOne(clients, key);
        RemoveNext(old(clients), keys, todo, key);
        todo := todo - {key};
        clients := clients - {key};
        removed := removed + 1;
      }
      assert keys - {} == keys;
    }

    method CollectStale(now: int) returns (stale: set<string>)
      requires KeysLong(clients)
      ensures forall key :: key in stale <==> key in clients && Stale(key, clients[key], loginLimit, registerLimit, now)
    {
      stale := {};
      var todo := clients.Keys;
      while todo != {}
        invariant todo <= clients.Keys
        invariant forall key :: key in stale <==>
          key in clients && key !in todo && Stale(key, clients[key], loginLimit, registerLimit, now)
        decreases |todo|
      {
        var key :| key in todo;
        todo := todo - {key};
        if Stale(key, clients[key], loginLimit, registerLimit, now) {
          stale := stale + {key};
        }
      }
    }
  }

  lemma RemoveNext(clients: Clients, keys: set<string>, todo: set<string>, key: string)
    requires key in todo && todo <= keys
    ensures (clients - (keys - todo)) - {key} == clients - (keys - (todo - {key}))
  {
  }

  lemma CleanedIsWithoutStale(clients: Clients, loginLimit: RateLimit, registerLimit: RateLimit, now: int, stale: set<string>)
    requires KeysLong(clients)
    requires forall key :: key in stale <==> key in clients && Stale(key, clients[key], loginLimit, registerLimit, now)
    ensures Cleaned(clients, loginLimit, registerLimit, now) == clients - stale
  {
  }

  lemma RemoveOne(clients: Clients, key: string)
    requires key in clients
    ensures |clients - {key}| == |clients| - 1
  {
  }

  // ---------- one key through a window ----------

  lemma {:induction false} UnexpiredKeepsLast(attempts: seq<int>, cutoff: int, n: nat, start: int)
    requires LastFrom(attempts, n, start) && cutoff < start
    ensures LastFrom(Unexpired(attempts, cutoff), n, start)
  {
    if n == 0 {
    } else {
      var m := |attempts| - 1;
      assert attempts[m] > cutoff;
      UnexpiredKeepsLast(attempts[..m], cutoff, n - 1, start);
    }
  }

  /** Within a half-open window, one more accepted attempt is recorded, up to the limit. */
  lemma CheckHolds(clients: Clients, key: string, limit: RateLimit, now: int, n: nat, start: int) returns (m: nat)
    requires LastFrom(AttemptsOf(clients, key), n, start) && start <= now < start + limit.window
    requires n == 0 || n <= limit.maxAttempts
    ensures m == n + (if CheckLimit(clients, key, limit, now).1.Allowed? then 1 else 0)
    ensures m == 0 || m <= limit.maxAttempts
    ensures LastFrom(AttemptsOf(CheckLimit(clients, key, limit, now).0, key), m, start)
  {
    UnexpiredKeepsLast(AttemptsOf(clients, key), now - limit.window, n, start);
    m := n + (if CheckLimit(clients, key, limit, now).1.Allowed? then 1 else 0);
  }

  lemma OtherKeyUntouched(clients: Clients, key: string, limit: RateLimit, now: int, other: string)
    requires other != key
    ensures AttemptsOf(CheckLimit(clients, key, limit, now).0, other) == AttemptsOf(clients, other)
  {
  }

  lemma CleanupHolds(clients: Clients, loginLimit: RateLimit, registerLimit: RateLimit, now: int,
    clientIP: string, action: Action, n: nat, start: int)
    requires KeysLong(clients) && LastFrom(AttemptsOf(clients, KeyOf(clientIP, action)), n, start)
    requires var limit := if action.Login? then loginLimit else registerLimit; now < start + limit.window
    ensures LastFrom(AttemptsOf(Cleaned(clients, loginLimit, registerLimit, now), KeyOf(clientIP, action)), n, start)
  {
    KeyTellsAction(clientIP, action);
    var attempts := AttemptsOf(clients, KeyOf(clientIP, action));
    if n > 0 {
      assert attempts[|attempts| - 1] >= start;
    }
  }

  /** The check panics exactly when the limit admits nothing and no attempt is left in the window. */
  lemma PanicsExactly(clients: Clients, key: string, limit: RateLimit, now: int)
    ensures CheckLimit(clients, key, limit, now).1.Panics? <==>
      limit.maxAttempts <= 0 && AllExpired(AttemptsOf(clients, key), now - limit.window)
  {
    UnexpiredEmpty(AttemptsOf(clients, key), now - limit.window);
  }

  lemma {:induction false} UnexpiredEmpty(attempts: seq<int>, cutoff: int)
    ensures Unexpired(attempts, cutoff) == [] <==> AllExpired(attempts, cutoff)
  {
    if attempts == [] {
    } else {
      var n := |attempts| - 1;
      UnexpiredEmpty(attempts[..n], cutoff);
    }
  }
}
