/** Switching between Redis and memory (pkg/ratelimit/fallback_limiter.go). */
module FallbackLimiter {
  import opened RateLimitTypes
  import opened RequestTimes
  import Memory = MemoryLimiter
  import Redis = RedisLimiter

  const RECHECK_NANOS: int := 30_000_000_000

  /** The limiter's state with the two limiters it switches between. hasRedis: the Redis limiter
      could be created when the service started. */
  datatype State = State(
    hasRedis: bool,
    usingRedis: bool,
    lastCheck: int,
    clients: Memory.Clients,
    counters: Redis.Counters)

  /** What one call meets: Redis's reply, if it is asked, and whether a ping would succeed. */
  datatype Weather = Weather(reply: Redis.Reply, pingOk: bool)

  function AllowInMemory(s: State, limit: RateLimit, memoryKey: string, now: int): (State, Verdict) {
    var (clients, verdict) := Memory.CheckLimit(s.clients, memoryKey, limit, now);
    (s.(clients := clients), verdict)
  }

  /** One call, for the keys under which the two limiters count it. */
  function AllowAt(s: State, limit: RateLimit, memoryKey: string, redisKey: string, now: int, weather: Weather): (State, Verdict) {
    if s.usingRedis then
      var after := s.(counters := Redis.After(s.counters, redisKey, limit, now, weather.reply));
      if weather.reply.Failed?
      then AllowInMemory(after.(usingRedis := false, lastCheck := now), limit, memoryKey, now)
      else (after, Redis.VerdictOf(s.counters, redisKey, limit, now, weather.reply.ttl))
    else if now - s.lastCheck > RECHECK_NANOS then
      AllowInMemory(s.(lastCheck := now, usingRedis := s.hasRedis && weather.pingOk), limit, memoryKey, now)
    else AllowInMemory(s, limit, memoryKey, now)
  }

  function Allow(s: State, limits: Limits, clientIP: string, action: Action, now: int, weather: Weather): (State, Verdict) {
    AllowAt(s, limits.Of(action), Memory.KeyOf(clientIP, action), Redis.KeyOf(clientIP, action), now, weather)
  }

  class FallbackRateLimiter {
    const redis: Redis.RedisRateLimiter?
    const memory: Memory.MemoryRateLimiter
    const limits: Limits
    var usingRedis: bool
    var lastCheck: int
    /** Redis's data while no limiter for it exists. */
    ghost const unreached: Redis.Counters

    ghost predicate Valid()
      reads this
    {
      && (usingRedis ==> redis != null)
      && memory.loginLimit == limits.login && memory.registerLimit == limits.register
      && (redis != null ==> redis.loginLimit == limits.login && redis.registerLimit == limits.register)
    }

    ghost function Model(): State
      reads this, memory, redis
    {
      State(redis != null, usingRedis, lastCheck, memory.clients, if redis != null then redis.counters else unreached)
    }

    /** The first ping decides whether a Redis limiter exists at all. */
    constructor (limits: Limits, counters: Redis.Counters, pingOk: bool, now: int)
      ensures Valid() && fresh(memory) && (redis != null ==> fresh(redis))
      ensures Model() == State(pingOk, pingOk, now, map[], counters)
    {
      var r: Redis.RedisRateLimiter? := null;
      if pingOk {
        r := new Redis.RedisRateLimiter(counters, limits.login, limits.register);
      }
      redis := r;
      memory := new Memory.MemoryRateLimiter(limits.login, limits.register);
      this.limits, usingRedis, lastCheck, unreached := limits, pingOk, now, counters;
    }

    method AllowAction(clientIP: string, action: Action, now: int, weather: Weather) returns (verdict: Verdict)
      requires Valid()
      modifies this, memory, redis
      ensures Valid()
      ensures (Model(), verdict) == Allow(old(Model()), limits, clientIP, action, now, weather)
    {
      if usingRedis {
        var checked := redis.Allow(clientIP, action, now, weather.reply);
        if checked.Error? {
          SwitchToMemory(now);
          verdict := memory.Allow(clientIP, action, now);
          return;
        }
        return checked.verdict;
      }
      if now - lastCheck > RECHECK_NANOS {
        CheckRedisHealth(now, weather.pingOk);
      }
      verdict := memory.Allow(clientIP, action, now);
    }

    method SwitchToMemory(now: int)
      modifies this
      ensures !usingRedis && lastCheck == if old(usingRedis) then now else old(lastCheck)
    {
      if usingRedis {
        usingRedis := false;
        lastCheck := now;
      }
    }

    method CheckRedisHealth(now: int, pingOk: bool)
      modifies this
      ensures lastCheck == now
      ensures usingRedis == (old(usingRedis) || (redis != null && pingOk))
    {
      lastCheck := now;
      if !usingRedis && redis != null {
        if pingOk {
          usingRedis := true;
        }
      }
    }

    /** Only the active limiter is cleaned; Redis expires its keys itself. */
    method Cleanup(now: int) returns (removed: nat)
      requires Valid() && Memory.KeysLong(memory.clients)
      modifies memory
      ensures Model() == CleanedUp(old(Model()), limits, now)
    {
      removed := 0;
      if !usingRedis {
        removed := memory.Cleanup(now);
      }
    }
  }

  function CleanedUp(s: State, limits: Limits, now: int): State
    requires Memory.KeysLong(s.clients)
  {
    if s.usingRedis then s else s.(clients := Memory.Cleaned(s.clients, limits.login, limits.register, now))
  }

  // ---------- runs ----------

  datatype Event =
    | Call(clientIP: string, action: Action, time: int, weather: Weather)
    | CleanupTick(time: int)

  function Step(s: State, limits: Limits, e: Event): State
    requires Memory.KeysLong(s.clients)
  {
    match e
    case Call(clientIP, action, time, weather) => Allow(s, limits, clientIP, action, time, weather).0
    case CleanupTick(time) => CleanedUp(s, limits, time)
  }

  lemma StepKeepsKeys(s: State, limits: Limits, e: Event)
    requires Memory.KeysLong(s.clients)
    ensures Memory.KeysLong(Step(s, limits, e).clients)
  {
  }

  function Run(s: State, limits: Limits, events: seq<Event>): (after: State)
    requires Memory.KeysLong(s.clients)
    ensures Memory.KeysLong(after.clients)
    decreases |events|
  {
    if events == [] then s
    else
      StepKeepsKeys(s, limits, events[0]);
      Run(Step(s, limits, events[0]), limits, events[1..])
  }

  predicate Accepted(s: State, limits: Limits, e: Event, clientIP: string, action: Action) {
    e.Call? && e.clientIP == clientIP && e.action == action &&
    Allow(s, limits, clientIP, action, e.time, e.weather).1.Allowed?
  }

  /** Accepted calls of one client and action. */
  function Accepts(s: State, limits: Limits, events: seq<Event>, clientIP: string, action: Action): nat
    requires Memory.KeysLong(s.clients)
    decreases |events|
  {
    if events == [] then 0
    else
      StepKeepsKeys(s, limits, events[0]);
      (if Accepted(s, limits, events[0], clientIP, action) then 1 else 0) +
      Accepts(Step(s, limits, events[0]), limits, events[1..], clientIP, action)
  }

  datatype Limiter = InMemory | InRedis

  /** The limiter whose answer a call gets. */
  function ServedBy(s: State, weather: Weather): Limiter {
    if s.usingRedis && weather.reply.Answered? then InRedis else InMemory
  }

  predicate AcceptedBy(s: State, limits: Limits, e: Event, clientIP: string, action: Action, limiter: Limiter) {
    Accepted(s, limits, e, clientIP, action) && ServedBy(s, e.weather) == limiter
  }

  /** Accepted calls of one client and action that one of the limiters answered. */
  function AcceptsBy(s: State, limits: Limits, events: seq<Event>, clientIP: string, action: Action, limiter: Limiter): nat
    requires Memory.KeysLong(s.clients)
    decreases |events|
  {
    if events == [] then 0
    else
      StepKeepsKeys(s, limits, events[0]);
      (if AcceptedBy(s, limits, events[0], clientIP, action, limiter) then 1 else 0) +
      AcceptsBy(Step(s, limits, events[0]), limits, events[1..], clientIP, action, limiter)
  }

  predicate Within(events: seq<Event>, from: int, before: int) {
    forall i :: 0 <= i < |events| ==> from <= events[i].time < before
  }

  predicate Counted(counters: Redis.Counters) {
    forall k :: k in counters ==> counters[k].count >= 1
  }

  /** So far in the window, memory accepted n and Redis accepted r of the calls counted under these keys. */
  predicate ProgressAt(s: State, limit: RateLimit, memoryKey: string, redisKey: string, n: nat, r: nat, start: int) {
    && Counted(s.counters)
    && (n == 0 || n <= limit.maxAttempts) && (r == 0 || r <= limit.maxAttempts)
    && LastFrom(Memory.AttemptsOf(s.clients, memoryKey), n, start)
    && Redis.CountedFrom(s.counters, redisKey, r, start, limit.window)
  }

  predicate Progress(s: State, limits: Limits, clientIP: string, action: Action, n: nat, r: nat, start: int) {
    Memory.KeysLong(s.clients) &&
    ProgressAt(s, limits.Of(action), Memory.KeyOf(clientIP, action), Redis.KeyOf(clientIP, action), n, r, start)
  }

  /** A call counted under the keys. */
  lemma OwnCallAt(s: State, limit: RateLimit, memoryKey: string, redisKey: string, now: int, weather: Weather, n: nat, r: nat, start: int)
    returns (n': nat, r': nat)
    requires ProgressAt(s, limit, memoryKey, redisKey, n, r, start)
    requires start <= now < start + limit.window
    ensures ProgressAt(AllowAt(s, limit, memoryKey, redisKey, now, weather).0, limit, memoryKey, redisKey, n', r', start)
    ensures var allowed := AllowAt(s, limit, memoryKey, redisKey, now, weather).1.Allowed?;
      && n' == n + (if allowed && ServedBy(s, weather).InMemory? then 1 else 0)
      && r' == r + (if allowed && ServedBy(s, weather).InRedis? then 1 else 0)
  {
    n', r' := n, r;
    if s.usingRedis {
      r' := Redis.CallHolds(s.counters, redisKey, limit, now, weather.reply, r, start);
    }
    if !s.usingRedis || weather.reply.Failed? {
      n' := Memory.CheckHolds(s.clients, memoryKey, limit, now, n, start);
    }
  }

  /** A call counted under other keys. */
  lemma OtherCallAt(s: State, limit: RateLimit, memoryKey: string, redisKey: string, n: nat, r: nat, start: int,
    otherLimit: RateLimit, otherMemoryKey: string, otherRedisKey: string, now: int, weather: Weather)
    requires ProgressAt(s, limit, memoryKey, redisKey, n, r, start)
    requires memoryKey != otherMemoryKey && redisKey != otherRedisKey
    ensures ProgressAt(AllowAt(s, otherLimit, otherMemoryKey, otherRedisKey, now, weather).0, limit, memoryKey, redisKey, n, r, start)
  {
    Memory.OtherKeyUntouched(s.clients, otherMemoryKey, otherLimit, now, memoryKey);
    Redis.OtherKeyUntouched(s.counters, otherRedisKey, otherLimit, now, weather.reply, redisKey, r, start, limit.window);
  }

  lemma KeysDiffer(clientIP: string, action: Action, otherIP: string, other: Action)
    requires otherIP != clientIP || other != action
    ensures Memory.KeyOf(clientIP, action) != Memory.KeyOf(otherIP, other)
    ensures Redis.KeyOf(clientIP, action) != Redis.KeyOf(otherIP, other)
  {
    if Memory.KeyOf(clientIP, action) == Memory.KeyOf(otherIP, other) {
      Memory.KeyInjective(clientIP, action, otherIP, other);
    }
    if Redis.KeyOf(clientIP, action) == Redis.KeyOf(otherIP, other) {
      Redis.KeyInjective(clientIP, action, otherIP, other);
    }
  }

  lemma StepProgress(s: State, limits: Limits, e: Event, clientIP: string, action: Action, n: nat, r: nat, start: int)
    returns (n': nat, r': nat)
    requires Progress(s, limits, clientIP, action, n, r, start)
    requires start <= e.time < start + limits.Of(action).window
    ensures Progress(Step(s, limits, e), limits, clientIP, action, n', r', start)
    ensures n' == n + (if AcceptedBy(s, limits, e, clientIP, action, InMemory) then 1 else 0)
    ensures r' == r + (if AcceptedBy(s, limits, e, clientIP, action, InRedis) then 1 else 0)
  {
    n', r' := n, r;
    StepKeepsKeys(s, limits, e);
    match e
    case Call(otherIP, other, time, weather) =>
      var memoryKey, redisKey := Memory.KeyOf(clientIP, action), Redis.KeyOf(clientIP, action);
      if otherIP == clientIP && other == action {
        n', r' := OwnCallAt(s, limits.Of(action), memoryKey, redisKey, time, weather, n, r, start);
      } else {
        KeysDiffer(clientIP, action, otherIP, other);
        OtherCallAt(s, limits.Of(action), memoryKey, redisKey, n, r, start,
          limits.Of(other), Memory.KeyOf(otherIP, other), Redis.KeyOf(otherIP, other), time, weather);
      }
    case CleanupTick(time) =>
      if !s.usingRedis {
        Memory.CleanupHolds(s.clients, limits.login, limits.register, time, clientIP, action, n, start);
      }
  }

  /** The number of accepts a limit stands for. */
  function Quota(limit: RateLimit): nat {
    if limit.maxAttempts > 0 then limit.maxAttempts else 0
  }

  lemma {:induction false} WindowProgress(s: State, limits: Limits, events: seq<Event>, clientIP: string, action: Action, n: nat, r: nat, start: int)
    requires Progress(s, limits, clientIP, action, n, r, start)
    requires Within(events, start, start + limits.Of(action).window)
    ensures n + AcceptsBy(s, limits, events, clientIP, action, InMemory) <= Quota(limits.Of(action))
    ensures r + AcceptsBy(s, limits, events, clientIP, action, InRedis) <= Quota(limits.Of(action))
    decreases |events|
  {
    if events == [] {
    } else {
      var e := events[0];
      assert start <= events[0].time < start + limits.Of(action).window;
      var n', r' := StepProgress(s, limits, e, clientIP, action, n, r, start);
      WindowProgress(Step(s, limits, e), limits, events[1..], clientIP, action, n', r', start);
    }
  }

  lemma {:induction false} AcceptsSplit(s: State, limits: Limits, events: seq<Event>, clientIP: string, action: Action)
    requires Memory.KeysLong(s.clients)
    ensures Accepts(s, limits, events, clientIP, action)
      == AcceptsBy(s, limits, events, clientIP, action, InMemory) + AcceptsBy(s, limits, events, clientIP, action, InRedis)
    decreases |events|
  {
    if events == [] {
    } else {
      StepKeepsKeys(s, limits, events[0]);
      AcceptsSplit(Step(s, limits, events[0]), limits, events[1..], clientIP, action);
    }
  }

  lemma {:induction false} RunCounted(s: State, limits: Limits, events: seq<Event>)
    requires Memory.KeysLong(s.clients) && Counted(s.counters)
    ensures Counted(Run(s, limits, events).counters)
    decreases |events|
  {
    if events == [] {
    } else {
      StepKeepsKeys(s, limits, events[0]);
      RunCounted(Step(s, limits, events[0]), limits, events[1..]);
    }
  }

  /** The state in which the service starts. */
  function Start(pingOk: bool, now: int, counters: Redis.Counters): State {
    State(pingOk, pingOk, now, map[], counters)
  }

  /** In every run, through any pattern of Redis failures, recoveries and switches: in any
      half-open window each limiter by itself keeps the limit of a client and action. */
  lemma EachLimiterKeepsTheLimit(pingOk: bool, began: int, counters: Redis.Counters, limits: Limits,
    earlier: seq<Event>, events: seq<Event>, clientIP: string, action: Action, start: int, limiter: Limiter)
    requires Counted(counters)
    requires Within(events, start, start + limits.Of(action).window)
    ensures AcceptsBy(Run(Start(pingOk, began, counters), limits, earlier), limits, events, clientIP, action, limiter)
      <= Quota(limits.Of(action))
  {
    RunCounted(Start(pingOk, began, counters), limits, earlier);
    WindowProgress(Run(Start(pingOk, began, counters), limits, earlier), limits, events, clientIP, action, 0, 0, start);
  }

  /** So at most twice the limit is accepted. */
  lemma FallbackWindowBound(pingOk: bool, began: int, counters: Redis.Counters, limits: Limits,
    earlier: seq<Event>, events: seq<Event>, clientIP: string, action: Action, start: int)
    requires Counted(counters)
    requires Within(events, start, start + limits.Of(action).window)
    ensures Accepts(Run(Start(pingOk, began, counters), limits, earlier), limits, events, clientIP, action)
      <= 2 * Quota(limits.Of(action))
  {
    EachLimiterKeepsTheLimit(pingOk, began, counters, limits, earlier, events, clientIP, action, start, InMemory);
    EachLimiterKeepsTheLimit(pingOk, began, counters, limits, earlier, events, clientIP, action, start, InRedis);
    AcceptsSplit(Run(Start(pingOk, began, counters), limits, earlier), limits, events, clientIP, action);
  }

  // ---------- when the limit itself is kept ----------

  /** No call of the client and action is answered by this limiter. */
  predicate NoneServedBy(s: State, limits: Limits, events: seq<Event>, clientIP: string, action: Action, limiter: Limiter)
    requires Memory.KeysLong(s.clients)
    decreases |events|
  {
    events == [] ||
    (var e := events[0];
     StepKeepsKeys(s, limits, e);
     !(e.Call? && e.clientIP == clientIP && e.action == action && ServedBy(s, e.weather) == limiter) &&
     NoneServedBy(Step(s, limits, e), limits, events[1..], clientIP, action, limiter))
  }

  lemma {:induction false} NoneServedNoneAccepted(s: State, limits: Limits, events: seq<Event>, clientIP: string, action: Action, limiter: Limiter)
    requires Memory.KeysLong(s.clients) && NoneServedBy(s, limits, events, clientIP, action, limiter)
    ensures AcceptsBy(s, limits, events, clientIP, action, limiter) == 0
    decreases |events|
  {
    if events == [] {
    } else {
      StepKeepsKeys(s, limits, events[0]);
      NoneServedNoneAccepted(Step(s, limits, events[0]), limits, events[1..], clientIP, action, limiter);
    }
  }

  /** In every run: the limit is kept in any half-open window in which one limiter answers all the
      calls of the client and action, whatever happens to the calls of others. */
  lemma OneLimiterKeepsTheLimit(pingOk: bool, began: int, counters: Redis.Counters, limits: Limits,
    earlier: seq<Event>, events: seq<Event>, clientIP: string, action: Action, start: int, unused: Limiter)
    requires Counted(counters)
    requires Within(events, start, start + limits.Of(action).window)
    requires NoneServedBy(Run(Start(pingOk, began, counters), limits, earlier), limits, events, clientIP, action, unused)
    ensures Accepts(Run(Start(pingOk, began, counters), limits, earlier), limits, events, clientIP, action)
      <= Quota(limits.Of(action))
  {
    var s := Run(Start(pingOk, began, counters), limits, earlier);
    var used := if unused.InMemory? then InRedis else InMemory;
    NoneServedNoneAccepted(s, limits, events, clientIP, action, unused);
    EachLimiterKeepsTheLimit(pingOk, began, counters, limits, earlier, events, clientIP, action, start, used);
    AcceptsSplit(s, limits, events, clientIP, action);
  }

  // ---------- the factor two is reached ----------

  function Repeat(e: Event, count: nat): seq<Event> {
    seq(count, _ => e)
  }

  lemma RepeatTail(e: Event, count: nat)
    requires count > 0
    ensures Repeat(e, count)[0] == e && Repeat(e, count)[1..] == Repeat(e, count - 1)
  {
  }

  lemma {:induction false} RedisAccepts(s: State, limits: Limits, e: Event, k: nat, count: nat)
    requires e.Call? && e.weather.reply.Answered? && s.usingRedis && Memory.KeysLong(s.clients)
    requires limits.Of(e.action).window > 0 && k + count <= limits.Of(e.action).maxAttempts
    requires var key := Redis.KeyOf(e.clientIP, e.action);
      if k == 0 then key !in s.counters
      else key in s.counters && s.counters[key] == Redis.Counter(k, Redis.At(e.time + limits.Of(e.action).window))
    ensures Accepts(s, limits, Repeat(e, count), e.clientIP, e.action) == count
    ensures Run(s, limits, Repeat(e, count)).usingRedis && Run(s, limits, Repeat(e, count)).clients == s.clients
    decreases count
  {
    if count == 0 {
    } else {
      RepeatTail(e, count);
      StepKeepsKeys(s, limits, e);
      RedisAccepts(Step(s, limits, e), limits, e, k + 1, count - 1);
    }
  }

  lemma UnexpiredAll(attempts: seq<int>, cutoff: int)
    requires forall i :: 0 <= i < |attempts| ==> attempts[i] > cutoff
    ensures Memory.Unexpired(attempts, cutoff) == attempts
  {
  }

  /** There are k attempts on record under this key, all made at this time. */
  predicate AllAt(s: State, memoryKey: string, k: nat, time: int) {
    var attempts := Memory.AttemptsOf(s.clients, memoryKey);
    |attempts| == k && forall i :: 0 <= i < k ==> attempts[i] == time
  }

  const DOWN := Weather(Redis.Failed(Redis.Nothing), false)

  lemma MemoryAcceptsAt(s: State, limit: RateLimit, memoryKey: string, redisKey: string, k: nat, time: int)
    requires limit.window > 0 && k < limit.maxAttempts && AllAt(s, memoryKey, k, time)
    ensures AllowAt(s, limit, memoryKey, redisKey, time, DOWN).1.Allowed?
    ensures AllAt(AllowAt(s, limit, memoryKey, redisKey, time, DOWN).0, memoryKey, k + 1, time)
  {
    UnexpiredAll(Memory.AttemptsOf(s.clients, memoryKey), time - limit.window);
  }

  lemma {:induction false} MemoryAccepts(s: State, limits: Limits, clientIP: string, action: Action, time: int, k: nat, count: nat)
    requires Memory.KeysLong(s.clients) && limits.Of(action).window > 0 && k + count <= limits.Of(action).maxAttempts
    requires AllAt(s, Memory.KeyOf(clientIP, action), k, time)
    ensures Accepts(s, limits, Repeat(Call(clientIP, action, time, DOWN), count), clientIP, action) == count
    decreases count
  {
    if count == 0 {
    } else {
      var e := Call(clientIP, action, time, DOWN);
      RepeatTail(e, count);
      MemoryAcceptsAt(s, limits.Of(action), Memory.KeyOf(clientIP, action), Redis.KeyOf(clientIP, action), k, time);
      StepKeepsKeys(s, limits, e);
      MemoryAccepts(Step(s, limits, e), limits, clientIP, action, time, k + 1, count - 1);
    }
  }

  lemma {:induction false} AcceptsConcat(s: State, limits: Limits, a: seq<Event>, b: seq<Event>, clientIP: string, action: Action)
    requires Memory.KeysLong(s.clients)
    ensures Accepts(s, limits, a + b, clientIP, action) ==
      Accepts(s, limits, a, clientIP, action) + Accepts(Run(s, limits, a), limits, b, clientIP, action)
    decreases |a|
  {
    if a == [] {
      assert a + b == b;
    } else {
      assert (a + b)[1..] == a[1..] + b;
      StepKeepsKeys(s, limits, a[0]);
      AcceptsConcat(Step(s, limits, a[0]), limits, a[1..], b, clientIP, action);
    }
  }

  /** One switch of limiters is enough, for every positive limit: a full quota from Redis and then,
      once Redis fails, another from memory are accepted at one time. */
  lemma FactorTwoIsReached(limits: Limits, clientIP: string, action: Action, time: int)
    requires limits.Of(action).maxAttempts > 0 && limits.Of(action).window > 0
    ensures var m := limits.Of(action).maxAttempts;
      var up := Call(clientIP, action, time, Weather(Redis.Answered(Redis.TtlFailed), true));
      var down := Call(clientIP, action, time, DOWN);
      Accepts(Start(true, time, map[]), limits, Repeat(up, m) + Repeat(down, m), clientIP, action) == 2 * m
  {
    var m := limits.Of(action).maxAttempts;
    var up := Call(clientIP, action, time, Weather(Redis.Answered(Redis.TtlFailed), true));
    var down := Call(clientIP, action, time, DOWN);
    var s := Start(true, time, map[]);
    AcceptsConcat(s, limits, Repeat(up, m), Repeat(down, m), clientIP, action);
    RedisAccepts(s, limits, up, 0, m);
    MemoryAccepts(Run(s, limits, Repeat(up, m)), limits, clientIP, action, time, 0, m);
  }

  /** After any start and earlier events, the limit is kept in a window that begins with start. */
  predicate KeptIn(limits: Limits, clientIP: string, action: Action,
    pingOk: bool, began: int, counters: Redis.Counters, earlier: seq<Event>, events: seq<Event>, start: int)
  {
    Counted(counters) && Within(events, start, start + limits.Of(action).window) ==>
      Accepts(Run(Start(pingOk, began, counters), limits, earlier), limits, events, clientIP, action) <= Quota(limits.Of(action))
  }

  /** In every run and window the limit of the client and action is kept. */
  ghost predicate AlwaysKept(limits: Limits, clientIP: string, action: Action) {
    forall pingOk, began, counters, earlier, events, start ::
      KeptIn(limits, clientIP, action, pingOk, began, counters, earlier, events, start)
  }

  /** The limit is kept whatever happens exactly when it admits nothing or its window is empty. */
  lemma AlwaysKeptExactly(limits: Limits, clientIP: string, action: Action)
    ensures AlwaysKept(limits, clientIP, action) <==> (limits.Of(action).maxAttempts <= 0 || limits.Of(action).window <= 0)
  {
    if limits.Of(action).maxAttempts > 0 && limits.Of(action).window > 0 {
      DoubledFromStart(limits, clientIP, action);
    } else {
      forall pingOk, began, counters, earlier, events, start
        ensures KeptIn(limits, clientIP, action, pingOk, began, counters, earlier, events, start)
      {
        NothingToExceed(limits, clientIP, action, pingOk, began, counters, earlier, events, start);
      }
    }
  }

  lemma NothingToExceed(limits: Limits, clientIP: string, action: Action,
    pingOk: bool, began: int, counters: Redis.Counters, earlier: seq<Event>, events: seq<Event>, start: int)
    requires limits.Of(action).maxAttempts <= 0 || limits.Of(action).window <= 0
    ensures KeptIn(limits, clientIP, action, pingOk, began, counters, earlier, events, start)
  {
    if Counted(counters) && Within(events, start, start + limits.Of(action).window) {
      FallbackWindowBound(pingOk, began, counters, limits, earlier, events, clientIP, action, start);
      assert events != [] ==> start <= events[0].time < start + limits.Of(action).window;
    }
  }

  lemma DoubledFromStart(limits: Limits, clientIP: string, action: Action)
    requires limits.Of(action).maxAttempts > 0 && limits.Of(action).window > 0
    ensures !AlwaysKept(limits, clientIP, action)
  {
    var m := limits.Of(action).maxAttempts;
    var up := Call(clientIP, action, 0, Weather(Redis.Answered(Redis.TtlFailed), true));
    var events := Repeat(up, m) + Repeat(Call(clientIP, action, 0, DOWN), m);
    FactorTwoIsReached(limits, clientIP, action, 0);
    assert Run(Start(true, 0, map[]), limits, []) == Start(true, 0, map[]);
    assert !KeptIn(limits, clientIP, action, true, 0, map[], [], events, 0);
  }

  // ---------- recovery ----------

  /** A limiter that started without Redis never uses it, however often Redis answers later. */
  lemma {:induction false} NeverRecoversWithoutRedis(s: State, limits: Limits, events: seq<Event>)
    requires !s.hasRedis && !s.usingRedis && Memory.KeysLong(s.clients)
    ensures !Run(s, limits, events).usingRedis && Run(s, limits, events).counters == s.counters
    decreases |events|
  {
    if events == [] {
    } else {
      StepKeepsKeys(s, limits, events[0]);
      NeverRecoversWithoutRedis(Step(s, limits, events[0]), limits, events[1..]);
    }
  }

  /** In Redis mode: a call stays with Redis exactly when Redis answers it, and the answer is Redis's;
      otherwise the call is answered from memory, and the wait for the next check begins. */
  lemma LeavesRedisExactly(s: State, limits: Limits, clientIP: string, action: Action, now: int, weather: Weather)
    requires s.usingRedis
    ensures var ((after, verdict), limit) := (Allow(s, limits, clientIP, action, now, weather), limits.Of(action));
      && (after.usingRedis <==> weather.reply.Answered?) && after.hasRedis == s.hasRedis
      && after.counters == Redis.After(s.counters, Redis.KeyOf(clientIP, action), limit, now, weather.reply)
      && (weather.reply.Answered? ==>
        && verdict == Redis.VerdictOf(s.counters, Redis.KeyOf(clientIP, action), limit, now, weather.reply.ttl)
        && after.clients == s.clients && after.lastCheck == s.lastCheck)
      && (weather.reply.Failed? ==>
        && after.lastCheck == now
        && (after.clients, verdict) == Memory.CheckLimit(s.clients, Memory.KeyOf(clientIP, action), limit, now))
  {
  }

  /** In memory mode, the first call more than 30 seconds after the last check returns to Redis
      exactly when the limiter was created with Redis and a ping succeeds; the call itself is
      still answered from memory. */
  lemma RecoversExactly(s: State, limits: Limits, clientIP: string, action: Action, now: int, weather: Weather)
    requires !s.usingRedis
    ensures var (after, verdict) := Allow(s, limits, clientIP, action, now, weather);
      (after.usingRedis <==> s.hasRedis && weather.pingOk && now - s.lastCheck > RECHECK_NANOS) &&
      after.counters == s.counters &&
      verdict == Memory.CheckLimit(s.clients, Memory.KeyOf(clientIP, action), limits.Of(action), now).1
  {
  }
}
