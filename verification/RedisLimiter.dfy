/** The counter with a refreshed expiry (pkg/ratelimit/redis_limiter.go), over an abstract Redis. */
module RedisLimiter {
  import opened RateLimitTypes

  /** A stored counter and the time from which its key no longer exists, if it has one. */
  datatype Counter = Counter(count: int, deadline: Deadline)

  datatype Deadline = Never | At(time: int)

  type Counters = map<string, Counter>

  /** How a round trip ends: answered, with the reply to a later TTL query, or failed after
      none, one or both commands took effect. */
  datatype Reply =
    | Answered(ttl: Ttl)
    | Failed(effect: Effect)

  datatype Ttl = TtlFailed | TtlIs(time: int)

  datatype Effect = Nothing | Incremented | IncrementedAndExpiring

  function KeyOf(clientIP: string, action: Action): string {
    "ratelimit:" + action.Name() + ":" + clientIP
  }

  lemma KeyInjective(ip: string, action: Action, ip': string, action': Action)
    requires KeyOf(ip, action) == KeyOf(ip', action')
    ensures ip == ip' && action == action'
  {
    var key := KeyOf(ip, action);
    assert |"ratelimit:"| == 10;
    assert key[10] == action.Name()[0] && key[10] == action'.Name()[0];
    assert ip == key[10 + |action.Name()| + 1..] && ip' == key[10 + |action'.Name()| + 1..];
  }

  predicate Live(counters: Counters, key: string, now: int) {
    key in counters && (counters[key].deadline.Never? || now < counters[key].deadline.time)
  }

  /** INCR: a missing or expired key counts as zero and has no expiry. */
  function Incr(counters: Counters, key: string, now: int): (after: Counters)
    ensures key in after
  {
    var present := if Live(counters, key, now) then counters[key] else Counter(0, Never);
    counters[key := present.(count := present.count + 1)]
  }

  /** EXPIRE: a time to live that is not positive deletes the key. */
  function Expire(counters: Counters, key: string, window: int, now: int): Counters
    requires key in counters
  {
    if window <= 0 then counters - {key}
    else counters[key := counters[key].(deadline := At(now + window))]
  }

  /** What a call does to the stored counters. */
  function After(counters: Counters, key: string, limit: RateLimit, now: int, reply: Reply): Counters {
    match reply
    case Answered(_) => Expire(Incr(counters, key, now), key, limit.window, now)
    case Failed(Nothing) => counters
    case Failed(Incremented) => Incr(counters, key, now)
    case Failed(IncrementedAndExpiring) => Expire(Incr(counters, key, now), key, limit.window, now)
  }

  /** The answer to a call that came through. */
  function VerdictOf(counters: Counters, key: string, limit: RateLimit, now: int, ttl: Ttl): Verdict {
    if Incr(counters, key, now)[key].count > limit.maxAttempts
    then Denied(if ttl.TtlFailed? then limit.window else ttl.time)
    else Allowed
  }

  datatype Checked = Answer(verdict: Verdict) | Error

  class RedisRateLimiter {
    /** The server's data, which only this limiter's keys are read from. */
    var counters: Counters
    const loginLimit: RateLimit
    const registerLimit: RateLimit

    constructor (counters: Counters, loginLimit: RateLimit, registerLimit: RateLimit)
      ensures this.loginLimit == loginLimit && this.registerLimit == registerLimit && this.counters == counters
    {
      this.counters, this.loginLimit, this.registerLimit := counters, loginLimit, registerLimit;
    }

    function LimitOf(action: Action): RateLimit {
      if action.Login? then loginLimit else registerLimit
    }

    method Allow(clientIP: string, action: Action, now: int, reply: Reply) returns (checked: Checked)
      modifies this
      ensures counters == After(old(counters), KeyOf(clientIP, action), LimitOf(action), now, reply)
      ensures checked ==
        if reply.Failed? then Error
        else Answer(VerdictOf(old(counters), KeyOf(clientIP, action), LimitOf(action), now, reply.ttl))
    {
      var key, limit := KeyOf(clientIP, action), LimitOf(action);
      if reply == Failed(Nothing) {
        return Error;
      }
      counters := Incr(counters, key, now);
      var count := counters[key].count;
      if reply != Failed(Incremented) {
        counters := Expire(counters, key, limit.window, now);
      }
      if reply.Failed? {
        return Error;
      }
      if count > limit.maxAttempts {
        return Answer(Denied(if reply.ttl.TtlFailed? then limit.window else reply.ttl.time));
      }
      if count == 1 && key in counters {
        counters := Expire(counters, key, limit.window, now);
      }
      return Answer(Allowed);
    }
  }

  // ---------- one key through a window ----------

  /** The counter has reached n and its key outlives the window that began at start. */
  predicate CountedFrom(counters: Counters, key: string, n: nat, start: int, window: int) {
    n > 0 ==>
      key in counters && counters[key].count >= n &&
      (counters[key].deadline.Never? || counters[key].deadline.time >= start + window)
  }

  lemma CallHolds(counters: Counters, key: string, limit: RateLimit, now: int, reply: Reply, n: nat, start: int) returns (m: nat)
    requires CountedFrom(counters, key, n, start, limit.window) && start <= now < start + limit.window
    requires n == 0 || n <= limit.maxAttempts
    requires forall k :: k in counters ==> counters[k].count >= 1
    ensures m == n + (if reply.Answered? && VerdictOf(counters, key, limit, now, reply.ttl).Allowed? then 1 else 0)
    ensures m == 0 || m <= limit.maxAttempts
    ensures CountedFrom(After(counters, key, limit, now, reply), key, m, start, limit.window)
    ensures forall k :: k in After(counters, key, limit, now, reply) ==> After(counters, key, limit, now, reply)[k].count >= 1
  {
    m := n + (if reply.Answered? && VerdictOf(counters, key, limit, now, reply.ttl).Allowed? then 1 else 0);
  }

  lemma OtherKeyUntouched(counters: Counters, key: string, limit: RateLimit, now: int, reply: Reply, other: string,
    n: nat, start: int, window: int)
    requires other != key && CountedFrom(counters, other, n, start, window)
    requires forall k :: k in counters ==> counters[k].count >= 1
    ensures CountedFrom(After(counters, key, limit, now, reply), other, n, start, window)
    ensures forall k :: k in After(counters, key, limit, now, reply) ==> After(counters, key, limit, now, reply)[k].count >= 1
  {
  }
}
