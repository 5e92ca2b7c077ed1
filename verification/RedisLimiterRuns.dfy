/** Which calls a Redis that answers lets in: the chain of calls that never paused for a window decides. */
module RedisLimiterRuns {
  import opened RateLimitTypes
  import opened RedisLimiter

  datatype Call = Call(clientIP: string, action: Action, time: int, reply: Reply)

  /** No pipeline breaks off between its two commands. */
  predicate NoneHalfDone(calls: seq<Call>) {
    forall i :: 0 <= i < |calls| ==> calls[i].reply != Failed(Incremented)
  }

  /** The stored counters after a run that starts without any. */
  function Run(limits: Limits, calls: seq<Call>): Counters {
    if calls == [] then map[]
    else
      var c := calls[|calls| - 1];
      After(Run(limits, calls[..|calls| - 1]), KeyOf(c.clientIP, c.action), limits.Of(c.action), c.time, c.reply)
  }

  /** The times of the client's calls for the action that reached Redis. */
  function Times(calls: seq<Call>, clientIP: string, action: Action): seq<int> {
    if calls == [] then []
    else
      var (earlier, c) := (Times(calls[..|calls| - 1], clientIP, action), calls[|calls| - 1]);
      if c.clientIP == clientIP && c.action == action && c.reply != Failed(Nothing) then earlier + [c.time] else earlier
  }

  /** How many of the last calls lead up to now without a pause of a whole window. */
  function Chain(times: seq<int>, window: int, now: int): nat {
    if times == [] || window <= 0 || now - times[|times| - 1] >= window then 0
    else 1 + Chain(times[..|times| - 1], window, times[|times| - 1])
  }

  /** The counter of a client and action: its chain at the last call, to expire a window after it. */
  predicate Holds(counters: Counters, key: string, times: seq<int>, window: int) {
    if times == [] || window <= 0 then key !in counters
    else
      var n := |times| - 1;
      key in counters && counters[key] == Counter(1 + Chain(times[..n], window, times[n]), At(times[n] + window))
  }

  lemma OwnCall(counters: Counters, key: string, times: seq<int>, limit: RateLimit, now: int, reply: Reply)
    requires Holds(counters, key, times, limit.window) && reply != Failed(Nothing) && reply != Failed(Incremented)
    ensures Holds(After(counters, key, limit, now, reply), key, times + [now], limit.window)
  {
    assert (times + [now])[..|times|] == times;
  }

  lemma OtherCall(counters: Counters, key: string, limit: RateLimit, now: int, reply: Reply, other: string, times: seq<int>, window: int)
    requires Holds(counters, other, times, window) && (other != key || reply == Failed(Nothing))
    ensures Holds(After(counters, key, limit, now, reply), other, times, window)
  {
  }

  lemma {:induction false} CountersHoldChains(limits: Limits, calls: seq<Call>, clientIP: string, action: Action)
    requires NoneHalfDone(calls)
    ensures Holds(Run(limits, calls), KeyOf(clientIP, action), Times(calls, clientIP, action), limits.Of(action).window)
  {
    if calls == [] {
    } else {
      var (front, c) := (calls[..|calls| - 1], calls[|calls| - 1]);
      var (counters, key) := (Run(limits, front), KeyOf(clientIP, action));
      CountersHoldChains(limits, front, clientIP, action);
      if c.clientIP == clientIP && c.action == action && c.reply != Failed(Nothing) {
        OwnCall(counters, key, Times(front, clientIP, action), limits.Of(action), c.time, c.reply);
      } else {
        if KeyOf(c.clientIP, c.action) == key {
          KeyInjective(c.clientIP, c.action, clientIP, action);
        }
        OtherCall(counters, KeyOf(c.clientIP, c.action), limits.Of(c.action), c.time, c.reply,
          key, Times(front, clientIP, action), limits.Of(action).window);
      }
    }
  }

  /** After any run: a call is allowed exactly when its chain, itself included, is within the limit.
      Denied calls count as much as allowed ones; the time to wait is the key's, or else the window. */
  lemma AnswersFollowChains(limits: Limits, calls: seq<Call>, clientIP: string, action: Action, now: int, ttl: Ttl)
    requires NoneHalfDone(calls)
    ensures var verdict := AnswerTo(limits, calls, clientIP, action, now, ttl);
      && !verdict.Panics?
      && (verdict.Allowed? <==>
        1 + Chain(Times(calls, clientIP, action), limits.Of(action).window, now) <= limits.Of(action).maxAttempts)
      && (verdict.Denied? ==> verdict.retryAfter == if ttl.TtlFailed? then limits.Of(action).window else ttl.time)
  {
    CountersHoldChains(limits, calls, clientIP, action);
  }

  lemma {:induction false} TimesConcat(a: seq<Call>, b: seq<Call>, clientIP: string, action: Action)
    ensures Times(a + b, clientIP, action) == Times(a, clientIP, action) + Times(b, clientIP, action)
  {
    if b == [] {
      assert a + b == a && Times(a, clientIP, action) + [] == Times(a, clientIP, action);
    } else {
      assert (a + b)[..|a + b| - 1] == a + b[..|b| - 1];
      TimesConcat(a, b[..|b| - 1], clientIP, action);
    }
  }

  lemma TimesAfter(calls: seq<Call>, c: Call, others: seq<Call>)
    requires c.reply.Answered? && Times(others, c.clientIP, c.action) == []
    ensures Times(calls + [c] + others, c.clientIP, c.action) == Times(calls, c.clientIP, c.action) + [c.time]
  {
    var times := Times(calls, c.clientIP, c.action);
    assert (calls + [c])[..|calls|] == calls;
    TimesConcat(calls + [c], others, c.clientIP, c.action);
    assert times + [c.time] + [] == times + [c.time];
  }

  lemma ChainGrows(times: seq<int>, window: int, now: int, later: int)
    requires window > 0
    ensures Chain(times + [now], window, later) == if later - now >= window then 0 else 1 + Chain(times, window, now)
  {
    assert (times + [now])[..|times|] == times;
  }

  function AnswerTo(limits: Limits, calls: seq<Call>, clientIP: string, action: Action, now: int, ttl: Ttl): Verdict {
    VerdictOf(Run(limits, calls), KeyOf(clientIP, action), limits.Of(action), now, ttl)
  }

  /** A client that was refused is next let in exactly when it has paused for a whole window: one
      that keeps trying is kept out for ever. */
  lemma RefusedUntilPause(limits: Limits, calls: seq<Call>, c: Call, others: seq<Call>, later: int, ttl: Ttl)
    requires NoneHalfDone(calls) && NoneHalfDone(others) && c.reply.Answered?
    requires limits.Of(c.action).maxAttempts > 0 && limits.Of(c.action).window > 0
    requires AnswerTo(limits, calls, c.clientIP, c.action, c.time, c.reply.ttl).Denied?
    requires Times(others, c.clientIP, c.action) == []
    ensures AnswerTo(limits, calls + [c] + others, c.clientIP, c.action, later, ttl).Allowed?
      <==> later - c.time >= limits.Of(c.action).window
  {
    AnswersFollowChains(limits, calls, c.clientIP, c.action, c.time, c.reply.ttl);
    AnswersFollowChains(limits, calls + [c] + others, c.clientIP, c.action, later, ttl);
    TimesAfter(calls, c, others);
    ChainGrows(Times(calls, c.clientIP, c.action), limits.Of(c.action).window, c.time, later);
  }
}
