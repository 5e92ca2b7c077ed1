/** The memory limiter against an ideal one that keeps every accepted attempt. */
module MemoryLimiterIdeal {
  import opened RateLimitTypes
  import opened MemoryLimiter

  datatype Event =
    | Attempt(clientIP: string, action: Action, time: int)
    | CleanupTick(time: int)

  // ---------- the ideal limiter ----------

  /** For each client and action, the times of all accepted attempts, oldest first. */
  type Log = map<(string, Action), seq<int>>

  function LogOf(log: Log, clientIP: string, action: Action): seq<int> {
    if (clientIP, action) in log then log[(clientIP, action)] else []
  }

  /** How many of the times are later than the cutoff. */
  function Later(times: seq<int>, cutoff: int): nat {
    if times == [] then 0
    else (if times[0] > cutoff then 1 else 0) + Later(times[1..], cutoff)
  }

  /** Fewer than the limit were accepted in the half-open window that ends now. */
  predicate IdealAllows(limits: Limits, log: Log, clientIP: string, action: Action, now: int) {
    Later(LogOf(log, clientIP, action), now - limits.Of(action).window) < limits.Of(action).maxAttempts
  }

  /** The log after an attempt: the attempt is on it if it is allowed. */
  function Accept(limits: Limits, log: Log, clientIP: string, action: Action, now: int): Log {
    if IdealAllows(limits, log, clientIP, action, now)
    then log[(clientIP, action) := LogOf(log, clientIP, action) + [now]] else log
  }

  function IdealStep(limits: Limits, log: Log, e: Event): Log {
    match e
    case Attempt(clientIP, action, time) => Accept(limits, log, clientIP, action, time)
    case CleanupTick(_) => log
  }

  /** The log after a run. */
  function IdealLog(limits: Limits, events: seq<Event>): Log {
    if events == [] then map[] else IdealStep(limits, IdealLog(limits, events[..|events| - 1]), events[|events| - 1])
  }

  predicate InOrder(events: seq<Event>) {
    forall i, j :: 0 <= i < j < |events| ==> events[i].time <= events[j].time
  }

  /** The oldest accepted attempt that is later than the cutoff. */
  predicate IsOldest(times: seq<int>, cutoff: int, oldest: int) {
    oldest in times && oldest > cutoff && forall t :: t in times && t > cutoff ==> oldest <= t
  }

  // ---------- the limiter's own run ----------

  function Step(limits: Limits, clients: Clients, e: Event): (after: Clients)
    requires KeysLong(clients)
    ensures KeysLong(after)
  {
    match e
    case Attempt(clientIP, action, time) =>
      KeyTellsAction(clientIP, action);
      CheckLimit(clients, KeyOf(clientIP, action), limits.Of(action), time).0
    case CleanupTick(time) => Cleaned(clients, limits.login, limits.register, time)
  }

  function Run(limits: Limits, events: seq<Event>): (clients: Clients)
    ensures KeysLong(clients)
  {
    if events == [] then map[] else Step(limits, Run(limits, events[..|events| - 1]), events[|events| - 1])
  }

  // ---------- what expiry leaves ----------

  lemma {:induction false} UnexpiredTwice(times: seq<int>, earlier: int, later: int)
    requires earlier <= later
    ensures Unexpired(Unexpired(times, earlier), later) == Unexpired(times, later)
  {
    if times == [] {
    } else {
      var n := |times| - 1;
      UnexpiredTwice(times[..n], earlier, later);
      var kept := Unexpired(times[..n], earlier);
      assert (kept + [times[n]])[..|kept|] == kept;
      assert kept + [] == kept && Unexpired(times[..n], later) + [] == Unexpired(times[..n], later);
    }
  }

  lemma UnexpiredSnoc(times: seq<int>, t: int, cutoff: int)
    ensures Unexpired(times + [t], cutoff) == Unexpired(times, cutoff) + (if t > cutoff then [t] else [])
  {
    assert (times + [t])[..|times|] == times;
  }

  lemma {:induction false} LaterSnoc(times: seq<int>, t: int, cutoff: int)
    ensures Later(times + [t], cutoff) == Later(times, cutoff) + (if t > cutoff then 1 else 0)
  {
    if times == [] {
      assert [] + [t] == [t];
    } else {
      LaterSnoc(times[1..], t, cutoff);
      assert (times + [t])[1..] == times[1..] + [t];
    }
  }

  lemma {:induction false} UnexpiredCounts(times: seq<int>, cutoff: int)
    ensures |Unexpired(times, cutoff)| == Later(times, cutoff)
    ensures forall t :: t in Unexpired(times, cutoff) <==> t in times && t > cutoff
  {
    if times == [] {
    } else {
      var n := |times| - 1;
      UnexpiredCounts(times[..n], cutoff);
      LaterSnoc(times[..n], times[n], cutoff);
      assert times == times[..n] + [times[n]];
    }
  }

  predicate Sorted(times: seq<int>) {
    forall i, j :: 0 <= i < j < |times| ==> times[i] <= times[j]
  }

  lemma SortedSnoc(times: seq<int>, t: int)
    requires Sorted(times) && forall s :: s in times ==> s <= t
    ensures Sorted(times + [t])
  {
    assert forall i :: 0 <= i < |times| ==> times[i] in times;
  }

  lemma {:induction false} UnexpiredSorted(times: seq<int>, cutoff: int)
    requires Sorted(times)
    ensures Sorted(Unexpired(times, cutoff))
  {
    if times == [] {
    } else {
      var n := |times| - 1;
      UnexpiredSorted(times[..n], cutoff);
      UnexpiredCounts(times[..n], cutoff);
      SortedSnoc(Unexpired(times[..n], cutoff), times[n]);
    }
  }

  // ---------- agreement ----------

  predicate AlikeAt(attempts: seq<int>, times: seq<int>, cutoff: int) {
    Unexpired(attempts, cutoff) == Unexpired(times, cutoff)
  }

  /** From now on, the recorded attempts and the log look the same through any window. */
  ghost predicate Alike(attempts: seq<int>, times: seq<int>, from: int) {
    forall cutoff :: cutoff >= from ==> AlikeAt(attempts, times, cutoff)
  }

  lemma AlikeAfterCheck(attempts: seq<int>, times: seq<int>, from: int, cutoff: int, now: int)
    requires Alike(attempts, times, from) && from <= cutoff
    ensures Alike(Unexpired(attempts, cutoff), times, cutoff)
    ensures Alike(Unexpired(attempts, cutoff) + [now], times + [now], cutoff)
  {
    forall c | c >= cutoff
      ensures AlikeAt(Unexpired(attempts, cutoff), times, c)
      ensures AlikeAt(Unexpired(attempts, cutoff) + [now], times + [now], c)
    {
      assert AlikeAt(attempts, times, c);
      UnexpiredTwice(attempts, cutoff, c);
      UnexpiredSnoc(Unexpired(attempts, cutoff), now, c);
      UnexpiredSnoc(times, now, c);
    }
  }

  lemma {:induction false} NoneUnexpired(attempts: seq<int>, cutoff: int, c: int)
    requires AllExpired(attempts, cutoff) && cutoff <= c
    ensures Unexpired(attempts, c) == []
  {
    if attempts == [] {
    } else {
      NoneUnexpired(attempts[..|attempts| - 1], cutoff, c);
    }
  }

  /** What is on record for a client and action agrees with its log, which is in order. */
  ghost predicate Tracks(attempts: seq<int>, times: seq<int>, window: int, now: int) {
    Alike(attempts, times, now - window) && Sorted(times) && forall t :: t in times ==> t <= now
  }

  lemma TracksLater(attempts: seq<int>, times: seq<int>, window: int, now: int, later: int)
    requires Tracks(attempts, times, window, now) && now <= later
    ensures Tracks(attempts, times, window, later)
  {
  }

  lemma TracksRefused(attempts: seq<int>, times: seq<int>, window: int, now: int)
    requires Tracks(attempts, times, window, now)
    ensures Unexpired(attempts, now - window) == Unexpired(times, now - window)
    ensures Tracks(Unexpired(attempts, now - window), times, window, now)
  {
    AlikeAfterCheck(attempts, times, now - window, now - window, now);
    assert AlikeAt(attempts, times, now - window);
  }

  lemma TracksAccepted(attempts: seq<int>, times: seq<int>, window: int, now: int)
    requires Tracks(attempts, times, window, now)
    ensures Tracks(Unexpired(attempts, now - window) + [now], times + [now], window, now)
  {
    AlikeAfterCheck(attempts, times, now - window, now - window, now);
    SortedSnoc(times, now);
  }

  lemma TracksCleanup(attempts: seq<int>, times: seq<int>, window: int, now: int)
    requires Tracks(attempts, times, window, now) && AllExpired(attempts, now - window)
    ensures Tracks([], times, window, now)
  {
    forall c | c >= now - window ensures AlikeAt([], times, c) {
      assert AlikeAt(attempts, times, c);
      NoneUnexpired(attempts, now - window, c);
    }
  }

  /** The answer to an attempt with these attempts left. */
  function VerdictOn(valid: seq<int>, limit: RateLimit, now: int): Verdict {
    if |valid| < limit.maxAttempts then Allowed
    else if valid == [] then Panics
    else
      var wait := limit.window - (now - valid[0]);
      Denied(if wait < 0 then 0 else wait)
  }

  lemma CheckIs(clients: Clients, key: string, limit: RateLimit, now: int)
    ensures var valid := Unexpired(AttemptsOf(clients, key), now - limit.window);
      && CheckLimit(clients, key, limit, now).1 == VerdictOn(valid, limit, now)
      && AttemptsOf(CheckLimit(clients, key, limit, now).0, key)
        == (if |valid| < limit.maxAttempts then valid + [now] else valid)
  {
  }

  ghost predicate AgreeFor(limits: Limits, clients: Clients, log: Log, now: int, clientIP: string, action: Action) {
    Tracks(AttemptsOf(clients, KeyOf(clientIP, action)), LogOf(log, clientIP, action), limits.Of(action).window, now)
  }

  /** The limiter and the ideal one record the same attempts. */
  lemma RecordsAlike(attempts: seq<int>, times: seq<int>, limit: RateLimit, now: int, after: seq<int>)
    requires Tracks(attempts, times, limit.window, now)
    requires var valid := Unexpired(attempts, now - limit.window);
      after == if |valid| < limit.maxAttempts then valid + [now] else valid
    ensures Tracks(after, if Later(times, now - limit.window) < limit.maxAttempts then times + [now] else times, limit.window, now)
  {
    SameCount(attempts, times, limit.window, now);
    if Later(times, now - limit.window) < limit.maxAttempts {
      TracksAccepted(attempts, times, limit.window, now);
    } else {
      TracksRefused(attempts, times, limit.window, now);
    }
  }

  lemma SameCount(attempts: seq<int>, times: seq<int>, window: int, now: int)
    requires Tracks(attempts, times, window, now)
    ensures |Unexpired(attempts, now - window)| == Later(times, now - window)
  {
    assert AlikeAt(attempts, times, now - window);
    UnexpiredCounts(times, now - window);
  }

  lemma OwnStepAt(clients: Clients, key: string, times: seq<int>, limit: RateLimit, now: int)
    requires Tracks(AttemptsOf(clients, key), times, limit.window, now)
    ensures Tracks(AttemptsOf(CheckLimit(clients, key, limit, now).0, key),
      if Later(times, now - limit.window) < limit.maxAttempts then times + [now] else times, limit.window, now)
  {
    CheckIs(clients, key, limit, now);
    RecordsAlike(AttemptsOf(clients, key), times, limit, now, AttemptsOf(CheckLimit(clients, key, limit, now).0, key));
  }

  lemma LogAfter(limits: Limits, log: Log, clientIP: string, action: Action, now: int)
    ensures var (times, limit) := (LogOf(log, clientIP, action), limits.Of(action));
      LogOf(Accept(limits, log, clientIP, action, now), clientIP, action)
        == if Later(times, now - limit.window) < limit.maxAttempts then times + [now] else times
  {
  }

  lemma OwnAttemptStep(limits: Limits, clients: Clients, log: Log, now: int, clientIP: string, action: Action)
    requires AgreeFor(limits, clients, log, now, clientIP, action)
    ensures AgreeFor(limits, CheckLimit(clients, KeyOf(clientIP, action), limits.Of(action), now).0,
      Accept(limits, log, clientIP, action, now), now, clientIP, action)
  {
    var (key, times, limit) := (KeyOf(clientIP, action), LogOf(log, clientIP, action), limits.Of(action));
    OwnStepAt(clients, key, times, limit, now);
    LogAfter(limits, log, clientIP, action, now);
    AgreeIs(limits, CheckLimit(clients, key, limit, now).0, Accept(limits, log, clientIP, action, now), now, clientIP, action,
      if Later(times, now - limit.window) < limit.maxAttempts then times + [now] else times);
  }

  lemma AgreeIs(limits: Limits, clients: Clients, log: Log, now: int, clientIP: string, action: Action, times: seq<int>)
    requires times == LogOf(log, clientIP, action)
    requires Tracks(AttemptsOf(clients, KeyOf(clientIP, action)), times, limits.Of(action).window, now)
    ensures AgreeFor(limits, clients, log, now, clientIP, action)
  {
  }

  lemma OtherAttemptStep(limits: Limits, clients: Clients, log: Log, now: int,
    ownIP: string, own: Action, clientIP: string, action: Action)
    requires AgreeFor(limits, clients, log, now, clientIP, action) && (ownIP != clientIP || own != action)
    ensures AgreeFor(limits, CheckLimit(clients, KeyOf(ownIP, own), limits.Of(own), now).0,
      Accept(limits, log, ownIP, own, now), now, clientIP, action)
  {
    if KeyOf(ownIP, own) == KeyOf(clientIP, action) {
      KeyInjective(ownIP, own, clientIP, action);
    }
    OtherKeyUntouched(clients, KeyOf(ownIP, own), limits.Of(own), now, KeyOf(clientIP, action));
  }

  lemma CleanupStep(limits: Limits, clients: Clients, log: Log, now: int, clientIP: string, action: Action)
    requires KeysLong(clients) && AgreeFor(limits, clients, log, now, clientIP, action)
    ensures AgreeFor(limits, Cleaned(clients, limits.login, limits.register, now), log, now, clientIP, action)
  {
    var key := KeyOf(clientIP, action);
    KeyTellsAction(clientIP, action);
    if key in clients && Stale(key, clients[key], limits.login, limits.register, now) {
      TracksCleanup(clients[key], LogOf(log, clientIP, action), limits.Of(action).window, now);
    }
  }

  lemma {:induction false} RunAgrees(limits: Limits, events: seq<Event>, now: int, clientIP: string, action: Action)
    requires InOrder(events) && forall i :: 0 <= i < |events| ==> events[i].time <= now
    ensures AgreeFor(limits, Run(limits, events), IdealLog(limits, events), now, clientIP, action)
  {
    if events == [] {
    } else {
      var (front, e) := (events[..|events| - 1], events[|events| - 1]);
      var (clients, log) := (Run(limits, front), IdealLog(limits, front));
      RunAgrees(limits, front, e.time, clientIP, action);
      StepAgrees(limits, clients, log, e, clientIP, action);
      TracksLater(AttemptsOf(Run(limits, events), KeyOf(clientIP, action)),
        LogOf(IdealLog(limits, events), clientIP, action), limits.Of(action).window, e.time, now);
    }
  }

  lemma StepAgrees(limits: Limits, clients: Clients, log: Log, e: Event, clientIP: string, action: Action)
    requires KeysLong(clients) && AgreeFor(limits, clients, log, e.time, clientIP, action)
    ensures AgreeFor(limits, Step(limits, clients, e), IdealStep(limits, log, e), e.time, clientIP, action)
  {
    match e
    case Attempt(ownIP, own, time) =>
      if ownIP == clientIP && own == action {
        OwnAttemptStep(limits, clients, log, time, clientIP, action);
      } else {
        OtherAttemptStep(limits, clients, log, time, ownIP, own, clientIP, action);
      }
    case CleanupTick(time) =>
      CleanupStep(limits, clients, log, time, clientIP, action);
  }

  /** What the ideal limiter says of an attempt. */
  predicate IsIdeal(verdict: Verdict, times: seq<int>, limit: RateLimit, now: int) {
    var count := Later(times, now - limit.window);
    && (verdict.Allowed? <==> count < limit.maxAttempts)
    && (verdict.Panics? <==> count >= limit.maxAttempts && count == 0)
    && (verdict.Denied? ==> verdict.retryAfter > 0 && IsOldest(times, now - limit.window, now - limit.window + verdict.retryAfter))
  }

  lemma VerdictIsIdeal(times: seq<int>, limit: RateLimit, now: int)
    requires Sorted(times)
    ensures IsIdeal(VerdictOn(Unexpired(times, now - limit.window), limit, now), times, limit, now)
  {
    UnexpiredCounts(times, now - limit.window);
    UnexpiredSorted(times, now - limit.window);
    FirstIsOldest(times, now - limit.window);
  }

  /** After any run of attempts and cleanups: an attempt is allowed exactly when fewer than the limit
      were accepted for its client and action in the half-open window that ends now, refusals not
      counting; when it is denied, the time to wait is that until the oldest of those leaves. */
  lemma AttemptsAreIdeal(limits: Limits, events: seq<Event>, clientIP: string, action: Action, now: int)
    requires InOrder(events) && forall i :: 0 <= i < |events| ==> events[i].time <= now
    ensures IsIdeal(CheckLimit(Run(limits, events), KeyOf(clientIP, action), limits.Of(action), now).1,
      LogOf(IdealLog(limits, events), clientIP, action), limits.Of(action), now)
  {
    RunAgrees(limits, events, now, clientIP, action);
    CheckIsIdeal(Run(limits, events), KeyOf(clientIP, action), LogOf(IdealLog(limits, events), clientIP, action), limits.Of(action), now);
  }

  lemma CheckIsIdeal(clients: Clients, key: string, times: seq<int>, limit: RateLimit, now: int)
    requires Tracks(AttemptsOf(clients, key), times, limit.window, now)
    ensures IsIdeal(CheckLimit(clients, key, limit, now).1, times, limit, now)
  {
    CheckIs(clients, key, limit, now);
    AnswersAlike(AttemptsOf(clients, key), times, limit, now);
  }

  lemma AnswersAlike(attempts: seq<int>, times: seq<int>, limit: RateLimit, now: int)
    requires Tracks(attempts, times, limit.window, now)
    ensures IsIdeal(VerdictOn(Unexpired(attempts, now - limit.window), limit, now), times, limit, now)
  {
    assert AlikeAt(attempts, times, now - limit.window);
    VerdictIsIdeal(times, limit, now);
  }

  lemma FirstIsOldest(times: seq<int>, cutoff: int)
    requires Sorted(Unexpired(times, cutoff))
    requires forall t :: t in Unexpired(times, cutoff) <==> t in times && t > cutoff
    ensures Unexpired(times, cutoff) != [] ==> IsOldest(times, cutoff, Unexpired(times, cutoff)[0])
  {
    var valid := Unexpired(times, cutoff);
    if valid != [] {
      assert valid[0] in valid;
      forall t | t in times && t > cutoff ensures valid[0] <= t {
        var i :| 0 <= i < |valid| && valid[i] == t;
      }
    }
  }

  /** A cleanup keeps exactly the entries with an attempt left in their own action's window, as they are. */
  lemma CleanupKeepsExactly(limits: Limits, clients: Clients, now: int, clientIP: string, action: Action)
    requires KeysLong(clients)
    ensures var (key, after) := (KeyOf(clientIP, action), Cleaned(clients, limits.login, limits.register, now));
      && (key in after <==> key in clients && exists i :: 0 <= i < |clients[key]| && clients[key][i] > now - limits.Of(action).window)
      && (key in after ==> after[key] == clients[key])
  {
    KeyTellsAction(clientIP, action);
  }
}
