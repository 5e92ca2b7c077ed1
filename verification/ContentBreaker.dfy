/** The content service's circuit breaker (content-management-service/src/circuit_breaker.rs) and
    its equivalence with the gateway's on calls that do not overlap. */
module ContentBreaker {
  import Gateway = GatewayBreaker

  datatype State = Closed | Open | HalfOpen

  datatype LastFailure = Never | At(time: int)

  datatype Stats = Stats(failureCount: nat, successCount: nat, lastFailure: LastFailure, stateChangedAt: int)

  datatype Config = Config(failureThreshold: nat, successThreshold: nat, timeout: nat)

  datatype Breaker = Breaker(state: State, stats: Stats)

  function NewBreaker(now: int): Breaker {
    Breaker(Closed, Stats(0, 0, Never, now))
  }

  function Transition(b: Breaker, to: State, now: int): Breaker {
    if to.Open? then Breaker(Open, b.stats.(stateChangedAt := now))
    else Breaker(to, Stats(0, 0, Never, now))
  }

  function OnSuccess(b: Breaker, config: Config, now: int): Breaker {
    var recorded := b.(stats := b.stats.(successCount := b.stats.successCount + 1, failureCount := 0));
    if b.state.HalfOpen? && recorded.stats.successCount >= config.successThreshold
    then Transition(recorded, Closed, now)
    else recorded
  }

  function OnFailure(b: Breaker, config: Config, now: int): Breaker {
    var recorded := b.(stats := b.stats.(failureCount := b.stats.failureCount + 1, successCount := 0, lastFailure := At(now)));
    match b.state
    case Closed => if recorded.stats.failureCount >= config.failureThreshold then Transition(recorded, Open, now) else recorded
    case HalfOpen => Transition(recorded, Open, now)
    case Open => recorded
  }

  function Admit(b: Breaker, config: Config, now: int): (Breaker, bool) {
    match b.state
    case Open =>
      if Gateway.Elapsed(b.stats.stateChangedAt, now) >= config.timeout then (Transition(b, HalfOpen, now), true)
      else (b, false)
    case _ => (b, true)
  }

  function CallAlone(b: Breaker, config: Config, start: int, succeeds: bool, finish: int): (Breaker, bool) {
    var (next, admitted) := Admit(b, config, start);
    if !admitted then (next, false)
    else if succeeds then (OnSuccess(next, config, finish), true)
    else (OnFailure(next, config, finish), true)
  }

  class CircuitBreaker {
    const config: Config
    var state: State
    var stats: Stats

    function Model(): Breaker
      reads this
    {
      Breaker(state, stats)
    }

    constructor (config: Config, now: int)
      ensures this.config == config && Model() == NewBreaker(now)
    {
      this.config, state, stats := config, Closed, Stats(0, 0, Never, now);
    }

    method Call(start: int, succeeds: bool, finish: int) returns (admitted: bool)
      modifies this
      ensures (Model(), admitted) == CallAlone(old(Model()), config, start, succeeds, finish)
    {
      if state.Open? {
        if Gateway.Elapsed(stats.stateChangedAt, start) >= config.timeout {
          TransitionToHalfOpen(start);
        } else {
          return false;
        }
      }
      if succeeds {
        RecordSuccess(finish);
      } else {
        RecordFailure(finish);
      }
      return true;
    }

    method RecordSuccess(now: int)
      modifies this
      ensures Model() == OnSuccess(old(Model()), config, now)
    {
      stats := stats.(successCount := stats.successCount + 1);
      stats := stats.(failureCount := 0);
      if state.HalfOpen? {
        if stats.successCount >= config.successThreshold {
          TransitionToClosed(now);
        }
      }
    }

    method RecordFailure(now: int)
      modifies this
      ensures Model() == OnFailure(old(Model()), config, now)
    {
      stats := stats.(failureCount := stats.failureCount + 1);
      stats := stats.(successCount := 0);
      stats := stats.(lastFailure := At(now));
      match state {
        case Closed =>
          if stats.failureCount >= config.failureThreshold {
            TransitionToOpen(now);
          }
        case HalfOpen => TransitionToOpen(now);
        case Open =>
      }
    }

    method TransitionToOpen(now: int)
      modifies this
      ensures Model() == Transition(old(Model()), Open, now)
    {
      state := Open;
      stats := stats.(stateChangedAt := now);
    }

    method TransitionToHalfOpen(now: int)
      modifies this
      ensures Model() == Transition(old(Model()), HalfOpen, now)
    {
      state := HalfOpen;
      ClearCounts();
      stats := stats.(stateChangedAt := now);
    }

    method TransitionToClosed(now: int)
      modifies this
      ensures Model() == Transition(old(Model()), Closed, now)
    {
      state := Closed;
      ClearCounts();
      stats := stats.(stateChangedAt := now);
    }

    method Reset(now: int)
      modifies this
      ensures Model() == Transition(old(Model()), Closed, now)
    {
      TransitionToClosed(now);
    }

    method ClearCounts()
      modifies this`stats
      ensures stats == Stats(0, 0, Never, old(stats).stateChangedAt)
    {
      stats := stats.(failureCount := 0);
      stats := stats.(successCount := 0);
      stats := stats.(lastFailure := Never);
    }
  }

  // ---------- equivalence on calls that do not overlap ----------

  datatype Event = Call(start: int, succeeds: bool, finish: int) | Reset(time: int)

  /** What a caller sees of a step: whether a call was admitted, and the state after it. */
  datatype Seen = Seen(admitted: bool, state: State)

  function GatewayStep(b: Gateway.Breaker, config: Gateway.Config, e: Event): (Gateway.Breaker, bool) {
    match e
    case Call(start, succeeds, finish) => Gateway.CallAlone(b, config, start, succeeds, finish)
    case Reset(_) => (Gateway.ResetBreaker(b), true)
  }

  function ContentStep(b: Breaker, config: Config, e: Event): (Breaker, bool) {
    match e
    case Call(start, succeeds, finish) => CallAlone(b, config, start, succeeds, finish)
    case Reset(time) => (Transition(b, Closed, time), true)
  }

  function KindOf(state: Gateway.CircuitState): State {
    match state
    case Closed => Closed
    case Open(_) => Open
    case HalfOpen => HalfOpen
  }

  function GatewayTrace(b: Gateway.Breaker, config: Gateway.Config, events: seq<Event>): seq<Seen>
    decreases |events|
  {
    if events == [] then []
    else
      var (next, admitted) := GatewayStep(b, config, events[0]);
      [Seen(admitted, KindOf(next.state))] + GatewayTrace(next, config, events[1..])
  }

  function ContentTrace(b: Breaker, config: Config, events: seq<Event>): seq<Seen>
    decreases |events|
  {
    if events == [] then []
    else
      var (next, admitted) := ContentStep(b, config, events[0]);
      [Seen(admitted, next.state)] + ContentTrace(next, config, events[1..])
  }

  predicate SameConfig(g: Gateway.Config, c: Config) {
    g.failureThreshold == c.failureThreshold && g.successThreshold == c.successThreshold && g.Timeout() == c.timeout
  }

  /** Same kind of state, opened at the same time, and the counts that can still matter agree. */
  predicate Corresponds(g: Gateway.Breaker, c: Breaker) {
    && KindOf(g.state) == c.state
    && (g.state.Open? ==> g.state.openedAt == c.stats.stateChangedAt)
    && (g.state.Closed? ==> g.stats.consecutiveFailures == c.stats.failureCount)
    && (g.state.HalfOpen? ==> g.stats.consecutiveSuccesses == c.stats.successCount)
  }

  lemma StepsCorrespond(g: Gateway.Breaker, gConfig: Gateway.Config, c: Breaker, cConfig: Config, e: Event)
    requires SameConfig(gConfig, cConfig) && Corresponds(g, c)
    ensures var (g', gAdmitted) := GatewayStep(g, gConfig, e);
      var (c', cAdmitted) := ContentStep(c, cConfig, e);
      Corresponds(g', c') && gAdmitted == cAdmitted
  {
  }

  lemma {:induction false} TracesAgree(g: Gateway.Breaker, gConfig: Gateway.Config, c: Breaker, cConfig: Config, events: seq<Event>)
    requires SameConfig(gConfig, cConfig) && Corresponds(g, c)
    ensures GatewayTrace(g, gConfig, events) == ContentTrace(c, cConfig, events)
    decreases |events|
  {
    if events == [] {
    } else {
      StepsCorrespond(g, gConfig, c, cConfig, events[0]);
      TracesAgree(GatewayStep(g, gConfig, events[0]).0, gConfig, ContentStep(c, cConfig, events[0]).0, cConfig, events[1..]);
    }
  }

  /** With equal thresholds and timeouts, the two breakers answer every sequence of calls and
      resets alike and are in the same state after each. */
  lemma BreakersAreEquivalent(gConfig: Gateway.Config, cConfig: Config, now: int, events: seq<Event>)
    requires SameConfig(gConfig, cConfig)
    ensures GatewayTrace(Gateway.FRESH, gConfig, events) == ContentTrace(NewBreaker(now), cConfig, events)
  {
    TracesAgree(Gateway.FRESH, gConfig, NewBreaker(now), cConfig, events);
  }
}
