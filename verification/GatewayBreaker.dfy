/** The gateway's circuit breaker and its overlapping calls (circuit_breaker/breaker.rs). */
module GatewayBreaker {

  const NANOS_PER_SECOND: nat := 1_000_000_000

  datatype Config = Config(failureThreshold: nat, successThreshold: nat, timeoutSeconds: nat) {
    function Timeout(): nat {
      timeoutSeconds * NANOS_PER_SECOND
    }
  }

  datatype CircuitState = Closed | Open(openedAt: int) | HalfOpen

  datatype Stats = Stats(consecutiveFailures: nat, consecutiveSuccesses: nat, totalFailures: nat, totalSuccesses: nat)

  datatype Breaker = Breaker(state: CircuitState, stats: Stats)

  const FRESH := Breaker(Closed, Stats(0, 0, 0, 0))

  /** Time since an earlier instant, zero if the clock has not passed it. */
  function Elapsed(since: int, now: int): nat {
    if now < since then 0 else now - since
  }

  // ---------- the critical sections ----------

  function CanExecute(b: Breaker, config: Config, now: int): (Breaker, bool) {
    match b.state
    case Closed => (b, true)
    case HalfOpen => (b, true)
    case Open(openedAt) =>
      if Elapsed(openedAt, now) >= config.Timeout()
      then (Breaker(HalfOpen, b.stats.(consecutiveSuccesses := 0, consecutiveFailures := 0)), true)
      else (b, false)
  }

  function RecordSuccess(b: Breaker, config: Config): Breaker {
    var stats := b.stats.(
      consecutiveSuccesses := b.stats.consecutiveSuccesses + 1,
      consecutiveFailures := 0,
      totalSuccesses := b.stats.totalSuccesses + 1);
    if b.state.HalfOpen? && stats.consecutiveSuccesses >= config.successThreshold
    then Breaker(Closed, stats.(consecutiveSuccesses := 0))
    else Breaker(b.state, stats)
  }

  function RecordFailure(b: Breaker, config: Config, now: int): Breaker {
    var stats := b.stats.(
      consecutiveFailures := b.stats.consecutiveFailures + 1,
      consecutiveSuccesses := 0,
      totalFailures := b.stats.totalFailures + 1);
    match b.state
    case Closed => Breaker(if stats.consecutiveFailures >= config.failureThreshold then Open(now) else Closed, stats)
    case HalfOpen => Breaker(Open(now), stats)
    case Open(_) => Breaker(b.state, stats)
  }

  function ResetBreaker(b: Breaker): Breaker {
    Breaker(Closed, b.stats.(consecutiveFailures := 0, consecutiveSuccesses := 0))
  }

  class CircuitBreaker {
    const config: Config
    var state: CircuitState
    var stats: Stats

    function Model(): Breaker
      reads this
    {
      Breaker(state, stats)
    }

    constructor (config: Config)
      ensures this.config == config && Model() == FRESH
    {
      this.config, state, stats := config, Closed, Stats(0, 0, 0, 0);
    }

    method Admit(now: int) returns (admitted: bool)
      modifies this
      ensures (Model(), admitted) == CanExecute(old(Model()), config, now)
    {
      match state
      case Closed => return true;
      case HalfOpen => return true;
      case Open(openedAt) =>
        if Elapsed(openedAt, now) >= config.Timeout() {
          state := HalfOpen;
          stats := stats.(consecutiveSuccesses := 0);
          stats := stats.(consecutiveFailures := 0);
          return true;
        }
        return false;
    }

    method OnSuccess()
      modifies this
      ensures Model() == RecordSuccess(old(Model()), config)
    {
      stats := stats.(consecutiveSuccesses := stats.consecutiveSuccesses + 1);
      stats := stats.(consecutiveFailures := 0);
      stats := stats.(totalSuccesses := stats.totalSuccesses + 1);
      if state.HalfOpen? {
        if stats.consecutiveSuccesses >= config.successThreshold {
          state := Closed;
          stats := stats.(consecutiveSuccesses := 0);
        }
      }
    }

    method OnFailure(now: int)
      modifies this
      ensures Model() == RecordFailure(old(Model()), config, now)
    {
      stats := stats.(consecutiveFailures := stats.consecutiveFailures + 1);
      stats := stats.(consecutiveSuccesses := 0);
      stats := stats.(totalFailures := stats.totalFailures + 1);
      match state {
        case Closed =>
          if stats.consecutiveFailures >= config.failureThreshold {
            state := Open(now);
          }
        case HalfOpen => state := Open(now);
        case Open(_) =>
      }
    }

    method Reset()
      modifies this
      ensures Model() == ResetBreaker(old(Model()))
    {
      state := Closed;
      stats := stats.(consecutiveFailures := 0);
      stats := stats.(consecutiveSuccesses := 0);
    }

    /** A call that nothing else overlaps: admission, the operation, and recording its result. */
    method Call(start: int, succeeds: bool, finish: int) returns (admitted: bool)
      modifies this
      ensures (Model(), admitted) == CallAlone(old(Model()), config, start, succeeds, finish)
    {
      admitted := Admit(start);
      if !admitted {
        return;
      }
      if succeeds {
        OnSuccess();
      } else {
        OnFailure(finish);
      }
    }
  }

  function CallAlone(b: Breaker, config: Config, start: int, succeeds: bool, finish: int): (Breaker, bool) {
    var (next, admitted) := CanExecute(b, config, start);
    if !admitted then (next, false)
    else if succeeds then (RecordSuccess(next, config), true)
    else (RecordFailure(next, config, finish), true)
  }
}
