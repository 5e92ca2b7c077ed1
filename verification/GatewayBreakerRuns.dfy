/** Every interleaving of the gateway breaker's critical sections over any number of calls in flight. */
module GatewayBreakerRuns {
  import opened GatewayBreaker

  /** The breaker with a count of its calls: running, ever admitted, and dropped without a record. */
  datatype World = World(breaker: Breaker, inFlight: nat, admitted: nat, abandoned: nat)

  datatype Event =
    | Ask(time: int)
    | Succeed(time: int)
    | Fail(time: int)
    | Abandon(time: int)
    | Reset(time: int)

  /** Only a call in flight can finish or be abandoned. */
  predicate Possible(w: World, e: Event) {
    e.Ask? || e.Reset? || w.inFlight > 0
  }

  function Step(w: World, config: Config, e: Event): World
    requires Possible(w, e)
  {
    match e
    case Ask(time) =>
      var (b, ok) := CanExecute(w.breaker, config, time);
      if ok then World(b, w.inFlight + 1, w.admitted + 1, w.abandoned) else w.(breaker := b)
    case Succeed(_) => w.(breaker := RecordSuccess(w.breaker, config), inFlight := w.inFlight - 1)
    case Fail(time) => w.(breaker := RecordFailure(w.breaker, config, time), inFlight := w.inFlight - 1)
    case Abandon(_) => w.(inFlight := w.inFlight - 1, abandoned := w.abandoned + 1)
    case Reset(_) => w.(breaker := ResetBreaker(w.breaker))
  }

  const START := World(FRESH, 0, 0, 0)

  predicate IsRun(config: Config, events: seq<Event>)
    decreases |events|, 0
  {
    events == [] ||
    (var n := |events| - 1;
     IsRun(config, events[..n]) && Possible(After(config, events[..n]), events[n]))
  }

  function After(config: Config, events: seq<Event>): World
    requires IsRun(config, events)
    decreases |events|, 1
  {
    if events == [] then START
    else
      var n := |events| - 1;
      Step(After(config, events[..n]), config, events[n])
  }

  lemma {:induction false} PrefixIsRun(config: Config, events: seq<Event>, k: nat)
    requires IsRun(config, events) && k <= |events|
    ensures IsRun(config, events[..k])
  {
    if k < |events| {
      var n := |events| - 1;
      PrefixIsRun(config, events[..n], k);
      assert events[..n][..k] == events[..k];
    } else {
      assert events[..k] == events;
    }
  }

  /** The circuit's state after the first k events. */
  function StateAt(config: Config, events: seq<Event>, k: nat): CircuitState
    requires IsRun(config, events) && k <= |events|
  {
    PrefixIsRun(config, events, k);
    After(config, events[..k]).breaker.state
  }

  function AtLeastOne(n: nat): nat {
    if n == 0 then 1 else n
  }

  // ---------- what every reachable world satisfies ----------

  /** Below the threshold while closed; a clean slate of failures and below the threshold of successes while half-open. */
  predicate Sound(config: Config, b: Breaker) {
    && (b.state.Closed? ==> b.stats.consecutiveFailures < AtLeastOne(config.failureThreshold))
    && (b.state.HalfOpen? ==>
      b.stats.consecutiveFailures == 0 && b.stats.consecutiveSuccesses < AtLeastOne(config.successThreshold))
  }

  lemma {:induction false} EveryWorldSound(config: Config, events: seq<Event>)
    requires IsRun(config, events)
    ensures Sound(config, After(config, events).breaker)
  {
    if events == [] {
    } else {
      EveryWorldSound(config, events[..|events| - 1]);
    }
  }

  /** Every admitted call is recorded once, still running, or abandoned. */
  lemma {:induction false} CallsAreAccountedFor(config: Config, events: seq<Event>)
    requires IsRun(config, events)
    ensures var w := After(config, events);
      w.admitted == w.breaker.stats.totalSuccesses + w.breaker.stats.totalFailures + w.inFlight + w.abandoned
  {
    if events == [] {
    } else {
      CallsAreAccountedFor(config, events[..|events| - 1]);
    }
  }

  // ---------- an open circuit stays shut ----------

  predicate NoReset(events: seq<Event>) {
    forall i :: 0 <= i < |events| ==> !events[i].Reset?
  }

  /** No call asks once the timeout has passed. */
  predicate AsksTooEarly(events: seq<Event>, openedAt: int, timeout: nat) {
    forall i :: 0 <= i < |events| && events[i].Ask? ==> timeout > 0 && events[i].time < openedAt + timeout
  }

  /** Once open, the circuit stays open since the same time and admits nothing until it is reset or a
      call asks after the timeout, whatever late results of earlier calls are recorded, and whenever. */
  lemma {:induction false} OpenAdmitsNothing(config: Config, events: seq<Event>, later: seq<Event>)
    requires IsRun(config, events) && IsRun(config, events + later)
    requires After(config, events).breaker.state.Open?
    requires var openedAt := After(config, events).breaker.state.openedAt;
      NoReset(later) && AsksTooEarly(later, openedAt, config.Timeout())
    ensures After(config, events + later).breaker.state == After(config, events).breaker.state
    ensures After(config, events + later).admitted == After(config, events).admitted
  {
    if later == [] {
      assert events + later == events;
    } else {
      var n := |later| - 1;
      assert (events + later)[..|events| + n] == events + later[..n];
      OpenAdmitsNothing(config, events, later[..n]);
    }
  }

  /** What moves an open circuit: a reset, or a call that asks after the timeout and is admitted. */
  lemma OpenMovesExactly(w: World, config: Config, e: Event)
    requires Possible(w, e) && w.breaker.state.Open?
    ensures var (w', openedAt) := (Step(w, config, e), w.breaker.state.openedAt);
      var timedOut := config.Timeout() == 0 || e.time >= openedAt + config.Timeout();
      && (w'.breaker.state.Closed? <==> e.Reset?)
      && (w'.breaker.state.HalfOpen? <==> e.Ask? && timedOut)
      && (w'.breaker.state.Open? ==> w'.breaker.state.openedAt == openedAt)
      && w'.admitted == w.admitted + (if e.Ask? && timedOut then 1 else 0)
  {
  }

  /** A circuit that is not open admits every call, which leaves it as it is, and opens only at the
      time of a failure that it records; half-open, every failure opens it. */
  lemma NotOpenMovesExactly(w: World, config: Config, e: Event)
    requires Possible(w, e) && !w.breaker.state.Open?
    ensures var w' := Step(w, config, e);
      && w'.admitted == w.admitted + (if e.Ask? then 1 else 0)
      && (e.Ask? || e.Abandon? ==> w'.breaker == w.breaker)
      && (w'.breaker.state.Open? ==> e.Fail? && w'.breaker.state.openedAt == e.time)
      && (w.breaker.state.HalfOpen? && e.Fail? ==> w'.breaker.state.Open?)
  {
  }

  /** In every run the totals are the numbers of successes and of failures recorded. */
  lemma {:induction false} TotalsExactly(config: Config, events: seq<Event>)
    requires IsRun(config, events)
    ensures var stats := After(config, events).breaker.stats;
      stats.totalSuccesses == Count(events, false) && stats.totalFailures == Count(events, true)
  {
    if events == [] {
    } else {
      TotalsExactly(config, events[..|events| - 1]);
    }
  }

  // ---------- why the circuit opens and closes ----------

  function Count(events: seq<Event>, failures: bool): nat {
    if events == [] then 0
    else
      var n := |events| - 1;
      Count(events[..n], failures) + (if (if failures then events[n].Fail? else events[n].Succeed?) then 1 else 0)
  }

  predicate NoneOf(events: seq<Event>, successes: bool) {
    forall i :: 0 <= i < |events| ==> !events[i].Reset? && !(if successes then events[i].Succeed? else events[i].Fail?)
  }

  /** Closed all through the last events from lo on, in which only failures are recorded, as many as counted. */
  predicate ClosedStreak(config: Config, events: seq<Event>, lo: nat)
    requires IsRun(config, events)
  {
    && lo <= |events|
    && (forall k :: lo <= k <= |events| ==> StateAt(config, events, k).Closed?)
    && NoneOf(events[lo..], true)
    && Count(events[lo..], true) == After(config, events).breaker.stats.consecutiveFailures
  }

  lemma StateAtFront(config: Config, events: seq<Event>, k: nat)
    requires events != [] && IsRun(config, events) && k < |events|
    ensures StateAt(config, events, k) == StateAt(config, events[..|events| - 1], k)
  {
    PrefixIsRun(config, events, k);
    assert events[..|events| - 1][..k] == events[..k];
  }

  lemma StateAtEnd(config: Config, events: seq<Event>)
    requires IsRun(config, events)
    ensures StateAt(config, events, |events|) == After(config, events).breaker.state
  {
    assert events[..|events|] == events;
  }

  lemma SuffixGrows(events: seq<Event>, lo: nat)
    requires lo < |events|
    ensures var n := |events| - 1;
      events[lo..] == events[..n][lo..] + [events[n]] && events[lo..][..n - lo] == events[..n][lo..]
  {
  }

  lemma {:induction false} FindClosedStreak(config: Config, events: seq<Event>) returns (lo: nat)
    requires IsRun(config, events) && After(config, events).breaker.state.Closed?
    ensures ClosedStreak(config, events, lo)
  {
    lo := |events|;
    StateAtEnd(config, events);
    if events == [] {
    } else {
      var n := |events| - 1;
      var before := After(config, events[..n]).breaker;
      if before.state.Closed? && !events[n].Succeed? && !events[n].Reset? {
        lo := FindClosedStreak(config, events[..n]);
        SuffixGrows(events, lo);
        forall k | lo <= k < |events| ensures StateAt(config, events, k).Closed? {
          StateAtFront(config, events, k);
        }
      }
    }
  }

  /** A circuit opens from closed only by a failure that ends a row of exactly as many failures
      as the threshold asks for, all recorded since the circuit closed, with no success between. */
  lemma OpensAfterFailuresInARow(config: Config, events: seq<Event>) returns (lo: nat)
    requires IsRun(config, events) && events != []
    requires StateAt(config, events, |events| - 1).Closed? && StateAt(config, events, |events|).Open?
    ensures lo < |events| && events[|events| - 1].Fail?
    ensures forall k :: lo <= k < |events| ==> StateAt(config, events, k).Closed?
    ensures NoneOf(events[lo..], true)
    ensures Count(events[lo..], true) == AtLeastOne(config.failureThreshold)
  {
    var n := |events| - 1;
    StateAtFront(config, events, n);
    StateAtEnd(config, events);
    StateAtEnd(config, events[..n]);
    lo := FindClosedStreak(config, events[..n]);
    EveryWorldSound(config, events[..n]);
    SuffixGrows(events, lo);
    forall k | lo <= k < |events| ensures StateAt(config, events, k).Closed? {
      StateAtFront(config, events, k);
    }
  }

  /** Half-open since the admission at lo - 1, with only successes recorded, as many as counted. */
  predicate HalfOpenStreak(config: Config, events: seq<Event>, lo: nat)
    requires IsRun(config, events)
  {
    && 0 < lo <= |events|
    && StateAt(config, events, lo - 1).Open? && events[lo - 1].Ask?
    && (forall k :: lo <= k <= |events| ==> StateAt(config, events, k).HalfOpen?)
    && NoneOf(events[lo..], false)
    && Count(events[lo..], false) == After(config, events).breaker.stats.consecutiveSuccesses
  }

  /** The states from lo - 1 on that the streak speaks of are those of the run without its last event. */
  lemma StatesAtFront(config: Config, events: seq<Event>, lo: nat)
    requires IsRun(config, events) && 0 < lo <= |events| - 1
    ensures forall k :: lo - 1 <= k < |events| ==> StateAt(config, events, k) == StateAt(config, events[..|events| - 1], k)
  {
    forall k | lo - 1 <= k < |events| ensures StateAt(config, events, k) == StateAt(config, events[..|events| - 1], k) {
      StateAtFront(config, events, k);
    }
  }

  lemma CountGrows(events: seq<Event>, lo: nat, failures: bool)
    requires lo < |events|
    ensures var (front, e) := (events[..|events| - 1], events[|events| - 1]);
      Count(events[lo..], failures)
        == Count(front[lo..], failures) + (if (if failures then e.Fail? else e.Succeed?) then 1 else 0)
  {
    SuffixGrows(events, lo);
  }

  lemma NoneOfGrows(events: seq<Event>, lo: nat, successes: bool)
    requires lo < |events| && NoneOf(events[..|events| - 1][lo..], successes)
    requires var e := events[|events| - 1]; !e.Reset? && !(if successes then e.Succeed? else e.Fail?)
    ensures NoneOf(events[lo..], successes)
  {
    SuffixGrows(events, lo);
  }

  /** What keeps a half-open circuit half-open. */
  lemma HalfOpenStays(w: World, config: Config, e: Event)
    requires Possible(w, e) && w.breaker.state.HalfOpen? && Step(w, config, e).breaker.state.HalfOpen?
    ensures !e.Reset? && !e.Fail?
    ensures Step(w, config, e).breaker.stats.consecutiveSuccesses
      == w.breaker.stats.consecutiveSuccesses + (if e.Succeed? then 1 else 0)
  {
  }

  lemma HalfOpenStreakGrows(config: Config, events: seq<Event>, lo: nat)
    requires IsRun(config, events) && events != [] && HalfOpenStreak(config, events[..|events| - 1], lo)
    requires After(config, events[..|events| - 1]).breaker.state.HalfOpen? && After(config, events).breaker.state.HalfOpen?
    ensures HalfOpenStreak(config, events, lo)
  {
    var n := |events| - 1;
    HalfOpenStays(After(config, events[..n]), config, events[n]);
    StateAtEnd(config, events);
    StatesAtFront(config, events, lo);
    CountGrows(events, lo, false);
    NoneOfGrows(events, lo, false);
  }

  lemma {:induction false} FindHalfOpenStreak(config: Config, events: seq<Event>) returns (lo: nat)
    requires IsRun(config, events) && After(config, events).breaker.state.HalfOpen?
    ensures HalfOpenStreak(config, events, lo)
  {
    var n := |events| - 1;
    var before := After(config, events[..n]).breaker;
    StateAtEnd(config, events);
    StateAtEnd(config, events[..n]);
    if before.state.HalfOpen? {
      lo := FindHalfOpenStreak(config, events[..n]);
      HalfOpenStreakGrows(config, events, lo);
    } else {
      lo := |events|;
      StateAtFront(config, events, n);
    }
  }

  /** A half-open circuit closes, unless it is reset, by a success that is the last of exactly as
      many as the threshold asks for, with no failure recorded since it became half-open. */
  lemma ClosesAfterSuccesses(config: Config, events: seq<Event>) returns (lo: nat)
    requires IsRun(config, events) && events != [] && !events[|events| - 1].Reset?
    requires StateAt(config, events, |events| - 1).HalfOpen? && StateAt(config, events, |events|).Closed?
    ensures 0 < lo < |events| && StateAt(config, events, lo - 1).Open? && events[lo - 1].Ask?
    ensures forall k :: lo <= k < |events| ==> StateAt(config, events, k).HalfOpen?
    ensures NoneOf(events[lo..], false)
    ensures Count(events[lo..], false) == AtLeastOne(config.successThreshold)
  {
    var n := |events| - 1;
    StateAtFront(config, events, n);
    StateAtEnd(config, events);
    StateAtEnd(config, events[..n]);
    lo := FindHalfOpenStreak(config, events[..n]);
    EveryWorldSound(config, events[..n]);
    SuffixGrows(events, lo);
    StatesAtFront(config, events, lo);
  }
}
