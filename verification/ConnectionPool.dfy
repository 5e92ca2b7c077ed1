/** Round-robin over a service's channels (api-gateway/src/grpc/pool.rs). */
module ConnectionPools {
  import opened Wrappers

  /** The counter is a machine word, and wraps. */
  const WRAP: nat := 0x1_0000_0000_0000_0000

  class ConnectionPool<Channel> {
    const channels: seq<Channel>
    var nextIndex: nat

    predicate Valid()
      reads this
    {
      nextIndex < WRAP
    }

    constructor (channels: seq<Channel>)
      ensures Valid() && this.channels == channels && nextIndex == 0
    {
      this.channels, nextIndex := channels, 0;
    }

    /** The next channel; None is the panic of an empty pool, which has already counted the call. */
    method Acquire() returns (channel: Option<Channel>)
      requires Valid()
      modifies this
      ensures Valid() && nextIndex == IndexAfter(old(nextIndex), 1)
      ensures channel == if channels == [] then None else Some(channels[ChannelAt(old(nextIndex), 0, |channels|)])
    {
      var index := nextIndex;
      nextIndex := if index + 1 == WRAP then 0 else index + 1;
      if |channels| == 0 {
        return None;
      }
      return Some(channels[index % |channels|]);
    }
  }

  /** The counter after a number of calls. */
  function IndexAfter(start: nat, calls: nat): nat {
    (start + calls) % WRAP
  }

  /** The channel that the i-th call from a start of the counter gets, out of k. */
  function ChannelAt(start: nat, i: nat, k: nat): nat
    requires k > 0
  {
    IndexAfter(start, i) % k
  }

  /** How often a channel is used in a number of consecutive calls. */
  function Uses(start: nat, calls: nat, k: nat, channel: nat): nat
    requires k > 0
  {
    if calls == 0 then 0
    else Uses(start, calls - 1, k, channel) + if ChannelAt(start, calls - 1, k) == channel then 1 else 0
  }

  predicate Fair(start: nat, calls: nat, k: nat, channel: nat)
    requires k > 0
  {
    calls / k <= Uses(start, calls, k, channel) <= (calls + k - 1) / k
  }

  // ---------- arithmetic ----------

  lemma NonNegativeProduct(a: nat, k: nat)
    ensures a * k >= 0
  {
  }

  lemma MultiplesApart(a: int, b: int, k: nat)
    ensures a < b ==> a * k + k <= b * k
  {
    if a < b {
      NonNegativeProduct(b - a - 1, k);
      assert (b - a - 1) * k == b * k - (a * k + k);
    }
  }

  lemma QuotientIs(x: int, k: nat, q: int)
    requires k > 0 && q * k <= x < (q + 1) * k
    ensures x / k == q && x % k == x - q * k
  {
    var r := x - q * k;
    assert x == q * k + r && 0 <= r < k;
    MultiplesApart(x / k, q, k);
    MultiplesApart(q, x / k, k);
  }

  /** Adding one moves on to the next quotient exactly when the remainder was the last. */
  lemma OneMore(x: int, k: nat)
    requires k > 0
    ensures if x % k == k - 1 then (x + 1) / k == x / k + 1 && (x + 1) % k == 0 else (x + 1) / k == x / k && (x + 1) % k == x % k + 1
  {
    var q := x / k;
    assert x == q * k + x % k;
    if x % k == k - 1 {
      assert (q + 1) * k == q * k + k && (q + 2) * k == q * k + 2 * k;
      QuotientIs(x + 1, k, q + 1);
    } else {
      assert (q + 1) * k == q * k + k;
      QuotientIs(x + 1, k, q);
    }
  }

  lemma WrapKeepsRemainder(x: nat, k: nat)
    requires k > 0 && (x < WRAP || WRAP % k == 0)
    ensures (x % WRAP) % k == x % k
  {
    if x < WRAP {
      assert x % WRAP == x;
    } else {
      var (a, b, m) := (x / WRAP, WRAP / k, x % WRAP);
      assert WRAP == b * k && x == a * WRAP + m;
      assert a * WRAP == (a * b) * k;
      var q := m / k;
      assert m == q * k + m % k;
      assert (a * b + q) * k == (a * b) * k + q * k && (a * b + q + 1) * k == (a * b + q) * k + k;
      QuotientIs(x, k, a * b + q);
    }
  }

  // ---------- fairness ----------

  /** Calls before the first use of a channel. */
  function Wait(start: nat, k: nat, channel: nat): (w: nat)
    requires k > 0 && channel < k
    ensures w < k
  {
    if channel >= start % k then channel - start % k else channel + k - start % k
  }

  predicate Even(start: nat, calls: nat, k: nat)
    requires k > 0
  {
    start + calls <= WRAP || WRAP % k == 0
  }

  /** The remainder steps round with the calls, and meets the channel after its wait, then every k calls. */
  lemma {:induction false} RemainderSteps(start: nat, calls: nat, k: nat, channel: nat)
    requires channel < k
    ensures (calls + k - 1 - Wait(start, k, channel)) % k == ((start + calls) % k + k - 1 - channel) % k
  {
    var w := Wait(start, k, channel);
    if calls == 0 {
      var r := start % k;
      if channel >= r {
        assert k - 1 - w == r + k - 1 - channel;
      } else {
        assert k - 1 - w == r - 1 - channel;
        assert 0 * k == 0 && 1 * k == k && 2 * k == k + k;
        QuotientIs(r + k - 1 - channel, k, 1);
        QuotientIs(k - 1 - w, k, 0);
      }
    } else {
      RemainderSteps(start, calls - 1, k, channel);
      var r := (start + calls - 1) % k;
      OneMore(start + calls - 1, k);
      OneMore(calls - 1 + k - 1 - w, k);
      OneMore(r + k - 1 - channel, k);
      if r == k - 1 {
        assert r + k - 1 - channel + 1 == (k - 1 - channel) + k;
        OneRound(k - 1 - channel, k);
      }
    }
  }

  lemma OneRound(x: int, k: nat)
    requires k > 0
    ensures (x + k) % k == x % k && (x + k) / k == x / k + 1
  {
    var q := x / k;
    assert x == q * k + x % k && (q + 1) * k == q * k + k && (q + 2) * k == q * k + 2 * k;
    QuotientIs(x + k, k, q + 1);
  }

  lemma {:induction false} UsesExactly(start: nat, calls: nat, k: nat, channel: nat)
    requires channel < k && start < WRAP && Even(start, calls, k)
    ensures Uses(start, calls, k, channel) == (calls + k - 1 - Wait(start, k, channel)) / k
  {
    var w := Wait(start, k, channel);
    if calls == 0 {
      assert 0 * k == 0 && 1 * k == k;
      QuotientIs(k - 1 - w, k, 0);
    } else {
      UsesExactly(start, calls - 1, k, channel);
      var r := (start + calls - 1) % k;
      WrapKeepsRemainder(start + calls - 1, k);
      assert ChannelAt(start, calls - 1, k) == r;
      RemainderSteps(start, calls - 1, k, channel);
      OneMore(calls - 1 + k - 1 - w, k);
      LastRemainderExactly(r, k, channel);
    }
  }

  lemma LastRemainderExactly(r: nat, k: nat, channel: nat)
    requires r < k && channel < k
    ensures (r + k - 1 - channel) % k == k - 1 <==> r == channel
  {
  }

  lemma QuotientMonotone(x: int, y: int, k: nat)
    requires k > 0 && x <= y
    ensures x / k <= y / k
  {
    MultiplesApart(y / k, x / k, k);
  }

  /** From any start of the counter, each of k channels is used floor(n/k) or ceil(n/k) times in n
      consecutive calls, as long as the counter does not wrap, or wraps in step with the channels. */
  lemma RoundRobinIsFair(start: nat, calls: nat, k: nat, channel: nat)
    requires channel < k && start < WRAP && Even(start, calls, k)
    ensures Fair(start, calls, k, channel)
  {
    UsesExactly(start, calls, k, channel);
    var w := Wait(start, k, channel);
    QuotientMonotone(calls, calls + k - 1 - w, k);
    QuotientMonotone(calls + k - 1 - w, calls + k - 1, k);
  }

  lemma {:induction false} FirstUseCounts(start: nat, calls: nat, k: nat, channel: nat, i: nat)
    requires k > 0 && i < calls && ChannelAt(start, i, k) == channel
    ensures Uses(start, calls, k, channel) >= 1
  {
    if i == calls - 1 {
    } else {
      FirstUseCounts(start, calls - 1, k, channel, i);
    }
  }

  /** Otherwise the wrap itself is unfair: one channel twice within at most k calls. */
  lemma WrapIsUnfair(k: nat)
    requires k > 0 && WRAP % k != 0
    ensures var r := WRAP % k;
      !Fair(WRAP - r, r + 1, k, 0)
  {
    var r := WRAP % k;
    var start := WRAP - r;
    var q := WRAP / k;
    assert start == q * k && WRAP == q * k + r;
    assert (q + 1) * k == q * k + k;
    QuotientIs(start, k, q);
    assert ChannelAt(start, 0, k) == 0;
    assert start + r == WRAP && IndexAfter(start, r) == 0;
    assert 0 * k == 0 && 1 * k == k && 2 * k == k + k;
    QuotientIs(0, k, 0);
    FirstUseCounts(start, r, k, 0, 0);
    assert Uses(start, r + 1, k, 0) >= 2;
    QuotientIs(r + 1 + k - 1, k, 1);
  }

  /** A fresh pool starts with its first channel; each call gets the channel after the last one's,
      and the first after the last, until the counter wraps. */
  lemma CallsGoRound(start: nat, i: nat, k: nat)
    requires k > 0 && start + i + 1 < WRAP
    ensures ChannelAt(0, 0, k) == 0
    ensures var channel := ChannelAt(start, i, k);
      ChannelAt(start, i + 1, k) == if channel == k - 1 then 0 else channel + 1
  {
    WrapKeepsRemainder(start + i, k);
    WrapKeepsRemainder(start + i + 1, k);
    OneMore(start + i, k);
    assert 0 * k == 0 && 1 * k == k;
    QuotientIs(0, k, 0);
  }

  ghost predicate AlwaysFair(k: nat)
    requires k > 0
  {
    forall start: nat, calls: nat, channel: nat :: start < WRAP && channel < k ==> Fair(start, calls, k, channel)
  }

  /** Every window is fair exactly when the number of channels divides the range of the counter. */
  lemma AlwaysFairExactly(k: nat)
    requires k > 0
    ensures AlwaysFair(k) <==> WRAP % k == 0
  {
    if WRAP % k == 0 {
      forall start: nat, calls: nat, channel: nat | start < WRAP && channel < k ensures Fair(start, calls, k, channel) {
        RoundRobinIsFair(start, calls, k, channel);
      }
    } else {
      WrapIsUnfair(k);
    }
  }
}
