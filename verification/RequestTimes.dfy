/** Recorded request times, oldest first, as both sliding-window limiters keep them. */
module RequestTimes {

  /** The last n of the times are not before start. */
  predicate LastFrom(times: seq<int>, n: nat, start: int) {
    n <= |times| && forall k :: |times| - n <= k < |times| ==> times[k] >= start
  }
}
