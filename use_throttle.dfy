/**
 * The object behind `useThrottle(callback, delay)`: the ref `lastRan` and
 * the returned closure. The clock is the `now` argument of each call; the
 * callback's runs are recorded in ghost logs.
 */
module UseThrottle {
  import opened ThrottleSpec

  class Throttle<A> {
    /** The ref `lastRan.current`: the clock reading of the last run, or of construction. */
    var lastRan: int
    /** The interval fixed when the hook is created; nothing changes it. */
    const delay: nat

    /** The clock reading at construction, the first baseline. */
    ghost const constructedAt: int
    /** Every call of the throttled closure, by its clock reading. */
    ghost var calls: seq<int>
    /** The clock readings at which the callback ran. */
    ghost var firedAt: seq<int>
    /** The arguments forwarded to the callback, one entry per run. */
    ghost var forwarded: seq<A>

    ghost predicate Valid()
      reads this
    {
      && |forwarded| == |firedAt|
      && firedAt == FiredTimes(constructedAt, delay, calls)
      && lastRan == LastRan(constructedAt, delay, calls)
      && Spaced(constructedAt, delay, firedAt)
    }

    /** The hook's first render: `lastRan` starts at the clock reading `now`. */
    constructor (now: int, delay: nat)
      ensures Valid()
      ensures lastRan == now && this.delay == delay && constructedAt == now
      ensures calls == [] && firedAt == [] && forwarded == []
    {
      lastRan := now;
      this.delay := delay;
      constructedAt := now;
      calls := [];
      firedAt := [];
      forwarded := [];
    }

    /**
     * One call of the throttled closure at clock reading `now` with `args`.
     * It runs the callback exactly when `now - lastRan >= delay`; otherwise
     * it drops the call and changes no more than the ghost call record.
     */
    method Invoke(now: int, args: A) returns (fired: bool)
      requires Valid()
      modifies this
      ensures Valid()
      ensures fired <==> now - old(lastRan) >= delay
      ensures lastRan == (if fired then now else old(lastRan))
      ensures firedAt == (if fired then old(firedAt) + [now] else old(firedAt))
      ensures forwarded == (if fired then old(forwarded) + [args] else old(forwarded))
      ensures calls == old(calls) + [now]
    {
      FiredTimesSnoc(constructedAt, delay, calls, now);
      if now - lastRan >= delay {
        lastRan := now;
        firedAt := firedAt + [now];
        forwarded := forwarded + [args];
        fired := true;
      } else {
        fired := false;
      }
      calls := calls + [now];
      FiredTimesSpaced(constructedAt, delay, calls);
    }
  }
}
