/**
 * How the app uses the throttle: `receiveRandomUser` wrapped with a delay
 * of 3000 milliseconds, called with no arguments from the button's click
 * handler. A run of the throttled action stands for one fetch started.
 */
module RandomUserApp {
  import opened ThrottleSpec
  import opened UseThrottle

  /** The interval the app passes to the throttle, in milliseconds. */
  const FetchDelay: nat := 3000

  class App {
    /** `throttledReceiveRandomUser`; its action takes no arguments. */
    const throttled: Throttle<()>

    ghost predicate Valid()
      reads this, throttled
    {
      throttled.Valid() && throttled.delay == FetchDelay
    }

    /** The app's first render, at clock reading `now`. */
    constructor (now: int)
      ensures Valid() && fresh(throttled)
      ensures throttled.lastRan == now && throttled.constructedAt == now
      ensures throttled.calls == [] && throttled.firedAt == []
    {
      throttled := new Throttle(now, FetchDelay);
    }

    /** A click on the button at clock reading `now`; the result says whether a fetch started. */
    method HandleButtonClick(now: int) returns (fetchStarted: bool)
      requires Valid()
      modifies throttled
      ensures Valid()
      ensures fetchStarted <==> now - old(throttled.lastRan) >= FetchDelay
      ensures throttled.lastRan == (if fetchStarted then now else old(throttled.lastRan))
      ensures throttled.firedAt == (if fetchStarted then old(throttled.firedAt) + [now] else old(throttled.firedAt))
      ensures throttled.calls == old(throttled.calls) + [now]
    {
      fetchStarted := throttled.Invoke(now, ());
    }

    /** Clicks at the clock readings `times`, in order. */
    method ClickAll(times: seq<int>) returns (started: seq<bool>)
      requires Valid()
      modifies throttled
      ensures Valid()
      ensures started == Decisions(old(throttled.lastRan), FetchDelay, times)
      ensures throttled.firedAt == old(throttled.firedAt) + FiredTimes(old(throttled.lastRan), FetchDelay, times)
      ensures throttled.lastRan == LastRan(old(throttled.lastRan), FetchDelay, times)
      ensures throttled.calls == old(throttled.calls) + times
    {
      ghost var last0, fired0, calls0 := throttled.lastRan, throttled.firedAt, throttled.calls;
      started := [];
      var i := 0;
      while i < |times|
        invariant 0 <= i <= |times|
        invariant Valid()
        invariant started == Decisions(last0, FetchDelay, times[..i])
        invariant throttled.lastRan == LastRan(last0, FetchDelay, times[..i])
        invariant throttled.firedAt == fired0 + FiredTimes(last0, FetchDelay, times[..i])
        invariant throttled.calls == calls0 + times[..i]
      {
        ghost var done, firedBefore := times[..i], throttled.firedAt;
        var s := HandleButtonClick(times[i]);
        assert times[..i + 1] == done + [times[i]];
        ClickStep(last0, fired0, done, times[i], firedBefore, throttled.firedAt, s);
        DecisionsSnoc(last0, FetchDelay, done, times[i]);
        started := started + [s];
        i := i + 1;
      }
      assert times[..|times|] == times;
    }
  }

  /** One click extends the fetch log exactly as one more call extends the fired times. */
  lemma ClickStep(lastRan: int, log: seq<int>, done: seq<int>, now: int, before: seq<int>, after: seq<int>, fired: bool)
    requires before == log + FiredTimes(lastRan, FetchDelay, done)
    requires fired == Fires(LastRan(lastRan, FetchDelay, done), FetchDelay, now)
    requires after == if fired then before + [now] else before
    ensures after == log + FiredTimes(lastRan, FetchDelay, done + [now])
    ensures LastRan(lastRan, FetchDelay, done + [now]) == if fired then now else LastRan(lastRan, FetchDelay, done)
  {
    FiredTimesSnoc(lastRan, FetchDelay, done, now);
  }

  /**
   * Clicks at 0, 1000, 2000, 3500 and 4000 after mounting at 0: only the one
   * at 3500 starts a fetch, and a further click starts one exactly when it
   * comes at 6500 or later (3000 after 3500, boundary included).
   */
  lemma ClickScenario(next: int)
    ensures FiredTimes(0, FetchDelay, [0, 1000, 2000, 3500, 4000]) == [3500]
    ensures LastRan(0, FetchDelay, [0, 1000, 2000, 3500, 4000]) == 3500
    ensures FiredTimes(0, FetchDelay, [0, 1000, 2000, 3500, 4000, next])
            == if next >= 6500 then [3500, next] else [3500]
  {
    FiredTimesSnoc(0, FetchDelay, [0, 1000, 2000, 3500, 4000], next);
    assert [0, 1000, 2000, 3500, 4000] + [next] == [0, 1000, 2000, 3500, 4000, next];
  }
}
