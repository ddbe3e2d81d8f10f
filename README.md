# Throttled invoker of the random-user widget

The widget is a button that fetches a random user record and shows its name
and phone number. Its only piece of logic is the hook `useThrottle(callback,
delay)`: it keeps the clock reading of the last run in a ref `lastRan`
(initialised to the clock reading when the hook is created) and returns a
closure that, on each call, reads the clock as `now` and, when
`now - lastRan >= delay`, sets `lastRan` to `now` and calls `callback` with
the forwarded arguments. Any other call is dropped: it is neither queued nor
replayed. The app wraps its fetch action with a delay of 3000 ms and calls
the throttled closure from the button's click handler.

The project has three modules:

- `ThrottleSpec` (`throttle_spec.dfy`): the throttle as pure functions of the
  baseline, the delay and the sequence of call times — the gate `Fires`, the
  fired times `FiredTimes`, the final `LastRan`, the per-call `Decisions` —
  and the lemmas about them, including an independent greedy definition
  (`NextFire`, `Greedy`) proved equal to `FiredTimes`.
- `UseThrottle` (`use_throttle.dfy`): the hook's state as a class
  `Throttle<A>` with the mutable field `lastRan`, the constant `delay`, and a
  method `Invoke(now, args)` for one call of the closure. Ghost logs record
  every call time, every time the callback ran and the arguments it got. The
  object invariant `Valid()` ties `lastRan` and the run times to
  `ThrottleSpec`, states the minimum spacing of runs, and keeps one forwarded
  argument entry per run; what each entry holds is fixed call by call by
  `Invoke`'s postcondition.
- `RandomUserApp` (`random_user_app.dfy`): the app's use — a delay of 3000,
  an action with no arguments, the click handler, a sequence of clicks
  proved against `ThrottleSpec`, and the worked scenario of clicks at 0, 1000,
  2000, 3500 and 4000 ms.

First-call policy: the baseline is the construction time, as the code does
(the ref is created with `Date.now()` at test.jsx:61, and the gate is `>=`
at test.jsx:65). With a positive delay a call at the construction instant
does not fire; there is no free first call.

The clock is not assumed to be monotonic. With a clock that goes back the
difference is negative and the call does not fire. The minimum spacing of
consecutive runs needs no monotonicity at all: each run is compared with the
previous run's time. Only the "delay 0 fires every call" property and the
"passing calls form a suffix" property need the clock to be nondecreasing.

## Model

| member | source | states |
|---|---|---|
| ThrottleSpec.Decisions | test.jsx:64-68 | one decision per call; call `i` runs the callback exactly when it comes at least `delay` after the `lastRan` that the calls before it left |
| ThrottleSpec.DecisionsSnoc | test.jsx:64-68 | a further call adds exactly one decision, taken against the current `lastRan`, and leaves the earlier decisions unchanged |
| ThrottleSpec.FiredTimesIsSubsequence | test.jsx:65-68 | the callback runs only at times of actual calls, in call order; dropped calls leave no trace |
| ThrottleSpec.LastRanIsLastFired | test.jsx:61-66 | afterwards `lastRan` is the time of the last run, or the construction time when nothing ran |
| ThrottleSpec.FiredTimesAppend | test.jsx:61-68 | the ref persists between calls: running two batches of calls is running the second from the state the first leaves |
| ThrottleSpec.FiredTimesSnoc | test.jsx:64-68 | one more call appends its time to the runs exactly when the gate is open, and then becomes `lastRan`; otherwise nothing changes |
| ThrottleSpec.FiredTimesSpaced | test.jsx:65-66 | the first run is at least `delay` after construction and consecutive runs are at least `delay` apart, for any clock |
| ThrottleSpec.QuietWindow | test.jsx:65-69 | calls that all come less than `delay` after the baseline run nothing and keep `lastRan` |
| ThrottleSpec.NoFreeFirstCall | test.jsx:61-65 | with a positive delay, calls at the construction instant never run the callback |
| ThrottleSpec.SameInstantAtMostOnce | test.jsx:65-66 | with a positive delay, any number of calls at one instant run the callback at most once |
| ThrottleSpec.ZeroDelayFiresAll | test.jsx:65 | with delay 0 every call runs the callback if and only if the clock never goes back |
| ThrottleSpec.NextFire | test.jsx:65 | the index of the first call that passes the gate for a given baseline, or none when no call does |
| ThrottleSpec.FiredTimesIsGreedy | test.jsx:61-67 | the run times are exactly the greedy subsequence: from the construction time, repeatedly the first call at least `delay` after the last run |
| ThrottleSpec.NextFireStartsSuffix | test.jsx:65 | with a nondecreasing clock, every call from the first passing one on also passes the gate for the same baseline |
| UseThrottle.Throttle.constructor | test.jsx:60-61 | `lastRan` starts at the construction time, `delay` is fixed, and nothing has run |
| UseThrottle.Throttle.Invoke | test.jsx:63-69 | fires iff `now - lastRan >= delay`; then `lastRan` becomes `now` and the callback runs once with the forwarded arguments; otherwise `lastRan` and the run logs are unchanged; the object invariant (runs equal `FiredTimes` of all calls, spacing) is kept |
| RandomUserApp.App.constructor | test.jsx:85 | the app's throttle has delay 3000 and its baseline at the first render |
| RandomUserApp.App.HandleButtonClick | test.jsx:87-93 | a click starts a fetch iff at least 3000 ms passed since the last one started (or since the first render) |
| RandomUserApp.ClickStep | test.jsx:64-68 | one click extends the log of started fetches exactly as one more call extends `FiredTimes` |
| RandomUserApp.App.ClickAll | test.jsx:85-93 | clicks at a sequence of times start fetches exactly at `FiredTimes` of those times, with `Decisions` as the per-click results and `LastRan` as the final `lastRan` |
| RandomUserApp.ClickScenario | test.jsx:85 | clicks at 0, 1000, 2000, 3500, 4000 after mounting at 0 start one fetch, at 3500; a further click starts one iff it comes at 6500 or later |

## Left out

- React rendering of `Button`, `UserInfo` and `App` (test.jsx:27-57, 95-101): UI output with no logic to model.
- `React.memo` and `useCallback` memoisation and dependency identity (test.jsx:62, 70, 87-93): library behaviour. The ref is modelled as plain object state that lives as long as the `Throttle` object. If a re-render passed a different `delay`, the real hook would keep `lastRan` and use the new delay; the model fixes `delay` at construction, which is all the app does (it always passes 3000).
- `Date.now()` (test.jsx:61, 64): a foreign clock. Each reading is an `int` parameter (`now`), in whole milliseconds; JavaScript's floating-point numbers are exact for such readings, so the subtraction is modelled on unbounded integers.
- The callback itself: its run is recorded in the ghost logs `firedAt` and `forwarded`. Its return value and, for an asynchronous action, its completion or failure are not observed by the throttle and are not modelled.
- UseThrottle.Throttle.Invoke: always returns normally. In the source a callback that throws synchronously (test.jsx:67 has no `try`) propagates the exception out of the closure to the click handler, after `lastRan` has already been set at test.jsx:66, so the model's state after such a call is right but the exception itself is not modelled. It cannot arise in the app: `receiveRandomUser` is `async`, so its failures become rejected promises rather than synchronous throws.
- UseThrottle.Throttle.constructor: takes `delay` as a `nat`, whereas the source's `delay: number` (test.jsx:60) could be negative or fractional; such delays are not expressible in the model. The only caller passes 3000 (test.jsx:85).
- The network call and JSON decoding in `receiveRandomUser` (test.jsx:80-82): I/O. Its unhandled failure is invisible through the throttle.
- Random id generation (test.jsx:79): floating-point and nondeterministic.
- `event.stopPropagation()` (test.jsx:89): belongs to the DOM event system.
- Concurrency: the closure is called only from the single UI event thread, so calls are modelled as a sequence.
