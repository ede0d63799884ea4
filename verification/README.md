# aiolimit in Dafny

A model of `aiolimit.Limiter`, a client-side rate limiter for asyncio. The
limiter is built with a remote window `w`, a count `n` and clock-uncertainty
and latency bounds. It computes a local spacing `gap` and keeps a FIFO queue
of `n` slot timestamps. `run(coro)` takes the front timestamp `t`, sleeps
until the local clock reads `t + gap`, awaits the operation, and then, whether
the operation succeeded or raised, puts the current clock reading back at the
end of the queue.

The model also covers the repository's test `test_basic`. That test replaces
the event loop's clock and `asyncio.sleep` with a mock clock. It drives the
limiter with an `event()` that plays a remote API: each event is recorded
`ltr` after dispatch in a sliding window that drops entries strictly older
than `w`, the event completes `rtl` later, and it fails with "Overloaded
Window" when the window then holds more than `n` entries. The main theorem,
`Simulation.WindowNeverOverloaded`, proves that for any number of sequential
calls no event ever fails. Each call may be entered after any non-negative idle
time following the previous one. The theorem requires the documented parameter
ranges and a positive `rr`, `lr` or `re`. `Simulation.SweepPasses` applies it
to every combination of the test's parameter sweep, with the calls back to
back as in the test.

Modules:

- `MockClock` (mock_clock.dfy): the test's `time`/`sleep` pair.
- `AioLimit` (aiolimit.dfy): the parameters, the `gap` formula, the
  constructor, and one `run`.
- `GapProperties` (gap_properties.dfy): how `gap` depends on each parameter,
  and the margin by which it clears the window.
- `Sequential` (sequential.dfy): `k` awaited calls of `run` in a row, the
  caller idling a given time before each, with FIFO, dispatch, settle and
  no-wait properties for any operation.
- `Observer` (observer.dfy): the test's sliding window and its `event()`.
- `Simulation` (simulation.dfy): the test run, the safety theorem, and the
  zero-slack counterexample.

Modelling choices:

- Time is exact `real` arithmetic. The `1e-6` factors are written as
  division by `PPM = 1000000`.
- An operation is a function `(start, state) -> Settled(clock, state,
  outcome)`. A raised exception is `Failure` and a return is `Success`, so the
  test's `event()`, which changes the observer's window and advances the mock
  clock, is one instance of it.
- The event loop's clock is the test's mock: a value passed in and returned,
  which only `sleep` and the caller's idle time move.

The constructor's default `rr` is `.016` in the code. Its docstring says
`0.16`. The model follows the code (`AioLimit.DefaultParams`).

## Model

| member | source | states |
|---|---|---|
| AioLimit.DefaultParams | aiolimit.py:4-41 | The defaults are rr = 0.016, re = le = 250 ppm and rtl = ltr = 0, with lr supplied by the caller. The result lies in the documented ranges exactly when w > 0, n >= 1 and lr >= 0. |
| AioLimit.Gap | aiolimit.py:66 | Reading the gap backwards gives the remote window, widened by rr and stretched by the remote error. To do this, remove lr, divide by the local error factor and add both latencies back. |
| AioLimit.New | aiolimit.py:66-71 | A new limiter holds exactly n slots, each stamped so that its deadline (stamp + gap) is the construction clock reading. |
| AioLimit.Run | aiolimit.py:76-84 | Dispatch happens at the later of the entry clock and the front slot's deadline, and at one of the two. The operation's outcome, value or failure, is returned unchanged. The front slot is consumed and the settle time appended at the back, so the queue length and the gap are kept. |
| MockClock.Sleep | test_aiolimit.py:23-29 | The clock never moves backwards. It advances by exactly x when x > 0 and stays put otherwise. |
| MockClock.SleepUntil | aiolimit.py:80-81 | Sleeping for deadline - now ends at the later of the deadline and now, and at one of the two. It does not move when the deadline has passed. |
| MockClock.SleepTwice | test_aiolimit.py:26-29 | Two non-negative sleeps equal one sleep of their sum. |
| GapProperties.GapMonotoneInWindow | aiolimit.py:66 | A wider window never gives a smaller gap. |
| GapProperties.GapMonotoneInRemoteResolution | aiolimit.py:66 | A coarser remote clock never gives a smaller gap. |
| GapProperties.GapMonotoneInLocalResolution | aiolimit.py:66 | The gap grows one for one with the local clock resolution. |
| GapProperties.GapAntitoneInRemoteToLocal | aiolimit.py:66 | A larger guaranteed remote-to-local latency never gives a larger gap. |
| GapProperties.GapAntitoneInLocalToRemote | aiolimit.py:66 | A larger guaranteed local-to-remote latency never gives a larger gap. |
| GapProperties.GapCoversNominalWindow | aiolimit.py:60-66 | Assume the latencies do not exceed the stretched window. Then gap + rtl + ltr is at least w + rr + lr, and strictly more when the remote error is positive. |
| GapProperties.GapExceedsWindow | aiolimit.py:60-66 | Under the documented ranges with rr, lr or re positive, rtl + ltr + max(gap, 0) > w. This is the margin that keeps two uses of one slot out of a common window. |
| Sequential.RunMany | test_aiolimit.py:47-48 | k awaited calls, call j entered idle[j] after the previous one settled, leave one start, release, state and outcome per call and keep the slot count and the gap. The clock and state afterwards are those left by the last call, or the initial ones when k = 0. |
| Sequential.RunManyQueue | aiolimit.py:68-84 | FIFO: after k calls the queue is the initial slots followed by every release, minus the k consumed from the front. |
| Sequential.RunManyDispatch | aiolimit.py:80-81 | Call j dispatches at the later of its entry clock (the previous release, or the start clock, plus idle[j]) and the deadline of the j-th timestamp ever queued. |
| Sequential.RunManySettled | aiolimit.py:79-84 | Each call's release time, state and outcome, failures included, are what the operation produced at that call's start. So every call appends exactly one release. |
| Sequential.RunManyClockMonotone | aiolimit.py:81-84 | Given an operation that never settles before dispatch, each call dispatches no earlier than entry and releases no earlier than dispatch. |
| Sequential.IdleRunsDoNotWait | aiolimit.py:80-81 | Given an operation that never settles before dispatch and non-negative idle times, if every slot's deadline has passed at entry, the first as many calls as there are slots dispatch on entry without waiting. |
| Sequential.FreshRunsDoNotWait | aiolimit.py:68-71 | Given an operation that never settles before dispatch and non-negative idle times, a fresh limiter entered no earlier than its construction time lets the first n calls through without waiting. |
| Observer.Evict | test_aiolimit.py:33-34 | The survivors are a suffix of the window. Everything dropped is strictly below the cutoff. The first survivor is at or above it. |
| Observer.EvictKeepsHead | test_aiolimit.py:33 | A window whose oldest entry is at or above the cutoff, including one equal to it, is kept whole. |
| Observer.EvictSortedKeepsAtLeast | test_aiolimit.py:33-34 | On a sorted window, eviction equals the reference filter that keeps exactly the entries at or above the cutoff. |
| Observer.AtLeastMembers | test_aiolimit.py:33-34 | The reference filter keeps exactly the entries at or above the cutoff. |
| Observer.Record | test_aiolimit.py:33-35 | Recording t leaves t last, preceded by a suffix of the old window. Every entry dropped from the front is strictly before t - w, and the first survivor is at or after it. |
| Observer.Observe | test_aiolimit.py:30-35 | The window after recording a sequence of times, starting empty, is never longer than the sequence. It ends with the latest record. |
| Observer.ObserveWithin | test_aiolimit.py:30-35 | For records in time order and w >= 0, the window is exactly the records at or after the latest record minus w. |
| Observer.ObserveSuffix | test_aiolimit.py:33-35 | The window is always a suffix of the records, in order. |
| Observer.ObserveSorted | test_aiolimit.py:33-35 | Records arriving in time order leave the window sorted. |
| Observer.ObserveBounded | test_aiolimit.py:33-38 | If the records are sorted and any n + 1 consecutive ones span more than w, the window never holds more than n entries. |
| Observer.Event | test_aiolimit.py:31-38 | The event is recorded at start + ltr after the window's survivors. Every entry dropped from the front is strictly before the record time minus w, and the first survivor is at or after it. The event completes rtl later. It fails exactly when the window then holds more than n entries. |
| Simulation.EventOp | test_aiolimit.py:31-38 | The event, as a limiter operation, never settles before its dispatch. |
| Simulation.Simulate | test_aiolimit.py:46-48 | The test run of one call per idle time has that many dispatches and keeps n slots. |
| Simulation.BackToBack | test_aiolimit.py:47-48 | The test's loop enters k calls with no idle time between them: every idle time is 0. |
| Simulation.EventSettles | test_aiolimit.py:31-38 | In any trace settled by the event, each call releases its slot ltr + rtl after dispatch, the same as one mock sleep of ltr + rtl. Its window is the window it found, with start + ltr recorded, and it fails exactly when that window holds more than n entries. |
| Simulation.SimulateEvents | test_aiolimit.py:42-48 | The test run satisfies both facts of EventSettles, call by call. |
| Simulation.ReuseSpacing | aiolimit.py:76-84 | In any FIFO trace whose latency plus max(gap, 0) exceeds w, the call that reuses the release of call j - n starts more than w after call j - n. |
| Simulation.StartsSorted | aiolimit.py:81-84 | Sequential calls with non-negative idle times dispatch in non-decreasing time order. |
| Simulation.SimulateSpacing | aiolimit.py:60-84 | Under the documented ranges with a positive rr, lr or re and non-negative idle times, the test run's dispatches are sorted, and any two calls n apart are more than w apart. |
| Simulation.WindowIsObserved | test_aiolimit.py:30-35 | The window each call finds is the sliding window over the record times of all earlier calls. |
| Simulation.CallSucceeds | test_aiolimit.py:37-38 | With sorted, spaced record times, every call finds room in the window and succeeds. |
| Simulation.SafeTrace | test_aiolimit.py:37-38 | With sorted, spaced dispatches, every call succeeds, and the final window is the sliding window over all records, at most n long and sorted. |
| Simulation.WindowNeverOverloaded | test_aiolimit.py:16-20 | Safety: under the documented ranges with a positive rr, lr or re, any number of sequential calls, each entered after any non-negative idle time, all succeed. The final window is the sliding window over all record times, holds at most n entries and is sorted. |
| Simulation.NoSlackGap | aiolimit.py:66 | With zero resolutions, errors and latencies the gap is exactly w. |
| Simulation.NoSlackOverloads | aiolimit.py:66 | With zero slack and n = 1, a first call entered after any non-negative idle time and a second entered right after it: the second is dispatched exactly w after the first. Both records stay in the window, and the second event fails. |
| Simulation.SweepPasses | test_aiolimit.py:4-13 | Every parameter combination of the test's sweep is in the documented ranges with a positive rr, lr or re, and all twenty back-to-back calls from clock reading 0 succeed. |

## Left out

- Concurrency. Only sequential use is modelled: each `run` is awaited before the next begins, after a caller-chosen idle time (zero in the test). Interleaved `run` calls, blocking on an empty queue and task cancellation are not modelled. In the source, a call cancelled while waiting on the queue still puts a timestamp back in its `finally`.
- AioLimit.Run: requires a non-empty queue. The source would block until another task releases a slot, and sequential use never empties the queue.
- Sequential.RunMany: continues after a failed call, while the test stops at the first exception. The safety theorem shows that no call fails, so the two agree on the runs it covers.
- Floating point. Times and parameters are exact reals, so IEEE rounding in the `gap` formula and in the mock clock's sums is not modelled.
- `Limiter.time` (aiolimit.py:73-74): the event loop's clock is a parameter and a return value, not a call.
- The default `lr`: it comes from a platform clock query, so the caller supplies it.
- Exceptions from the clock or queue themselves: the source assumes they never happen (aiolimit.py:77-78).
- The doctest's throughput figure (aiolimit.py:45-57): it depends on the real event loop and scheduler timing.
- setup.py: packaging only.

## Findings

| source | as written | input that shows it | evidently intended | confidence | as-written member | corrected member |
|---|---|---|---|---|---|---|
| aiolimit.py:66 | The documented ranges allow rr = lr = re = 0. With le and both latencies also 0, the gap is exactly w, so a slot is reused exactly w after its release. The test's window keeps an entry equal to now - w (test_aiolimit.py:33), so the two events share a window. | w = 1, n = 1, all other parameters 0, built at clock 0: events at 0 and 1, and the second one raises "Overloaded Window". | The reuse spacing is strictly greater than w. This holds whenever rr, lr or re is positive, which the defaults and the test sweep always satisfy. | medium; not executed | Simulation.NoSlackOverloads | Simulation.WindowNeverOverloaded |
