/** The test `test_basic`: a limiter built at clock reading `t0`, driven by
    sequential `run(event())` calls against the remote observer, with the
    clock and `sleep` replaced by the mock. The test issues its calls back
    to back; the model lets the caller idle a non-negative time before each
    call. The theorem: under the documented ranges and with a positive
    `rr`, `lr` or `re`, no event ever finds more than `n` records in the
    observer's window. */
module Simulation {

  import opened AioLimit
  import opened Sequential
  import opened Observer
  import opened GapProperties
  import MockClock

  /** `event()` as an operation of the limiter: dispatched at `start`, it
      acts on the observer's window. */
  function EventOp(p: Params): (op: (real, seq<real>) -> Settled<seq<real>, (), Overloaded>)
    ensures Monotone(op)
  {
    (start: real, window: seq<real>) => Event(p, start, window)
  }

  /** The test run: one sequential call per entry of `idle` on a limiter
      built at `t0`, the caller idling `idle[j]` before call `j`, with the
      observer's window initially empty. */
  function Simulate(p: Params, t0: real, idle: seq<real>): (t: Trace<seq<real>, (), Overloaded>)
    requires ValidParams(p)
    ensures |t.starts| == |idle| && |t.limiter.slots| == p.n
  {
    RunMany(New(p, t0), t0, [], EventOp(p), idle, |idle|)
  }

  /** The test's own schedule: `k` calls back to back. */
  function BackToBack(k: nat): (idle: seq<real>)
    ensures |idle| == k && NonNegative(idle)
    ensures forall j :: 0 <= j < k ==> idle[j] == 0.0
  {
    seq(k, _ => 0.0)
  }

  /** The remote record time of each call so far. */
  function Records(p: Params, starts: seq<real>): (r: seq<real>)
    ensures |r| == |starts|
    ensures forall j :: 0 <= j < |r| ==> r[j] == starts[j] + p.ltr
  {
    seq(|starts|, j requires 0 <= j < |starts| => starts[j] + p.ltr)
  }

  /** Each call settles exactly `latency` after its dispatch. */
  predicate SettlesAfter(starts: seq<real>, releases: seq<real>, latency: real)
    requires |starts| == |releases|
  {
    forall j :: 0 <= j < |starts| ==> releases[j] == starts[j] + latency
  }

  /** Per call of the test run: the observer's window afterwards is the
      window it found with the call's record time `start + ltr` recorded,
      and the call fails exactly when that leaves more than `n` entries. */
  predicate Observed(p: Params, starts: seq<real>, envs: seq<seq<real>>, outcomes: seq<Outcome<(), Overloaded>>)
    requires |starts| == |envs| == |outcomes|
  {
    forall j {:trigger Before([], envs, j)} :: 0 <= j < |starts| ==>
      && envs[j] == Record(Before([], envs, j), starts[j] + p.ltr, p.w)
      && (outcomes[j].Failure? <==> |envs[j]| > p.n)
  }

  /** Any trace the event operation settles, call by call, records each
      call `ltr` after its dispatch and releases its slot `rtl` later: one
      mock sleep of `ltr + rtl` after dispatch. */
  lemma EventSettles(p: Params, starts: seq<real>, releases: seq<real>, envs: seq<seq<real>>,
                     outcomes: seq<Outcome<(), Overloaded>>)
    requires ValidParams(p) && |starts| == |releases| == |envs| == |outcomes|
    requires SettledBy(EventOp(p), [], starts, releases, envs, outcomes)
    ensures SettlesAfter(starts, releases, p.ltr + p.rtl)
    ensures forall j :: 0 <= j < |starts| ==> releases[j] == MockClock.Sleep(starts[j], p.ltr + p.rtl)
    ensures Observed(p, starts, envs, outcomes)
  {
    forall j | 0 <= j < |starts|
      ensures releases[j] == starts[j] + (p.ltr + p.rtl)
      ensures releases[j] == MockClock.Sleep(starts[j], p.ltr + p.rtl)
      ensures envs[j] == Record(Before([], envs, j), starts[j] + p.ltr, p.w)
      ensures outcomes[j].Failure? <==> |envs[j]| > p.n
    {
      var before := Before([], envs, j);
      assert EventOp(p)(starts[j], before) == Event(p, starts[j], before);
      MockClock.SleepTwice(starts[j], p.ltr, p.rtl);
    }
  }

  /** The test run, call by call: each call settles `ltr + rtl` after its
      dispatch, and the observer's window evolves by `Record`. */
  lemma SimulateEvents(p: Params, t0: real, idle: seq<real>)
    requires ValidParams(p)
    ensures var t := Simulate(p, t0, idle);
            && SettlesAfter(t.starts, t.releases, p.ltr + p.rtl)
            && Observed(p, t.starts, t.envs, t.outcomes)
  {
    var t := Simulate(p, t0, idle);
    RunManySettled(New(p, t0), t0, [], EventOp(p), idle, |idle|);
    EventSettles(p, t.starts, t.releases, t.envs, t.outcomes);
  }

  /** Under `ClockOrdered` with non-negative idle times, an earlier call
      dispatches and settles no later than a later one. */
  lemma {:induction false} StartsChain(now: real, idle: seq<real>, starts: seq<real>, releases: seq<real>, i: nat, j: nat)
    requires |starts| == |releases| <= |idle| && i <= j < |starts| && NonNegative(idle)
    requires ClockOrdered(now, idle, starts, releases)
    ensures starts[i] <= starts[j] && releases[i] <= releases[j]
    decreases j
  {
    if i < j {
      StartsChain(now, idle, starts, releases, i, j - 1);
      assert EntryClock(now, releases, j - 1) + idle[j - 1] <= starts[j - 1] <= releases[j - 1];
      assert releases[j - 1] == EntryClock(now, releases, j);
      assert EntryClock(now, releases, j) + idle[j] <= starts[j] <= releases[j];
    }
  }

  /** The slot reuse bound on any trace: call `j` dispatches no earlier
      than the release of call `j - n` plus `gap`, and no earlier than that
      release itself, so with the latency margin it comes more than `w`
      after call `j - n`. */
  lemma ReuseSpacing(now: real, slots: seq<real>, gap: real, idle: seq<real>, starts: seq<real>, releases: seq<real>,
                     latency: real, w: real, j: nat)
    requires |starts| == |releases| <= |idle| && 0 < |slots| <= j < |starts| && NonNegative(idle)
    requires DispatchedFifo(now, slots, gap, idle, starts, releases)
    requires ClockOrdered(now, idle, starts, releases)
    requires SettlesAfter(starts, releases, latency)
    requires latency + Max(gap, 0.0) > w
    ensures starts[j] - starts[j - |slots|] > w
  {
    var i := j - |slots|;
    assert (slots + releases)[j] == releases[i];
    assert starts[j] == Max(EntryClock(now, releases, j) + idle[j], releases[i] + gap);
    StartsChain(now, idle, starts, releases, i, j - 1);
    assert releases[i] == starts[i] + latency;
  }

  /** Under `ClockOrdered` with non-negative idle times, dispatch times
      never decrease. */
  lemma StartsSorted(now: real, idle: seq<real>, starts: seq<real>, releases: seq<real>)
    requires |starts| == |releases| <= |idle| && NonNegative(idle) && ClockOrdered(now, idle, starts, releases)
    ensures Sorted(starts)
  {
    forall i, j | 0 <= i < j < |starts|
      ensures starts[i] <= starts[j]
    {
      StartsChain(now, idle, starts, releases, i, j);
    }
  }

  /** `ReuseSpacing` for every call that reuses a released timestamp. */
  lemma AllReusesSpaced(now: real, slots: seq<real>, gap: real, idle: seq<real>, starts: seq<real>, releases: seq<real>,
                        latency: real, w: real)
    requires |starts| == |releases| <= |idle| && 0 < |slots| && NonNegative(idle)
    requires DispatchedFifo(now, slots, gap, idle, starts, releases)
    requires ClockOrdered(now, idle, starts, releases)
    requires SettlesAfter(starts, releases, latency)
    requires latency + Max(gap, 0.0) > w
    ensures Spaced(starts, |slots|, w)
  {
    forall j | |slots| <= j < |starts|
      ensures starts[j] - starts[j - |slots|] > w
    {
      ReuseSpacing(now, slots, gap, idle, starts, releases, latency, w, j);
    }
  }

  /** The test run's dispatch times are non-decreasing, and any two calls
      `n` apart are more than `w` apart. */
  lemma SimulateSpacing(p: Params, t0: real, idle: seq<real>)
    requires ValidParams(p) && HasSlack(p) && NonNegative(idle)
    ensures var t := Simulate(p, t0, idle);
            Sorted(t.starts) && Spaced(t.starts, p.n, p.w)
  {
    var l := New(p, t0);
    var t := Simulate(p, t0, idle);
    RunManyDispatch(l, t0, [], EventOp(p), idle, |idle|);
    RunManyClockMonotone(l, t0, [], EventOp(p), idle, |idle|);
    SimulateEvents(p, t0, idle);
    GapExceedsWindow(p);
    StartsSorted(t0, idle, t.starts, t.releases);
    AllReusesSpaced(t0, l.slots, l.gap, idle, t.starts, t.releases, p.ltr + p.rtl, p.w);
  }

  /** Shifting every dispatch by `ltr` keeps order and spacing. */
  lemma RecordsKeepSpacing(p: Params, starts: seq<real>)
    requires p.n >= 1 && Sorted(starts) && Spaced(starts, p.n, p.w)
    ensures Sorted(Records(p, starts)) && Spaced(Records(p, starts), p.n, p.w)
  {
  }

  predicate AllSucceeded(outcomes: seq<Outcome<(), Overloaded>>) {
    forall j :: 0 <= j < |outcomes| ==> outcomes[j].Success?
  }

  /** In an `Observed` trace, the window each call finds is the sliding
      window over the record times of the calls before it. */
  lemma {:induction false} WindowIsObserved(p: Params, starts: seq<real>, envs: seq<seq<real>>,
                                            outcomes: seq<Outcome<(), Overloaded>>, j: nat)
    requires |starts| == |envs| == |outcomes| && j <= |envs|
    requires Observed(p, starts, envs, outcomes)
    ensures Before([], envs, j) == Observe(p.w, Records(p, starts)[..j])
  {
    var records := Records(p, starts);
    if j > 0 {
      WindowIsObserved(p, starts, envs, outcomes, j - 1);
      ObservePrefixStep(p.w, records, j);
      assert records[j - 1] == starts[j - 1] + p.ltr;
      assert Before([], envs, j) == Record(Before([], envs, j - 1), records[j - 1], p.w);
    }
  }

  /** On an `Observed` trace with sorted, spaced record times, call `j`
      finds the window with room and succeeds. */
  lemma CallSucceeds(p: Params, starts: seq<real>, envs: seq<seq<real>>, outcomes: seq<Outcome<(), Overloaded>>, j: nat)
    requires p.n >= 1 && |starts| == |envs| == |outcomes| && j < |outcomes|
    requires Observed(p, starts, envs, outcomes)
    requires Sorted(Records(p, starts)) && Spaced(Records(p, starts), p.n, p.w)
    ensures outcomes[j].Success?
  {
    var records := Records(p, starts);
    WindowIsObserved(p, starts, envs, outcomes, j + 1);
    PrefixSortedSpaced(records, p.n, p.w, j + 1);
    ObserveBounded(p.w, p.n, records[..j + 1]);
    assert |envs[j]| <= p.n;
    assert envs[j] == Record(Before([], envs, j), starts[j] + p.ltr, p.w);
  }

  /** On an `Observed` trace with sorted, spaced record times, the final
      window is the sliding window over all of them, small and sorted. */
  lemma FinalWindow(p: Params, starts: seq<real>, envs: seq<seq<real>>, outcomes: seq<Outcome<(), Overloaded>>)
    requires p.n >= 1 && |starts| == |envs| == |outcomes|
    requires Observed(p, starts, envs, outcomes)
    requires Sorted(Records(p, starts)) && Spaced(Records(p, starts), p.n, p.w)
    ensures var window := Before([], envs, |envs|);
            && window == Observe(p.w, Records(p, starts))
            && |window| <= p.n && Sorted(window)
  {
    var records := Records(p, starts);
    WindowIsObserved(p, starts, envs, outcomes, |envs|);
    assert records[..|envs|] == records;
    ObserveBounded(p.w, p.n, records);
    ObserveSuffix(p.w, records);
    SortedSuffix(Observe(p.w, records), records);
  }

  /** The window stays within `n` on any `Observed` trace whose dispatch
      times are sorted and spaced, so every call succeeds; the final window
      is the sliding window over all record times, small and sorted. */
  lemma SafeTrace(p: Params, starts: seq<real>, envs: seq<seq<real>>, outcomes: seq<Outcome<(), Overloaded>>)
    requires p.n >= 1 && |starts| == |envs| == |outcomes|
    requires Observed(p, starts, envs, outcomes)
    requires Sorted(starts) && Spaced(starts, p.n, p.w)
    ensures AllSucceeded(outcomes)
    ensures var window := Before([], envs, |envs|);
            && window == Observe(p.w, Records(p, starts))
            && |window| <= p.n && Sorted(window)
  {
    RecordsKeepSpacing(p, starts);
    forall j | 0 <= j < |outcomes|
      ensures outcomes[j].Success?
    {
      CallSucceeds(p, starts, envs, outcomes, j);
    }
    FinalWindow(p, starts, envs, outcomes);
  }

  /** Safety: for any number of sequential calls and any non-negative idle
      times between them, every event succeeds, so no record ever leaves
      more than `n` entries in the window; the final window is the sliding
      window over all record times, and sorted. */
  lemma WindowNeverOverloaded(p: Params, t0: real, idle: seq<real>)
    requires ValidParams(p) && HasSlack(p) && NonNegative(idle)
    ensures var t := Simulate(p, t0, idle);
            && AllSucceeded(t.outcomes)
            && t.env == Observe(p.w, Records(p, t.starts))
            && |t.env| <= p.n
            && Sorted(t.env)
  {
    var t := Simulate(p, t0, idle);
    SimulateEvents(p, t0, idle);
    SimulateSpacing(p, t0, idle);
    SafeTrace(p, t.starts, t.envs, t.outcomes);
  }

  /** Parameters inside the documented ranges with no clock uncertainty
      and no latency at all, and one event allowed per window. */
  predicate NoSlack(p: Params) {
    && ValidParams(p)
    && p.n == 1
    && p.rr == 0.0 && p.lr == 0.0 && p.re == 0.0 && p.le == 0.0
    && p.rtl == 0.0 && p.ltr == 0.0
  }

  /** Without slack the gap is exactly the window. */
  lemma NoSlackGap(p: Params)
    requires NoSlack(p)
    ensures !HasSlack(p) && Gap(p) == p.w
  {
  }

  /** Without slack the safety theorem fails: when the second call follows
      the first back to back, as in the test, it is dispatched exactly `w`
      after the first, the observer keeps the first record because it
      equals the cutoff, and the event fails. */
  lemma NoSlackOverloads(p: Params, t0: real, idle: seq<real>)
    requires NoSlack(p) && |idle| == 2 && idle[0] >= 0.0 && idle[1] == 0.0
    ensures var t := Simulate(p, t0, idle);
            && t.starts[0] == t0 + idle[0] && t.starts[1] == t0 + idle[0] + p.w
            && |t.env| == 2 && t.env[0] == t0 + idle[0] && t.env[1] == t0 + idle[0] + p.w
            && t.outcomes[1].Failure?
  {
    var l := New(p, t0);
    var t := Simulate(p, t0, idle);
    NoSlackGap(p);
    RunManyDispatch(l, t0, [], EventOp(p), idle, 2);
    SimulateEvents(p, t0, idle);
    NoSlackStarts(t0, l.slots, l.gap, idle, t.starts, t.releases);
    NoSlackWindows(p, t0 + idle[0], t.starts, t.envs, t.outcomes);
  }

  /** The dispatch times of `NoSlackOverloads`: the first call finds its
      slot's deadline reached on entry, the second waits for the first
      call's release plus the gap. */
  lemma NoSlackStarts(t0: real, slots: seq<real>, gap: real, idle: seq<real>, starts: seq<real>, releases: seq<real>)
    requires |starts| == |releases| == |idle| == 2 && idle[0] >= 0.0 && idle[1] == 0.0
    requires |slots| == 1 && slots[0] + gap == t0 && gap > 0.0
    requires DispatchedFifo(t0, slots, gap, idle, starts, releases)
    requires SettlesAfter(starts, releases, 0.0 + 0.0)
    ensures starts[0] == t0 + idle[0] && starts[1] == t0 + idle[0] + gap
  {
    assert (slots + releases)[0] == slots[0];
    assert starts[0] == Max(EntryClock(t0, releases, 0) + idle[0], (slots + releases)[0] + gap);
    assert (slots + releases)[1] == releases[0];
    assert starts[1] == Max(EntryClock(t0, releases, 1) + idle[1], (slots + releases)[1] + gap);
  }

  /** The windows of `NoSlackOverloads`: records at `a` and `a + w` with no
      latency both stay in the window, so with one event allowed per window
      the second call fails. */
  lemma NoSlackWindows(p: Params, a: real, starts: seq<real>, envs: seq<seq<real>>, outcomes: seq<Outcome<(), Overloaded>>)
    requires |starts| == |envs| == |outcomes| == 2
    requires p.ltr == 0.0 && p.n == 1 && starts[0] == a && starts[1] == a + p.w
    requires Observed(p, starts, envs, outcomes)
    ensures |envs[1]| == 2 && envs[1][0] == a && envs[1][1] == a + p.w
    ensures outcomes[1].Failure?
  {
    var t := starts[1] + p.ltr;
    var first, second := envs[0], envs[1];
    assert |first| == 1 && first[0] == a by {
      ObservedAt(p, starts, envs, outcomes, 0);
      FirstRecord(first, Before([], envs, 0), starts[0] + p.ltr, p.w);
    }
    assert |second| == 2 && second[0] == a && second[1] == t by {
      ObservedAt(p, starts, envs, outcomes, 1);
      SecondRecord(second, first, a, t, p.w);
    }
    assert outcomes[1].Failure? by {
      ObservedAt(p, starts, envs, outcomes, 1);
    }
  }

  /** One call's instance of `Observed`. */
  lemma ObservedAt(p: Params, starts: seq<real>, envs: seq<seq<real>>, outcomes: seq<Outcome<(), Overloaded>>, j: nat)
    requires |starts| == |envs| == |outcomes| && j < |starts|
    requires Observed(p, starts, envs, outcomes)
    ensures envs[j] == Record(Before([], envs, j), starts[j] + p.ltr, p.w)
    ensures outcomes[j].Failure? <==> |envs[j]| > p.n
  {
  }

  lemma FirstRecord(window: seq<real>, before: seq<real>, t: real, w: real)
    requires before == [] && window == Record(before, t, w)
    ensures |window| == 1 && window[0] == t
  {
    var e := Evict(before, t - w);
    assert |e| == 0;
    assert window == e + [t];
  }

  lemma SecondRecord(window: seq<real>, before: seq<real>, a: real, t: real, w: real)
    requires |before| == 1 && before[0] == a && t == a + w && window == Record(before, t, w)
    ensures |window| == 2 && window[0] == a && window[1] == t
  {
    EvictKeepsHead(before, t - w);
    assert window == before + [t];
  }

  /** The parameter sweep of `test_basic`. */
  predicate InSweep(p: Params) {
    && p.w == 1.0
    && p.n in {1, 2, 10}
    && p.rr in {0.000000001, 0.000001, 0.001}
    && p.lr in {0.000000001, 0.000001, 0.001}
    && p.re in {10.0, 100.0, 250.0}
    && p.le in {10.0, 100.0, 250.0}
    && p.rtl in {0.0, 0.001, 1.0}
    && p.ltr in {0.0, 0.001, 1.0}
  }

  /** Every combination of the sweep passes `test_basic`: twenty calls back
      to back from clock reading zero, none of them overloading the
      window. */
  lemma SweepPasses(p: Params)
    requires InSweep(p)
    ensures ValidParams(p) && HasSlack(p)
    ensures var t := Simulate(p, 0.0, BackToBack(20));
            forall j :: 0 <= j < 20 ==> t.outcomes[j].Success?
  {
    WindowNeverOverloaded(p, 0.0, BackToBack(20));
    var t := Simulate(p, 0.0, BackToBack(20));
    assert AllSucceeded(t.outcomes);
  }
}
