/** Sequential use of one limiter: `k` calls of `run`, each awaited before
    the next begins, all with the same operation. Before call `j` the
    caller lets `idle[j]` seconds pass (none in the test, any non-negative
    amount in general), so call `j` is entered at the previous call's
    settle time plus `idle[j]`. The trace records, per
    call, the dispatch time, the settle time (which is also the timestamp
    released back into the queue), the operation's state afterwards and
    the outcome. */
module Sequential {

  import opened AioLimit

  datatype Trace<S, V, E> = Trace(
    limiter: Limiter,
    clock: real,
    env: S,
    starts: seq<real>,
    releases: seq<real>,
    envs: seq<S>,
    outcomes: seq<Outcome<V, E>>
  )

  /** Every idle time is non-negative: the clock never runs backwards
      between calls. */
  predicate NonNegative(idle: seq<real>) {
    forall j :: 0 <= j < |idle| ==> idle[j] >= 0.0
  }

  /** `k` sequential runs from limiter `l`, clock reading `now` and
      operation state `env`, waiting `idle[j]` before call `j`. */
  function RunMany<S, V, E>(l: Limiter, now: real, env: S, op: (real, S) -> Settled<S, V, E>, idle: seq<real>, k: nat): (t: Trace<S, V, E>)
    requires |l.slots| > 0 && k <= |idle|
    ensures |t.starts| == k && |t.releases| == k && |t.envs| == k && |t.outcomes| == k
    ensures |t.limiter.slots| == |l.slots|
    ensures t.limiter.gap == l.gap
    ensures t.clock == EntryClock(now, t.releases, k)
    ensures t.env == Before(env, t.envs, k)
  {
    if k == 0 then Trace(l, now, env, [], [], [], [])
    else
      var prev := RunMany(l, now, env, op, idle, k - 1);
      var r := Run(prev.limiter, prev.clock + idle[k - 1], prev.env, op);
      Trace(r.limiter, r.settled.clock, r.settled.env,
            prev.starts + [r.start], prev.releases + [r.settled.clock],
            prev.envs + [r.settled.env], prev.outcomes + [r.settled.outcome])
  }

  /** The clock reading when call `j - 1` has settled, or `now` for
      `j == 0`; call `j` is entered `idle[j]` later. */
  function EntryClock(now: real, releases: seq<real>, j: nat): (c: real)
    requires j <= |releases|
    ensures j > 0 ==> c == releases[j - 1]
    ensures j == 0 ==> c == now
  {
    if j == 0 then now else releases[j - 1]
  }

  /** The operation's state when call `j` is entered. */
  function Before<S>(env: S, envs: seq<S>, j: nat): S
    requires j <= |envs|
  {
    if j == 0 then env else envs[j - 1]
  }

  /** Each call dispatches at the later of its entry clock and the deadline
      of the `j`-th timestamp ever queued. */
  predicate DispatchedFifo(now: real, slots: seq<real>, gap: real, idle: seq<real>, starts: seq<real>, releases: seq<real>)
    requires |starts| == |releases| <= |idle|
  {
    forall j {:trigger (slots + releases)[j]} :: 0 <= j < |starts| ==>
      starts[j] == Max(EntryClock(now, releases, j) + idle[j], (slots + releases)[j] + gap)
  }

  /** Each call's settle time, state and outcome are what the operation
      produced when dispatched at that call's start in the state it found. */
  ghost predicate SettledBy<S, V, E>(op: (real, S) -> Settled<S, V, E>, env: S,
                                     starts: seq<real>, releases: seq<real>, envs: seq<S>, outcomes: seq<Outcome<V, E>>)
    requires |starts| == |releases| == |envs| == |outcomes|
  {
    forall j {:trigger Before(env, envs, j)} :: 0 <= j < |starts| ==>
      op(starts[j], Before(env, envs, j)) == Settled(releases[j], envs[j], outcomes[j])
  }

  /** FIFO: after `k` calls the queue holds the initial slots followed by
      the released timestamps, minus the `k` consumed from the front; so
      call `j` consumes the `j`-th entry ever queued, and call `j + n`
      reuses the timestamp released by call `j`. */
  lemma {:induction false} RunManyQueue<S, V, E>(l: Limiter, now: real, env: S, op: (real, S) -> Settled<S, V, E>, idle: seq<real>, k: nat)
    requires |l.slots| > 0 && k <= |idle|
    ensures var t := RunMany(l, now, env, op, idle, k);
            t.limiter.slots == (l.slots + t.releases)[k..]
  {
    if k > 0 {
      RunManyQueue(l, now, env, op, idle, k - 1);
      var prev := RunMany(l, now, env, op, idle, k - 1);
      var r := Run(prev.limiter, prev.clock + idle[k - 1], prev.env, op);
      var t := RunMany(l, now, env, op, idle, k);
      QueueStep(l.slots, prev.releases, prev.limiter.slots, r.settled.clock, t.limiter.slots, t.releases);
    }
  }

  /** Each dispatch waits for the deadline of the entry it consumes, and
      no longer. */
  lemma {:induction false} RunManyDispatch<S, V, E>(l: Limiter, now: real, env: S, op: (real, S) -> Settled<S, V, E>, idle: seq<real>, k: nat)
    requires |l.slots| > 0 && k <= |idle|
    ensures var t := RunMany(l, now, env, op, idle, k);
            DispatchedFifo(now, l.slots, l.gap, idle, t.starts, t.releases)
  {
    if k > 0 {
      RunManyDispatch(l, now, env, op, idle, k - 1);
      RunManyDispatchStep(l, now, env, op, idle, k);
    }
  }

  lemma RunManyDispatchStep<S, V, E>(l: Limiter, now: real, env: S, op: (real, S) -> Settled<S, V, E>, idle: seq<real>, k: nat)
    requires |l.slots| > 0 && k <= |idle| && k > 0
    requires var prev := RunMany(l, now, env, op, idle, k - 1);
             DispatchedFifo(now, l.slots, l.gap, idle, prev.starts, prev.releases)
    ensures var t := RunMany(l, now, env, op, idle, k);
            DispatchedFifo(now, l.slots, l.gap, idle, t.starts, t.releases)
  {
    RunManyQueue(l, now, env, op, idle, k - 1);
    var prev := RunMany(l, now, env, op, idle, k - 1);
    var r := Run(prev.limiter, prev.clock + idle[k - 1], prev.env, op);
    QueueStep(l.slots, prev.releases, prev.limiter.slots, r.settled.clock, r.limiter.slots, prev.releases + [r.settled.clock]);
    var t := RunMany(l, now, env, op, idle, k);
    DispatchStep(now, l.slots, l.gap, idle, prev.starts, prev.releases, r.start, r.settled.clock, t.starts, t.releases);
  }

  /** Each call's settle time, state and outcome, value or failure, are the
      operation's own, unchanged. */
  lemma {:induction false} RunManySettled<S, V, E>(l: Limiter, now: real, env: S, op: (real, S) -> Settled<S, V, E>, idle: seq<real>, k: nat)
    requires |l.slots| > 0 && k <= |idle|
    ensures var t := RunMany(l, now, env, op, idle, k);
            SettledBy(op, env, t.starts, t.releases, t.envs, t.outcomes)
  {
    if k > 0 {
      RunManySettled(l, now, env, op, idle, k - 1);
      var prev := RunMany(l, now, env, op, idle, k - 1);
      var r := Run(prev.limiter, prev.clock + idle[k - 1], prev.env, op);
      var t := RunMany(l, now, env, op, idle, k);
      SettledStep(op, env, prev.starts, prev.releases, prev.envs, prev.outcomes, r.start, r.settled,
                  t.starts, t.releases, t.envs, t.outcomes);
    }
  }

  /** Queue step of `RunManyQueue`: popping the front and appending the
      release keeps the queue equal to the unconsumed suffix, and the
      entry popped is the next one ever queued. */
  lemma QueueStep(slots: seq<real>, releases: seq<real>, queue: seq<real>, release: real,
                  queue': seq<real>, releases': seq<real>)
    requires |queue| > 0 && queue == (slots + releases)[|releases|..]
    requires queue' == queue[1..] + [release] && releases' == releases + [release]
    ensures queue[0] == (slots + releases)[|releases|]
    ensures queue' == (slots + releases')[|releases'|..]
  {
    assert slots + releases' == (slots + releases) + [release];
  }

  /** Dispatch step of `RunManyDispatch`. */
  lemma DispatchStep(now: real, slots: seq<real>, gap: real, idle: seq<real>, starts: seq<real>, releases: seq<real>,
                     start: real, release: real, starts': seq<real>, releases': seq<real>)
    requires |starts| == |releases| < |idle| && |slots| > 0
    requires DispatchedFifo(now, slots, gap, idle, starts, releases)
    requires start == Max(EntryClock(now, releases, |releases|) + idle[|releases|], (slots + releases)[|releases|] + gap)
    requires starts' == starts + [start] && releases' == releases + [release]
    ensures DispatchedFifo(now, slots, gap, idle, starts', releases')
  {
    forall j | 0 <= j < |starts'|
      ensures starts'[j] == Max(EntryClock(now, releases', j) + idle[j], (slots + releases')[j] + gap)
    {
      assert (slots + releases')[j] == (slots + releases)[j];
      assert EntryClock(now, releases', j) == EntryClock(now, releases, j);
    }
  }

  /** Settle step of `RunManySettled`. */
  lemma SettledStep<S, V, E>(op: (real, S) -> Settled<S, V, E>, env: S,
                             starts: seq<real>, releases: seq<real>, envs: seq<S>, outcomes: seq<Outcome<V, E>>,
                             start: real, settled: Settled<S, V, E>,
                             starts': seq<real>, releases': seq<real>, envs': seq<S>, outcomes': seq<Outcome<V, E>>)
    requires |starts| == |releases| == |envs| == |outcomes|
    requires SettledBy(op, env, starts, releases, envs, outcomes)
    requires settled == op(start, Before(env, envs, |envs|))
    requires starts' == starts + [start] && releases' == releases + [settled.clock]
    requires envs' == envs + [settled.env] && outcomes' == outcomes + [settled.outcome]
    ensures SettledBy(op, env, starts', releases', envs', outcomes')
  {
    forall j | 0 <= j < |envs'|
      ensures Before(env, envs', j) == Before(env, envs, j)
    {
    }
  }

  /** The operation never settles before it was dispatched. */
  ghost predicate Monotone<S(!new), V, E>(op: (real, S) -> Settled<S, V, E>) {
    forall start, env :: op(start, env).clock >= start
  }

  /** Per call: dispatch no earlier than entry, settle no earlier than
      dispatch. */
  predicate ClockOrdered(now: real, idle: seq<real>, starts: seq<real>, releases: seq<real>)
    requires |starts| == |releases| <= |idle|
  {
    forall j {:trigger EntryClock(now, releases, j)} :: 0 <= j < |starts| ==>
      EntryClock(now, releases, j) + idle[j] <= starts[j] <= releases[j]
  }

  /** With an operation that never settles before dispatch, each call
      dispatches no earlier than it was entered and settles no earlier
      than it was dispatched. */
  lemma RunManyClockMonotone<S(!new), V, E>(l: Limiter, now: real, env: S, op: (real, S) -> Settled<S, V, E>, idle: seq<real>, k: nat)
    requires |l.slots| > 0 && k <= |idle| && Monotone(op)
    ensures var t := RunMany(l, now, env, op, idle, k);
            ClockOrdered(now, idle, t.starts, t.releases)
  {
    var t := RunMany(l, now, env, op, idle, k);
    RunManyDispatch(l, now, env, op, idle, k);
    RunManySettled(l, now, env, op, idle, k);
    SettledOrdered(now, l.slots, l.gap, idle, op, env, t.starts, t.releases, t.envs, t.outcomes);
  }

  lemma SettledOrdered<S(!new), V, E>(now: real, slots: seq<real>, gap: real, idle: seq<real>, op: (real, S) -> Settled<S, V, E>, env: S,
                                      starts: seq<real>, releases: seq<real>, envs: seq<S>, outcomes: seq<Outcome<V, E>>)
    requires |starts| == |releases| == |envs| == |outcomes| <= |idle| && Monotone(op)
    requires DispatchedFifo(now, slots, gap, idle, starts, releases)
    requires SettledBy(op, env, starts, releases, envs, outcomes)
    ensures ClockOrdered(now, idle, starts, releases)
  {
    forall j | 0 <= j < |starts|
      ensures EntryClock(now, releases, j) + idle[j] <= starts[j] <= releases[j]
    {
      assert starts[j] == Max(EntryClock(now, releases, j) + idle[j], (slots + releases)[j] + gap);
      assert op(starts[j], Before(env, envs, j)).clock == releases[j];
    }
  }

  /** With non-negative idle times, every entry clock is at least the
      initial reading. */
  lemma {:induction false} EntryClockAtLeastStart(now: real, idle: seq<real>, releases: seq<real>, starts: seq<real>, j: nat)
    requires j <= |releases| == |starts| <= |idle| && NonNegative(idle)
    requires ClockOrdered(now, idle, starts, releases)
    ensures EntryClock(now, releases, j) >= now
  {
    if j > 0 {
      EntryClockAtLeastStart(now, idle, releases, starts, j - 1);
    }
  }

  /** The first `m` calls are dispatched on entry, without waiting. */
  predicate NoWaitFor(now: real, idle: seq<real>, starts: seq<real>, releases: seq<real>, m: int)
    requires |starts| == |releases| <= |idle|
  {
    forall j {:trigger EntryClock(now, releases, j)} :: 0 <= j < |starts| && j < m ==>
      starts[j] == EntryClock(now, releases, j) + idle[j]
  }

  /** A limiter whose every slot deadline has passed at `now`, driven by an
      operation that never settles before dispatch, lets as many calls
      through without waiting as it has slots, however long the caller
      idles between calls. */
  lemma IdleRunsDoNotWait<S(!new), V, E>(l: Limiter, now: real, env: S, op: (real, S) -> Settled<S, V, E>, idle: seq<real>, k: nat)
    requires |l.slots| > 0 && k <= |idle| && NonNegative(idle) && Monotone(op)
    requires forall i :: 0 <= i < |l.slots| ==> l.slots[i] + l.gap <= now
    ensures var t := RunMany(l, now, env, op, idle, k);
            NoWaitFor(now, idle, t.starts, t.releases, |l.slots|)
  {
    var t := RunMany(l, now, env, op, idle, k);
    RunManyDispatch(l, now, env, op, idle, k);
    RunManyClockMonotone(l, now, env, op, idle, k);
    IdleNoWait(l, now, idle, t.starts, t.releases);
  }

  lemma IdleNoWait(l: Limiter, now: real, idle: seq<real>, starts: seq<real>, releases: seq<real>)
    requires |starts| == |releases| <= |idle| && NonNegative(idle)
    requires forall i :: 0 <= i < |l.slots| ==> l.slots[i] + l.gap <= now
    requires DispatchedFifo(now, l.slots, l.gap, idle, starts, releases)
    requires ClockOrdered(now, idle, starts, releases)
    ensures NoWaitFor(now, idle, starts, releases, |l.slots|)
  {
    forall j | 0 <= j < |starts| && j < |l.slots|
      ensures starts[j] == EntryClock(now, releases, j) + idle[j]
    {
      assert (l.slots + releases)[j] == l.slots[j];
      EntryClockAtLeastStart(now, idle, releases, starts, j);
    }
  }

  /** A fresh limiter, first entered no earlier than its construction time,
      lets the first `n` calls through without waiting, however long the
      caller idles between calls. */
  lemma FreshRunsDoNotWait<S(!new), V, E>(p: Params, built: real, now: real, env: S, op: (real, S) -> Settled<S, V, E>, idle: seq<real>, k: nat)
    requires ValidParams(p) && built <= now && k <= |idle| && NonNegative(idle) && Monotone(op)
    ensures var t := RunMany(New(p, built), now, env, op, idle, k);
            NoWaitFor(now, idle, t.starts, t.releases, p.n)
  {
    IdleRunsDoNotWait(New(p, built), now, env, op, idle, k);
  }
}
