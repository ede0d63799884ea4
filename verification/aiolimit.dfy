/** The `Limiter` of aiolimit.py: a client-side admission control that keeps
    `n` slot timestamps in a FIFO and lets an operation through a slot only
    once `gap` seconds of local time have passed since that slot was last
    released.

    Time is exact `real` arithmetic. The event loop's clock is not part of
    this module: `Run` takes the current clock reading as a parameter,
    advances it with `MockClock.Sleep`, and reports the clock reading at
    which the operation settled. */
module AioLimit {

  import MockClock

  /** Parts per million: the unit of the clock error parameters `re`, `le`. */
  const PPM: real := 1000000.0

  /** The constructor's parameters. `n` is the slot count; the others are in
      seconds except `re`, `le`, which are in ppm. */
  datatype Params = Params(
    w: real,    // remote window
    n: int,     // events allowed per remote window
    rr: real,   // remote clock resolution
    lr: real,   // local clock resolution
    re: real,   // remote clock error (ppm)
    le: real,   // local clock error (ppm)
    rtl: real,  // minimum latency remote event time -> local acknowledgement
    ltr: real   // minimum latency local dispatch -> remote event time
  )

  /** The documented parameter ranges of `Limiter.__init__`. */
  predicate ValidParams(p: Params) {
    && p.w > 0.0
    && p.n >= 1
    && p.rr >= 0.0
    && p.lr >= 0.0
    && 0.0 <= p.re < PPM
    && 0.0 <= p.le < PPM
    && p.rtl >= 0.0
    && p.ltr >= 0.0
  }

  /** The constructor's defaults, with the local clock resolution (a platform
      query in the source) supplied by the caller. */
  function DefaultParams(w: real, n: int, lr: real): (p: Params)
    ensures p.w == w && p.n == n && p.lr == lr
    ensures p.rr == 0.016 && p.re == 250.0 && p.le == 250.0
    ensures p.rtl == 0.0 && p.ltr == 0.0
    ensures w > 0.0 && n >= 1 && lr >= 0.0 <==> ValidParams(p)
  {
    Params(w, n, 0.016, lr, 250.0, 250.0, 0.0, 0.0)
  }

  function Max(a: real, b: real): (m: real)
    ensures m >= a && m >= b
    ensures m == a || m == b
  {
    if a >= b then a else b
  }

  /** The minimum local-clock spacing between two uses of one slot: the
      window widened by the remote resolution, stretched to worst-case true
      time by the remote clock error, shortened by the guaranteed latencies,
      stretched to worst-case local time by the local clock error, and
      widened by one local tick.

      The contract reads the formula backwards: undoing the local tick and
      the local clock error and adding the latencies back gives exactly the
      remote window expressed in worst-case true time. */
  function Gap(p: Params): (g: real)
    requires ValidParams(p)
    ensures (g - p.lr) / (1.0 + p.le / PPM) + p.rtl + p.ltr
            == (p.w + p.rr) / (1.0 - p.re / PPM)
  {
    var trueWindow := (p.w + p.rr) / (1.0 - p.re / PPM);
    var span := trueWindow - p.rtl - p.ltr;
    var g := span * (1.0 + p.le / PPM) + p.lr;
    assert (g - p.lr) / (1.0 + p.le / PPM) == span;
    g
  }

  /** A settled operation: the clock reading when it finished, the state of
      whatever it acted on, and its value or failure. */
  datatype Outcome<V, E> = Success(value: V) | Failure(error: E)

  datatype Settled<S, V, E> = Settled(clock: real, env: S, outcome: Outcome<V, E>)

  /** The limiter: `gap` is fixed at construction, `slots` is the queue of
      release timestamps, front first. */
  datatype Limiter = Limiter(gap: real, slots: seq<real>)

  /** `Limiter(w, n, ...)` constructed when the clock reads `now`: `n` slots,
      all stamped `now - gap`, so that each becomes usable at `now`. */
  function New(p: Params, now: real): (l: Limiter)
    requires ValidParams(p)
    ensures l.gap == Gap(p)
    ensures |l.slots| == p.n
    ensures forall i :: 0 <= i < |l.slots| ==> l.slots[i] + l.gap == now
  {
    var g := Gap(p);
    Limiter(g, seq(p.n, _ => now - g))
  }

  /** One awaited call of the limiter's `run` with the clock reading `now`
      at entry.
      `start` is when the operation was dispatched; the operation is a
      function of its dispatch time and of the state `env` it acts on. */
  datatype RunResult<S, V, E> = RunResult(limiter: Limiter, start: real, settled: Settled<S, V, E>)

  /** Takes the front slot `t`, sleeps `t + gap - now` (no wait when that is
      not positive), runs the operation, and on every outcome puts the
      settle time back at the end of the queue. */
  function Run<S, V, E>(l: Limiter, now: real, env: S, op: (real, S) -> Settled<S, V, E>): (r: RunResult<S, V, E>)
    requires |l.slots| > 0
    // dispatch never precedes the slot's deadline, and never waits past it
    ensures r.start >= l.slots[0] + l.gap && r.start >= now
    ensures r.start == now || r.start == l.slots[0] + l.gap
    // the operation's outcome, value or failure, is handed back unchanged
    ensures r.settled == op(r.start, env)
    // FIFO: the front slot is consumed, the settle time appended at the back
    ensures r.limiter.slots == l.slots[1..] + [r.settled.clock]
    ensures |r.limiter.slots| == |l.slots|
    ensures r.limiter.gap == l.gap
  {
    var t := l.slots[0];
    var start := MockClock.Sleep(now, t + l.gap - now);
    var settled := op(start, env);
    RunResult(Limiter(l.gap, l.slots[1..] + [settled.clock]), start, settled)
  }
}
