/** The clock the limiter reads and the `sleep` it awaits, as the test
    replaces them: a single reading `_cur_time` that only `sleep` moves. */
module MockClock {

  /** The clock reading after the mock sleep of `x` seconds from reading
      `now`: a positive `x` advances the clock by exactly `x`, anything
      else leaves it. */
  function Sleep(now: real, x: real): (later: real)
    ensures later >= now
    ensures later - now == (if x > 0.0 then x else 0.0)
  {
    if x > 0.0 then now + x else now
  }

  /** Sleeping until a deadline: the clock ends at the later of the
      deadline and the current reading. */
  lemma SleepUntil(now: real, deadline: real)
    ensures Sleep(now, deadline - now) >= deadline
    ensures Sleep(now, deadline - now) == now || Sleep(now, deadline - now) == deadline
    ensures deadline <= now ==> Sleep(now, deadline - now) == now
  {
  }

  /** Two non-negative sleeps in a row are one sleep of the summed length. */
  lemma SleepTwice(now: real, x: real, y: real)
    requires x >= 0.0 && y >= 0.0
    ensures Sleep(Sleep(now, x), y) == Sleep(now, x + y)
  {
  }
}
