/** How `gap` responds to its parameters, and why it is large enough: a
    slot reused `gap` after its release, plus the guaranteed latencies on
    both legs, lands strictly outside the remote window. */
module GapProperties {

  import opened AioLimit

  /** Scaling a non-negative difference by positive factors keeps it
      non-negative: the step every monotonicity lemma below needs. */
  lemma ScaleNonNegative(d: real, a: real, b: real)
    requires d >= 0.0 && a > 0.0 && b > 0.0
    ensures d / a * b >= 0.0
  {
    assert d / a >= 0.0;
  }

  /** `gap` grows with the window `w`. */
  lemma GapMonotoneInWindow(p: Params, w': real)
    requires ValidParams(p) && w' >= p.w
    ensures Gap(p) <= Gap(p.(w := w'))
  {
    var q := p.(w := w');
    var a := 1.0 - p.re / PPM;
    var b := 1.0 + p.le / PPM;
    assert (q.w + q.rr) / a - (p.w + p.rr) / a == (w' - p.w) / a;
    ScaleNonNegative(w' - p.w, a, b);
  }

  /** `gap` grows with the remote clock resolution `rr`. */
  lemma GapMonotoneInRemoteResolution(p: Params, rr': real)
    requires ValidParams(p) && rr' >= p.rr
    ensures Gap(p) <= Gap(p.(rr := rr'))
  {
    var q := p.(rr := rr');
    var a := 1.0 - p.re / PPM;
    var b := 1.0 + p.le / PPM;
    assert (q.w + q.rr) / a - (p.w + p.rr) / a == (rr' - p.rr) / a;
    ScaleNonNegative(rr' - p.rr, a, b);
  }

  /** `gap` grows one for one with the local clock resolution `lr`. */
  lemma GapMonotoneInLocalResolution(p: Params, lr': real)
    requires ValidParams(p) && lr' >= p.lr
    ensures Gap(p.(lr := lr')) - Gap(p) == lr' - p.lr
  {
  }

  /** `gap` shrinks as the remote-to-local latency `rtl` grows. */
  lemma GapAntitoneInRemoteToLocal(p: Params, rtl': real)
    requires ValidParams(p) && rtl' >= p.rtl
    ensures Gap(p.(rtl := rtl')) <= Gap(p)
  {
    var b := 1.0 + p.le / PPM;
    ScaleNonNegative(rtl' - p.rtl, 1.0, b);
  }

  /** `gap` shrinks as the local-to-remote latency `ltr` grows. */
  lemma GapAntitoneInLocalToRemote(p: Params, ltr': real)
    requires ValidParams(p) && ltr' >= p.ltr
    ensures Gap(p.(ltr := ltr')) <= Gap(p)
  {
    var b := 1.0 + p.le / PPM;
    ScaleNonNegative(ltr' - p.ltr, 1.0, b);
  }

  /** Some source of uncertainty is present: a clock with a positive
      resolution or a remote clock with a positive error bound. Without one
      the formula gives exactly the window and no strict margin. */
  predicate HasSlack(p: Params) {
    p.rr > 0.0 || p.lr > 0.0 || p.re > 0.0
  }

  /** When the latencies do not already cover the window, `gap` plus the
      latencies is at least the window plus both clock resolutions. */
  lemma {:induction false} GapCoversNominalWindow(p: Params)
    requires ValidParams(p)
    requires p.rtl + p.ltr <= (p.w + p.rr) / (1.0 - p.re / PPM)
    ensures Gap(p) + p.rtl + p.ltr >= p.w + p.rr + p.lr
    ensures p.re > 0.0 ==> Gap(p) + p.rtl + p.ltr > p.w + p.rr + p.lr
  {
    var a := 1.0 - p.re / PPM;
    var b := 1.0 + p.le / PPM;
    var trueWindow := (p.w + p.rr) / a;
    var span := trueWindow - p.rtl - p.ltr;
    assert Gap(p) == span * b + p.lr;
    assert span * b >= span by {
      assert span * b - span == span * (b - 1.0);
      assert span >= 0.0 && b - 1.0 >= 0.0;
    }
    assert trueWindow >= p.w + p.rr by {
      assert trueWindow * a == p.w + p.rr;
      assert trueWindow - (p.w + p.rr) == trueWindow * (1.0 - a);
    }
    if p.re > 0.0 {
      assert trueWindow > p.w + p.rr by {
        assert trueWindow * a == p.w + p.rr;
        assert trueWindow - (p.w + p.rr) == trueWindow * (1.0 - a);
        assert trueWindow > 0.0;
      }
    }
  }

  /** The margin the safety argument needs: the local spacing between two
      records through one slot is at least `rtl + ltr + max(gap, 0)`, and
      that strictly exceeds the window whenever some uncertainty is present. */
  lemma {:induction false} GapExceedsWindow(p: Params)
    requires ValidParams(p) && HasSlack(p)
    ensures p.rtl + p.ltr + Max(Gap(p), 0.0) > p.w
  {
    var a := 1.0 - p.re / PPM;
    var trueWindow := (p.w + p.rr) / a;
    assert trueWindow >= p.w by {
      assert trueWindow * a == p.w + p.rr;
      assert trueWindow - (p.w + p.rr) == trueWindow * (1.0 - a);
    }
    if p.rtl + p.ltr <= trueWindow {
      GapCoversNominalWindow(p);
    }
  }
}
