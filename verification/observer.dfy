/** The test's remote observer: each event is recorded `ltr` after its
    dispatch into a sliding window of record times, which first drops the
    entries strictly older than `w` before the record, and completes `rtl`
    after recording. An event that leaves more than `n` entries in the
    window fails with "Overloaded Window". */
module Observer {

  import opened AioLimit
  import MockClock

  predicate Sorted(s: seq<real>) {
    forall i, j :: 0 <= i < j < |s| ==> s[i] <= s[j]
  }

  /** The observer's eviction loop: drops entries from the front of the
      window while the window is non-empty and its oldest entry is strictly
      below `cutoff`. */
  function Evict(window: seq<real>, cutoff: real): (kept: seq<real>)
    ensures |kept| <= |window| && kept == window[|window| - |kept|..]
    ensures forall i :: 0 <= i < |window| - |kept| ==> window[i] < cutoff
    ensures |kept| > 0 ==> kept[0] >= cutoff
  {
    if |window| > 0 && window[0] < cutoff then Evict(window[1..], cutoff) else window
  }

  /** A window whose oldest entry is at or above the cutoff, an entry
      equal to the cutoff included, is kept whole. */
  lemma EvictKeepsHead(window: seq<real>, cutoff: real)
    requires |window| > 0 && window[0] >= cutoff
    ensures Evict(window, cutoff) == window
  {
  }

  /** The reference meaning of the sliding window: the entries at or above
      `cutoff`, in order. */
  function AtLeast(s: seq<real>, cutoff: real): seq<real>
  {
    if |s| == 0 then []
    else (if s[0] >= cutoff then [s[0]] else []) + AtLeast(s[1..], cutoff)
  }

  /** `AtLeast` keeps exactly the entries at or above the cutoff. */
  lemma {:induction false} AtLeastMembers(s: seq<real>, cutoff: real)
    ensures forall x :: x in AtLeast(s, cutoff) <==> x in s && x >= cutoff
  {
    if |s| > 0 {
      AtLeastMembers(s[1..], cutoff);
      assert s == [s[0]] + s[1..];
    }
  }

  /** On a sorted window, evicting from the front is exactly keeping the
      entries at or above the cutoff; in particular an entry equal to the
      cutoff stays. */
  lemma {:induction false} EvictSortedKeepsAtLeast(window: seq<real>, cutoff: real)
    requires Sorted(window)
    ensures Evict(window, cutoff) == AtLeast(window, cutoff)
  {
    if |window| > 0 {
      assert Sorted(window[1..]);
      EvictSortedKeepsAtLeast(window[1..], cutoff);
      if window[0] >= cutoff {
        AllAtLeast(window, cutoff);
      }
    }
  }

  /** A sorted sequence whose head is at or above the cutoff is kept whole. */
  lemma {:induction false} AllAtLeast(s: seq<real>, cutoff: real)
    requires Sorted(s) && |s| > 0 && s[0] >= cutoff
    ensures AtLeast(s, cutoff) == s
  {
    if |s| > 1 {
      assert Sorted(s[1..]);
      AllAtLeast(s[1..], cutoff);
      assert [s[0]] + s[1..] == s;
    }
  }

  /** `a` is a suffix of `b`: the last `|a|` elements of `b`. */
  predicate IsSuffix(a: seq<real>, b: seq<real>) {
    |a| <= |b| && a == b[|b| - |a|..]
  }

  lemma SuffixTransitive(a: seq<real>, b: seq<real>, c: seq<real>)
    requires IsSuffix(a, b) && IsSuffix(b, c)
    ensures IsSuffix(a, c)
  {
    assert c[|c| - |b|..][|b| - |a|..] == c[|c| - |a|..];
  }

  /** A suffix of a sorted sequence is sorted. */
  lemma SortedSuffix(a: seq<real>, b: seq<real>)
    requires IsSuffix(a, b) && Sorted(b)
    ensures Sorted(a)
  {
    var d := |b| - |a|;
    forall i, j | 0 <= i < j < |a|
      ensures a[i] <= a[j]
    {
      assert a[i] == b[d + i] && a[j] == b[d + j];
    }
  }

  /** A suffix of all but the last record, extended by the last record, is
      a suffix of all the records. */
  lemma SuffixExtend(a: seq<real>, records: seq<real>)
    requires |records| > 0 && IsSuffix(a, records[..|records| - 1])
    ensures IsSuffix(a + [records[|records| - 1]], records)
  {
    var m := |records|;
    assert records[m - 1 - |a|..] == records[..m - 1][m - 1 - |a|..] + [records[m - 1]];
  }

  /** One record at time `t`: evict the front entries strictly older than
      `t - w`, then append `t`. The survivors are the suffix of the old
      window that starts at its first entry at or after `t - w`. */
  function Record(window: seq<real>, t: real, w: real): (r: seq<real>)
    ensures |r| > 0 && r[|r| - 1] == t
    // the survivors are a suffix of the old window ...
    ensures IsSuffix(r[..|r| - 1], window)
    // ... every entry dropped before them was strictly older than `t - w` ...
    ensures forall i :: 0 <= i < |window| - (|r| - 1) ==> window[i] < t - w
    // ... and the first of them is not
    ensures |r| > 1 ==> r[0] >= t - w
  {
    var kept := Evict(window, t - w);
    assert (kept + [t])[..|kept|] == kept;
    kept + [t]
  }

  /** The window after the observer has recorded each of `records` in
      turn, starting empty. */
  function Observe(w: real, records: seq<real>): (window: seq<real>)
    ensures |window| <= |records|
    ensures |records| > 0 ==> |window| > 0 && window[|window| - 1] == records[|records| - 1]
  {
    if |records| == 0 then []
    else Record(Observe(w, records[..|records| - 1]), records[|records| - 1], w)
  }

  /** The window always holds the latest records, in order. */
  lemma {:induction false} ObserveSuffix(w: real, records: seq<real>)
    ensures IsSuffix(Observe(w, records), records)
  {
    var m := |records|;
    if m > 0 {
      var prefix := records[..m - 1];
      var before := Observe(w, prefix);
      ObserveSuffix(w, prefix);
      var window := Record(before, records[m - 1], w);
      assert Observe(w, records) == window;
      var kept := window[..|window| - 1];
      SuffixTransitive(kept, before, prefix);
      SuffixExtend(kept, records);
      assert kept + [records[m - 1]] == window;
    }
  }

  /** Records arriving in time order leave the window sorted. */
  lemma ObserveSorted(w: real, records: seq<real>)
    requires Sorted(records)
    ensures Sorted(Observe(w, records))
  {
    ObserveSuffix(w, records);
    SortedSuffix(Observe(w, records), records);
  }

  /** The window over the first `j` records extends the window over the
      first `j - 1` by one `Record` step. */
  lemma ObservePrefixStep(w: real, records: seq<real>, j: nat)
    requires 0 < j <= |records|
    ensures Observe(w, records[..j]) == Record(Observe(w, records[..j - 1]), records[j - 1], w)
  {
    assert records[..j][..j - 1] == records[..j - 1];
  }

  /** Filtering distributes over concatenation. */
  lemma {:induction false} AtLeastAppend(a: seq<real>, b: seq<real>, cutoff: real)
    ensures AtLeast(a + b, cutoff) == AtLeast(a, cutoff) + AtLeast(b, cutoff)
  {
    if |a| == 0 {
      assert a + b == b;
    } else {
      assert (a + b)[0] == a[0];
      assert (a + b)[1..] == a[1..] + b;
      AtLeastAppend(a[1..], b, cutoff);
    }
  }

  lemma AtLeastSingle(x: real, cutoff: real)
    ensures AtLeast([x], cutoff) == if x >= cutoff then [x] else []
  {
    assert [x][1..] == [];
  }

  /** Filtering at `c0` and then at a cutoff at least as high is filtering
      at the higher cutoff alone. */
  lemma {:induction false} AtLeastTwice(s: seq<real>, c0: real, cutoff: real)
    requires c0 <= cutoff
    ensures AtLeast(AtLeast(s, c0), cutoff) == AtLeast(s, cutoff)
  {
    if |s| > 0 {
      var head := if s[0] >= c0 then [s[0]] else [];
      assert AtLeast(s, c0) == head + AtLeast(s[1..], c0);
      AtLeastAppend(head, AtLeast(s[1..], c0), cutoff);
      AtLeastTwice(s[1..], c0, cutoff);
      if s[0] >= c0 {
        AtLeastSingle(s[0], cutoff);
      }
    }
  }

  /** A non-empty sequence is its front followed by its last entry. */
  lemma SplitLast(s: seq<real>)
    requires |s| > 0
    ensures s[..|s| - 1] + [s[|s| - 1]] == s
  {
  }

  /** Recording `t` into the window of the earlier records filtered at
      `c0 <= t - w` gives all records, `t` included, filtered at `t - w`. */
  lemma RecordFiltered(before: seq<real>, prefix: seq<real>, c0: real, t: real, w: real, cutoff: real)
    requires w >= 0.0 && cutoff == t - w && c0 <= cutoff
    requires Sorted(before) && before == AtLeast(prefix, c0)
    ensures Record(before, t, w) == AtLeast(prefix + [t], cutoff)
  {
    var kept := AtLeast(prefix, cutoff);
    assert Evict(before, cutoff) == kept by {
      EvictSortedKeepsAtLeast(before, cutoff);
      AtLeastTwice(prefix, c0, cutoff);
    }
    assert AtLeast(prefix + [t], cutoff) == kept + [t] by {
      AtLeastAppend(prefix, [t], cutoff);
      AtLeastSingle(t, cutoff);
    }
    calc {
      Record(before, t, w);
      Evict(before, cutoff) + [t];
      kept + [t];
    }
  }

  /** What the window is: for records arriving in time order, exactly the
      records at or after the latest record's time minus `w`, in order. */
  lemma {:induction false} ObserveWithin(w: real, records: seq<real>, cutoff: real)
    requires w >= 0.0 && Sorted(records) && |records| > 0
    requires cutoff == records[|records| - 1] - w
    ensures Observe(w, records) == AtLeast(records, cutoff)
  {
    var m := |records|;
    var prefix := records[..m - 1];
    assert Sorted(prefix);
    ObserveSorted(w, prefix);
    if m == 1 {
      ObserveWithinStep(w, records, cutoff, cutoff);
    } else {
      assert prefix[m - 2] == records[m - 2];
      var c0 := prefix[m - 2] - w;
      ObserveWithin(w, prefix, c0);
      ObserveWithinStep(w, records, c0, cutoff);
    }
  }

  /** The step of `ObserveWithin`: if the window over all but the last
      record is those records filtered at `c0 <= t - w`, where `t` is the
      last record, then the window over all of them is all of them
      filtered at `t - w`. */
  lemma ObserveWithinStep(w: real, records: seq<real>, c0: real, cutoff: real)
    requires w >= 0.0 && |records| > 0 && cutoff == records[|records| - 1] - w && c0 <= cutoff
    requires Sorted(Observe(w, records[..|records| - 1]))
    requires Observe(w, records[..|records| - 1]) == AtLeast(records[..|records| - 1], c0)
    ensures Observe(w, records) == AtLeast(records, cutoff)
  {
    var prefix := records[..|records| - 1];
    var t := records[|records| - 1];
    RecordFiltered(Observe(w, prefix), prefix, c0, t, w, cutoff);
    SplitLast(records);
    assert Observe(w, records) == Record(Observe(w, prefix), t, w);
    assert prefix + [t] == records;
  }

  /** Any `n + 1` consecutive entries span more than `w`. */
  ghost predicate Spaced(s: seq<real>, n: int, w: real)
    requires n >= 1
  {
    forall i, j {:trigger s[i], s[j]} :: 0 <= i < j < |s| && j - i == n ==> s[j] - s[i] > w
  }

  /** Records spaced so that any `n + 1` consecutive ones span more than
      `w`: the observer's window never exceeds `n` entries. */
  lemma ObserveBounded(w: real, n: int, records: seq<real>)
    requires n >= 1 && Sorted(records) && Spaced(records, n, w)
    ensures |Observe(w, records)| <= n
  {
    var m := |records|;
    if m > n {
      var i := m - 1 - n;
      assert records[m - 1] - records[i] > w;
      assert forall h :: 0 <= h <= i ==> records[h] <= records[i];
      LastRecordBounded(w, n, records);
    }
  }

  /** The step of `ObserveBounded` for the last record, given only that the
      `n`-th newest earlier record, and everything before it, lies more
      than `w` before the last one. */
  lemma LastRecordBounded(w: real, n: int, records: seq<real>)
    requires n >= 1 && |records| > n
    requires records[|records| - 1] - records[|records| - 1 - n] > w
    requires forall h :: 0 <= h <= |records| - 1 - n ==> records[h] <= records[|records| - 1 - n]
    ensures |Observe(w, records)| <= n
  {
    var kept := LastRecordSurvivors(w, records);
    SurvivorsFewerThan(kept, records, w, n);
  }

  /** The window after the last record is the survivors of the earlier
      records' window, a tail of those records all at or after the last
      record's time minus `w`, followed by the last record. */
  lemma LastRecordSurvivors(w: real, records: seq<real>) returns (kept: seq<real>)
    requires |records| > 0
    ensures IsSuffix(kept, records[..|records| - 1])
    ensures |kept| > 0 ==> kept[0] >= records[|records| - 1] - w
    ensures |Observe(w, records)| == |kept| + 1
  {
    var m := |records|;
    var prefix := records[..m - 1];
    var before := Observe(w, prefix);
    var window := Record(before, records[m - 1], w);
    ObservePrefixStep(w, records, m);
    assert records[..m] == records;
    kept := window[..|window| - 1];
    ObserveSuffix(w, prefix);
    SuffixTransitive(kept, before, prefix);
  }

  /** Survivors of an eviction at `t - w`, taken from the tail of all but
      the last record, number fewer than `n` when the `n`-th newest earlier
      record, and everything before it, lies more than `w` before the
      last. */
  lemma SurvivorsFewerThan(kept: seq<real>, records: seq<real>, w: real, n: int)
    requires n >= 1 && |records| > n && IsSuffix(kept, records[..|records| - 1])
    requires |kept| > 0 ==> kept[0] >= records[|records| - 1] - w
    requires records[|records| - 1] - records[|records| - 1 - n] > w
    requires forall h :: 0 <= h <= |records| - 1 - n ==> records[h] <= records[|records| - 1 - n]
    ensures |kept| < n
  {
    if |kept| > 0 {
      var d := |records| - 1 - |kept|;
      assert kept[0] == records[d];
    }
  }

  /** A prefix of sorted, spaced records is sorted and spaced. */
  lemma PrefixSortedSpaced(records: seq<real>, n: int, w: real, m: nat)
    requires n >= 1 && m <= |records| && Sorted(records) && Spaced(records, n, w)
    ensures Sorted(records[..m]) && Spaced(records[..m], n, w)
  {
  }

  datatype Overloaded = OverloadedWindow

  /** The test's `event()` dispatched at clock reading `start` with the
      observer's current window. */
  function Event(p: Params, start: real, window: seq<real>): (e: Settled<seq<real>, (), Overloaded>)
    // recorded `ltr` after dispatch (no time when `ltr` is not positive)
    ensures |e.env| > 0 && e.env[|e.env| - 1] == start + Max(p.ltr, 0.0)
    // the earlier survivors of the window are kept, in order, before it:
    // the suffix starting at the first entry not older than `w` before it
    ensures IsSuffix(e.env[..|e.env| - 1], window)
    ensures forall i :: 0 <= i < |window| - (|e.env| - 1) ==> window[i] < e.env[|e.env| - 1] - p.w
    ensures |e.env| > 1 ==> e.env[0] >= e.env[|e.env| - 1] - p.w
    // completed `rtl` after recording
    ensures e.clock == e.env[|e.env| - 1] + Max(p.rtl, 0.0)
    // fails exactly when the window is over capacity
    ensures e.outcome.Failure? <==> |e.env| > p.n
  {
    var recorded := MockClock.Sleep(start, p.ltr);
    var window' := Record(window, recorded, p.w);
    var done := MockClock.Sleep(recorded, p.rtl);
    Settled(done, window', if |window'| > p.n then Failure(OverloadedWindow) else Success(()))
  }
}
