/**
No time is made or lost: on every CPU the switches form a chain, and then the totals of all
tasks, together with the first slices that the profiler drops, add up to the time covered.
*/
module PerftopConservation {
  import opened Options
  import opened PerftopTrace

  // ---------- Sums over all switches ----------

  /** The slices that were added to a total. */
  function Counted(t: Trace): nat {
    if t == [] then 0
    else
      var before, e := t[..|t| - 1], t[|t| - 1];
      Counted(before) + if Total(before, e.prev).None? then 0 else Slice(before, e)
  }

  /** The slices that end at the first switch-out of a task, which are recorded as zero. */
  function Dropped(t: Trace): nat {
    if t == [] then 0
    else
      var before, e := t[..|t| - 1], t[|t| - 1];
      Dropped(before) + if Total(before, e.prev).None? then Slice(before, e) else 0
  }

  // ---------- Chains of switches ----------

  /** Who runs on a CPU, and since when, as far as the trace tells. */
  function Running(t: Trace, cpu: nat): Option<(int, Word)> {
    if t == [] then None
    else
      var e := t[|t| - 1];
      if e.cpu == cpu then Some((e.next, e.now)) else Running(t[..|t| - 1], cpu)
  }

  /** The next switch fits: it is from the task that runs there, to one that runs nowhere else. */
  ghost predicate Fits(t: Trace, e: Event) {
    && (match Running(t, e.cpu)
        case Some(r) => e.prev == r.0
        case None => Start(t, e.prev).None?)
    && (forall c: nat :: c != e.cpu && Running(t, c).Some? ==> Running(t, c).value.0 != e.next)
  }

  /** On each CPU every switch is from the task that the one before switched to. */
  ghost predicate Chained(t: Trace) {
    t == [] || (Chained(t[..|t| - 1]) && Fits(t[..|t| - 1], t[|t| - 1]))
  }

  /** No task runs on two CPUs, and the start of a running task is when it was picked. */
  lemma {:induction false} RunningStarts(t: Trace, cpu: nat)
    requires Chained(t) && Running(t, cpu).Some?
    ensures Start(t, Running(t, cpu).value.0) == Some(Running(t, cpu).value.1)
  {
    var before, e := t[..|t| - 1], t[|t| - 1];
    if e.cpu != cpu {
      RunningStarts(before, cpu);
      var p := Running(before, cpu).value.0;
      assert p != e.next;
    }
  }

  /** The time covered by a CPU between its first and its last switch. */
  function FirstTime(t: Trace, cpu: nat): int {
    if t == [] then 0
    else if Running(t[..|t| - 1], cpu).None? then t[|t| - 1].now
    else FirstTime(t[..|t| - 1], cpu)
  }

  function Span(t: Trace, cpu: nat): int {
    match Running(t, cpu)
    case None => 0
    case Some(r) => r.1 - FirstTime(t, cpu)
  }

  predicate LastOn(t: Trace, cpu: nat, k: nat) {
    k < |t| && t[k].cpu == cpu && forall j :: k < j < |t| ==> t[j].cpu != cpu
  }

  predicate FirstOn(t: Trace, cpu: nat, k: nat) {
    k < |t| && t[k].cpu == cpu && forall j :: 0 <= j < k ==> t[j].cpu != cpu
  }

  /** Who runs on a CPU is whom its last switch picked. */
  lemma {:induction false} RunningIs(t: Trace, cpu: nat)
    ensures Running(t, cpu).None? <==> forall k :: 0 <= k < |t| ==> t[k].cpu != cpu
    ensures Running(t, cpu).Some? ==>
      exists k :: 0 <= k < |t| && LastOn(t, cpu, k) && Running(t, cpu).value == (t[k].next, t[k].now)
  {
    if t != [] {
      var before, last := t[..|t| - 1], |t| - 1;
      RunningIs(before, cpu);
      assert forall k :: 0 <= k < last ==> before[k] == t[k];
      if t[last].cpu == cpu {
        assert LastOn(t, cpu, last);
      } else if Running(before, cpu).Some? {
        var k :| 0 <= k < last && LastOn(before, cpu, k) && Running(before, cpu).value == (before[k].next, before[k].now);
        assert LastOn(t, cpu, k);
      }
    }
  }

  lemma {:induction false} FirstTimeIs(t: Trace, cpu: nat)
    requires Running(t, cpu).Some?
    ensures exists j :: 0 <= j < |t| && FirstOn(t, cpu, j) && FirstTime(t, cpu) == t[j].now
  {
    var before, last := t[..|t| - 1], |t| - 1;
    RunningIs(before, cpu);
    assert forall k :: 0 <= k < last ==> before[k] == t[k];
    if Running(before, cpu).None? {
      assert FirstOn(t, cpu, last);
    } else {
      FirstTimeIs(before, cpu);
      var j :| 0 <= j < last && FirstOn(before, cpu, j) && FirstTime(before, cpu) == before[j].now;
      assert FirstOn(t, cpu, j);
    }
  }

  /** A CPU covers the time from its first switch to its last. */
  lemma SpanIs(t: Trace, cpu: nat)
    ensures (forall k :: 0 <= k < |t| ==> t[k].cpu != cpu) ==> Span(t, cpu) == 0
    ensures (exists k :: 0 <= k < |t| && t[k].cpu == cpu) ==> exists j, k ::
      && 0 <= j < |t| && 0 <= k < |t| && FirstOn(t, cpu, j) && LastOn(t, cpu, k)
      && Span(t, cpu) == t[k].now - t[j].now
  {
    hide Running, FirstTime;
    RunningIs(t, cpu);
    if Running(t, cpu).Some? {
      FirstTimeIs(t, cpu);
    }
  }

  /** The time covered by the CPUs below `cpus`. */
  function Covered(t: Trace, cpus: nat): int {
    if cpus == 0 then 0 else Covered(t, cpus - 1) + Span(t, cpus - 1)
  }

  lemma SpanAppend(t: Trace, e: Event, cpu: nat)
    ensures Span(t + [e], cpu) ==
      if e.cpu != cpu then Span(t, cpu)
      else if Running(t, cpu).None? then 0
      else Span(t, cpu) + (e.now - Running(t, cpu).value.1)
  {
    assert (t + [e])[..|t|] == t;
  }

  lemma {:induction false} CoveredAppend(t: Trace, e: Event, cpus: nat)
    ensures Covered(t + [e], cpus) ==
      Covered(t, cpus)
      + if e.cpu < cpus && Running(t, e.cpu).Some? then e.now - Running(t, e.cpu).value.1 else 0
    decreases cpus
  {
    if cpus > 0 {
      CoveredAppend(t, e, cpus - 1);
      SpanAppend(t, e, cpus - 1);
    } else {
      assert Covered(t, 0) == 0;
    }
  }

  lemma {:induction false} Empty(cpus: nat)
    ensures Covered([], cpus) == 0
  {
    if cpus > 0 {
      Empty(cpus - 1);
    }
  }

  lemma ModPlus(a: int, b: int, c: int)
    requires a % WORD == b % WORD
    ensures (a + (c % WORD)) % WORD == (b + c) % WORD
  {
    var q, r := a / WORD - b / WORD, c / WORD;
    assert a == b + WORD * q;
    assert a + (c % WORD) == (b + c) + WORD * (q - r);
  }

  /** Modulo 2^64, all slices of a chained trace add up to the time covered by all CPUs. */
  lemma {:induction false} SlicesCoverTime(t: Trace, cpus: nat)
    requires Chained(t) && forall k :: 0 <= k < |t| ==> t[k].cpu < cpus
    ensures (Counted(t) + Dropped(t)) % WORD == Covered(t, cpus) % WORD
  {
    if t == [] {
      Empty(cpus);
    } else {
      var before, e := t[..|t| - 1], t[|t| - 1];
      assert t == before + [e];
      SlicesCoverTime(before, cpus);
      CoveredAppend(before, e, cpus);
      assert e.cpu < cpus;
      assert Counted(t) + Dropped(t) == Counted(before) + Dropped(before) + Slice(before, e);
      match Running(before, e.cpu) {
        case None => assert Slice(before, e) == 0;
        case Some(r) =>
          RunningStarts(before, e.cpu);
          assert Slice(before, e) == (e.now - r.1) % WORD;
          ModPlus(Counted(before) + Dropped(before), Covered(before, cpus), e.now - r.1);
      }
    }
  }

  // ---------- No overflow ----------

  /** Timestamps never go back. */
  predicate Timely(t: Trace) {
    forall j, k :: 0 <= j <= k < |t| ==> t[j].now <= t[k].now
  }

  /** A start lies within the trace. */
  lemma {:induction false} StartWithin(t: Trace, pid: int)
    requires Timely(t) && Start(t, pid).Some?
    ensures t[0].now <= Start(t, pid).value <= t[|t| - 1].now
  {
    var before, e := t[..|t| - 1], t[|t| - 1];
    if e.next != pid && Start(before, pid).Some? {
      StartWithin(before, pid);
    }
  }

  /** The total of a running task fits between the beginning of the trace and its latest pick. */
  lemma {:induction false} RunningTotal(t: Trace, cpu: nat)
    requires Chained(t) && Timely(t) && Running(t, cpu).Some?
    requires Total(t, Running(t, cpu).value.0).Some?
    ensures Total(t, Running(t, cpu).value.0).value <= Running(t, cpu).value.1 - t[0].now
    decreases |t|, 1
  {
    var before, e := t[..|t| - 1], t[|t| - 1];
    var p := Running(t, cpu).value.0;
    if e.cpu == cpu {
      TotalFits(t, p);
    } else {
      assert Running(before, cpu) == Running(t, cpu);
      if e.prev == p {
        RunningElsewhere(before, e, cpu);
      } else {
        RunningTotal(before, cpu);
      }
    }
  }

  /** A switch from a task is on the CPU where that task runs. */
  lemma RunningElsewhere(t: Trace, e: Event, cpu: nat)
    requires Chained(t) && Fits(t, e) && e.cpu != cpu && Running(t, cpu).Some?
    ensures Running(t, cpu).value.0 != e.prev
  {
    RunningStarts(t, cpu);
    if Running(t, e.cpu).Some? {
      RunningTwice(t, e.cpu, cpu);
    }
  }

  lemma {:induction false} RunningTwice(t: Trace, c: nat, d: nat)
    requires Chained(t) && c != d && Running(t, c).Some? && Running(t, d).Some?
    ensures Running(t, c).value.0 != Running(t, d).value.0
  {
    var before, e := t[..|t| - 1], t[|t| - 1];
    if e.cpu != c && e.cpu != d {
      RunningTwice(before, c, d);
    }
  }

  /**
  On a chained trace with timestamps that never go back, no total exceeds the time covered so
  far; so the 64-bit additions never wrap around.
  */
  lemma {:induction false} TotalFits(t: Trace, pid: int)
    requires Chained(t) && Timely(t) && Total(t, pid).Some?
    ensures Total(t, pid).value <= t[|t| - 1].now - t[0].now
    decreases |t|, 0
  {
    var before, e := t[..|t| - 1], t[|t| - 1];
    if Total(before, pid).Some? {
      assert before != [];
      assert Timely(before) && t[0] == before[0] && before[|before| - 1].now <= e.now;
      TotalFits(before, pid);
      if e.prev == pid {
        SwitchedOut(before, pid);
        assert Running(before, e.cpu).Some?;
        RunningStarts(before, e.cpu);
        RunningTotal(before, e.cpu);
        StartWithin(before, pid);
      }
    }
  }

  /**
  On any trace with timestamps that never go back, chained or not: a switch-out adds the time
  since the start, and the total fails to grow exactly when that sum leaves 64 bits.
  */
  lemma GrowsUnlessItWraps(t: Trace, e: Event)
    requires Timely(t + [e]) && Total(t, e.prev).Some?
    ensures Start(t, e.prev).Some? && Start(t, e.prev).value <= e.now
    ensures
      var old', slice := Total(t, e.prev).value, e.now - Start(t, e.prev).value;
      && Total(t + [e], e.prev).Some?
      && (Total(t + [e], e.prev).value >= old' <==> old' + slice < 0x1_0000_0000_0000_0000)
      && (old' + slice < 0x1_0000_0000_0000_0000 ==> Total(t + [e], e.prev).value == old' + slice)
  {
    hide Total, Start, Timely;
    Earlier(t, e);
    SwitchedOut(t, e.prev);
    Append(t, e, e.prev);
    if t != [] {
      StartWithin(t, e.prev);
    }
  }

  /** The slice of a running task starts at its pick and ends within the time covered. */
  lemma SliceFits(t: Trace, e: Event)
    requires Chained(t) && Timely(t) && Fits(t, e) && Total(t, e.prev).Some?
    requires t[|t| - 1].now <= e.now
    ensures Start(t, e.prev).Some? && Start(t, e.prev).value <= e.now
    ensures Total(t, e.prev).value + (e.now - Start(t, e.prev).value) < WORD
  {
    SwitchedOut(t, e.prev);
    RunningStarts(t, e.cpu);
    RunningTotal(t, e.cpu);
    StartWithin(t, e.prev);
  }

  /** Totals never decrease, and each switch-out adds exactly the time since the latest pick. */
  lemma TotalsOnlyGrow(t: Trace, e: Event, pid: int)
    requires Chained(t + [e]) && Timely(t + [e]) && Total(t, pid).Some?
    ensures Total(t + [e], pid).Some? && Start(t, pid).Some?
    ensures Total(t + [e], pid).value ==
      Total(t, pid).value + if e.prev == pid then e.now - Start(t, pid).value else 0
    ensures Total(t, pid).value <= Total(t + [e], pid).value
  {
    hide Total, Start, Chained, Timely, Fits;
    Earlier(t, e);
    SwitchedOut(t, pid);
    Append(t, e, pid);
    if e.prev == pid {
      SliceFits(t, e);
    }
  }

  lemma Earlier(t: Trace, e: Event)
    requires Timely(t + [e])
    ensures Chained(t + [e]) ==> Chained(t) && Fits(t, e)
    ensures Timely(t) && (t != [] ==> t[|t| - 1].now <= e.now)
  {
    var t' := t + [e];
    assert t'[..|t|] == t;
    assert forall j :: 0 <= j < |t| ==> t'[j] == t[j];
    if t != [] {
      assert t'[|t| - 1].now <= t'[|t|].now;
    }
  }

  /**
  The chain is needed: the start of a task is not refreshed when it is switched out, so two
  switch-outs without a pick in between count the time up to the first one twice.
  */
  lemma UnchainedSlicesOverlap(t: Trace, e: Event, f: Event, pid: int)
    requires Total(t, pid).Some? && Start(t, pid).Some?
    requires e.prev == pid && f.prev == pid && e.next != pid && f.next != pid
    ensures
      var start := Start(t, pid).value;
      Total(t + [e] + [f], pid) ==
        Some(Plus(Plus(Total(t, pid).value, Elapsed(e.now, start)), Elapsed(f.now, start)))
  {
    Append(t, e, pid);
    Append(t + [e], f, pid);
  }
}
