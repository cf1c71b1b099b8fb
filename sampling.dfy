/** Querying an interpolation tensor once per sampling step and run-length
    compressing the results into the host's list of scheduled conditionings. */
module Sampling {
  import opened Conditioning

  /** The conds the tensor yields at steps `0 .. steps - 1`. `query(step)` stands for
      `tensor.interpolate(step / steps, step)`: for a fixed number of steps the
      fraction is determined by the step, so it is folded into `query`. */
  function Samples(query: nat -> Cond, steps: int): (cs: seq<Cond>)
    ensures |cs| == if steps <= 0 then 0 else steps
    ensures forall step :: 0 <= step < |cs| ==> cs[step] == query(step)
  {
    if steps <= 0 then [] else seq(steps, step requires 0 <= step < steps => query(step))
  }

  /** The compressed schedule of the per-step conds `cs`, built step by step as the loop
      of `_sample_tensor_schedules` builds it: a cond equal to that of the last entry
      moves that entry's `end_at_step` to the current step, any other cond is appended
      as a new entry ending at the current step. */
  function Compress(cs: seq<Cond>): (r: seq<ScheduledCond>)
    ensures |r| <= |cs|
    ensures |r| == 0 <==> |cs| == 0
  {
    if |cs| == 0 then []
    else
      var done, step := Compress(cs[..|cs| - 1]), |cs| - 1;
      if |done| > 0 && done[|done| - 1].cond == cs[step]
      then done[|done| - 1 := ScheduledCond(step, done[|done| - 1].cond)]
      else done + [ScheduledCond(step, cs[step])]
  }

  /** The first step covered by entry `i`: the one after the previous entry's end. */
  function Start(r: seq<ScheduledCond>, i: nat): int
    requires i < |r|
  {
    if i == 0 then 0 else r[i - 1].endAtStep + 1
  }

  /** `r` is a schedule of the per-step conds `cs`: empty exactly when there are no
      steps; its `end_at_step` values strictly increase from at least 0 up to the
      last step; entry `i` covers the steps from `Start(r, i)` to its end, and every
      one of them queried its cond; no two adjacent entries have equal conds. */
  ghost predicate IsScheduleOf(r: seq<ScheduledCond>, cs: seq<Cond>)
  {
    && (|r| == 0 <==> |cs| == 0)
    && (|r| > 0 ==> r[0].endAtStep >= 0 && r[|r| - 1].endAtStep == |cs| - 1)
    && EndsIncrease(r)
    && (forall i, j :: 0 <= i < |r| && j == i + 1 < |r| ==> r[i].cond != r[j].cond)
    && RunsMatch(r, cs)
  }

  /** The `end_at_step` values strictly increase along the schedule. */
  ghost predicate EndsIncrease(r: seq<ScheduledCond>)
  {
    forall i, j :: 0 <= i < j < |r| ==> r[i].endAtStep < r[j].endAtStep
  }

  /** Every step covered by an entry queried that entry's cond. */
  ghost predicate RunsMatch(r: seq<ScheduledCond>, cs: seq<Cond>)
  {
    forall i, step :: 0 <= i < |r| && Start(r, i) <= step <= r[i].endAtStep && 0 <= step < |cs| ==>
      cs[step] == r[i].cond
  }

  /** `k` steps of `c`. */
  function Repeat(c: Cond, k: int): (r: seq<Cond>)
    ensures |r| == if k <= 0 then 0 else k
    ensures forall step :: 0 <= step < |r| ==> r[step] == c
  {
    if k <= 0 then [] else seq(k, _ => c)
  }

  /** The per-step conds a schedule stands for: entry `i` repeated over the steps
      from `Start(r, i)` to its `end_at_step`. */
  function Expand(r: seq<ScheduledCond>): seq<Cond>
  {
    if |r| == 0 then []
    else
      var last := |r| - 1;
      Expand(r[..last]) + Repeat(r[last].cond, r[last].endAtStep + 1 - Start(r, last))
  }

  /** Dropping the last entry of a schedule leaves a schedule of the steps before it. */
  lemma DropLast(r: seq<ScheduledCond>, cs: seq<Cond>)
    requires IsScheduleOf(r, cs) && |r| > 0
    ensures 0 <= Start(r, |r| - 1) < |cs|
    ensures IsScheduleOf(r[..|r| - 1], cs[..Start(r, |r| - 1)])
  {
    var last := |r| - 1;
    var front, st := r[..last], Start(r, last);
    var cs' := cs[..st];
    if last > 0 {
      assert r[0].endAtStep <= r[last - 1].endAtStep < r[last].endAtStep;
    }
    assert forall i :: 0 <= i < |front| ==> front[i] == r[i];
    forall i | 0 <= i < |front|
      ensures Start(front, i) == Start(r, i)
    {
    }
    forall i, step | 0 <= i < |front| && Start(front, i) <= step <= front[i].endAtStep && 0 <= step < |cs'|
      ensures cs'[step] == front[i].cond
    {
      assert cs'[step] == cs[step];
    }
  }

  /** Moving the end of the last entry one step further, when that step queried the
      same cond, keeps a schedule. */
  lemma ExtendLast(r: seq<ScheduledCond>, cs: seq<Cond>, c: Cond)
    requires IsScheduleOf(r, cs) && |r| > 0 && r[|r| - 1].cond == c
    ensures IsScheduleOf(r[|r| - 1 := ScheduledCond(|cs|, c)], cs + [c])
  {
    ExtendLastIncrease(r, |cs|, c);
    ExtendLastRuns(r, cs, c);
  }

  lemma ExtendLastIncrease(r: seq<ScheduledCond>, n: int, c: Cond)
    requires EndsIncrease(r) && |r| > 0 && r[|r| - 1].endAtStep < n
    ensures EndsIncrease(r[|r| - 1 := ScheduledCond(n, c)])
  {
    var last := |r| - 1;
    var r' := r[last := ScheduledCond(n, c)];
    forall i, j | 0 <= i < j < |r'|
      ensures r'[i].endAtStep < r'[j].endAtStep
    {
      assert r'[i] == r[i];
      if j < last {
        assert r'[j] == r[j];
      }
    }
  }

  lemma ExtendLastRuns(r: seq<ScheduledCond>, cs: seq<Cond>, c: Cond)
    requires RunsMatch(r, cs) && EndsIncrease(r) && |r| > 0
    requires r[|r| - 1].endAtStep == |cs| - 1 && r[|r| - 1].cond == c
    ensures RunsMatch(r[|r| - 1 := ScheduledCond(|cs|, c)], cs + [c])
  {
    var last, n := |r| - 1, |cs|;
    var r', cs' := r[last := ScheduledCond(n, c)], cs + [c];
    forall i, step | 0 <= i < |r'| && Start(r', i) <= step <= r'[i].endAtStep && 0 <= step < |cs'|
      ensures cs'[step] == r'[i].cond
    {
      assert Start(r', i) == Start(r, i);
      if step < n {
        assert cs'[step] == cs[step];
        if i < last {
          assert r[i].endAtStep < r[last].endAtStep;
        }
      }
    }
  }

  /** Appending an entry for one more step, when its cond differs from the last
      entry's, keeps a schedule. */
  lemma AppendEntry(r: seq<ScheduledCond>, cs: seq<Cond>, c: Cond)
    requires IsScheduleOf(r, cs) && (|r| == 0 || r[|r| - 1].cond != c)
    ensures IsScheduleOf(r + [ScheduledCond(|cs|, c)], cs + [c])
  {
    AppendIncrease(r, |cs|, c);
    AppendRuns(r, cs, c);
    var r' := r + [ScheduledCond(|cs|, c)];
    assert forall i :: 0 <= i < |r| ==> r'[i] == r[i];
  }

  lemma AppendIncrease(r: seq<ScheduledCond>, n: int, c: Cond)
    requires EndsIncrease(r) && (|r| > 0 ==> r[|r| - 1].endAtStep < n)
    ensures EndsIncrease(r + [ScheduledCond(n, c)])
  {
    var r' := r + [ScheduledCond(n, c)];
    forall i, j | 0 <= i < j < |r'|
      ensures r'[i].endAtStep < r'[j].endAtStep
    {
      assert r'[i] == r[i];
      if j < |r| {
        assert r'[j] == r[j];
      } else {
        assert i == |r| - 1 || r[i].endAtStep < r[|r| - 1].endAtStep;
      }
    }
  }

  lemma AppendRuns(r: seq<ScheduledCond>, cs: seq<Cond>, c: Cond)
    requires RunsMatch(r, cs) && EndsIncrease(r)
    requires |r| == 0 <==> |cs| == 0
    requires |r| > 0 ==> r[|r| - 1].endAtStep == |cs| - 1
    ensures RunsMatch(r + [ScheduledCond(|cs|, c)], cs + [c])
  {
    var n := |cs|;
    var r', cs' := r + [ScheduledCond(n, c)], cs + [c];
    forall i, step | 0 <= i < |r'| && Start(r', i) <= step <= r'[i].endAtStep && 0 <= step < |cs'|
      ensures cs'[step] == r'[i].cond
    {
      if i < |r| {
        assert Start(r', i) == Start(r, i) && r'[i] == r[i];
        assert i == |r| - 1 || r[i].endAtStep < r[|r| - 1].endAtStep;
        assert cs'[step] == cs[step];
      } else {
        assert Start(r', i) == n;
      }
    }
  }

  /** One more step of `Compress`: the definition read on `cs + [c]`. */
  lemma CompressSnoc(cs: seq<Cond>, c: Cond)
    ensures var done := Compress(cs);
      Compress(cs + [c]) ==
        if |done| > 0 && done[|done| - 1].cond == c
        then done[|done| - 1 := ScheduledCond(|cs|, done[|done| - 1].cond)]
        else done + [ScheduledCond(|cs|, c)]
  {
    assert (cs + [c])[..|cs|] == cs;
  }

  /** `Compress` yields a schedule of its input. */
  lemma {:induction false} CompressIsSchedule(cs: seq<Cond>)
    ensures IsScheduleOf(Compress(cs), cs)
  {
    if |cs| > 0 {
      var front, c := cs[..|cs| - 1], cs[|cs| - 1];
      assert cs == front + [c];
      var done := Compress(front);
      CompressIsSchedule(front);
      CompressSnoc(front, c);
      if |done| > 0 && done[|done| - 1].cond == c {
        ExtendLast(done, front, c);
      } else {
        AppendEntry(done, front, c);
      }
    }
  }

  /** Every schedule of `cs` expands back to `cs`. */
  lemma {:induction false} ScheduleExpands(r: seq<ScheduledCond>, cs: seq<Cond>)
    requires IsScheduleOf(r, cs)
    ensures Expand(r) == cs
  {
    if |r| > 0 {
      var last := |r| - 1;
      var st := Start(r, last);
      DropLast(r, cs);
      ScheduleExpands(r[..last], cs[..st]);
      LastRun(r, cs);
      assert cs == cs[..st] + cs[st..];
    }
  }

  /** The steps covered by the last entry of a schedule all queried its cond. */
  lemma LastRun(r: seq<ScheduledCond>, cs: seq<Cond>)
    requires IsScheduleOf(r, cs) && |r| > 0
    ensures 0 <= Start(r, |r| - 1) < |cs|
    ensures cs[Start(r, |r| - 1)..] == Repeat(r[|r| - 1].cond, r[|r| - 1].endAtStep + 1 - Start(r, |r| - 1))
  {
    var last := |r| - 1;
    var st := Start(r, last);
    if last > 0 {
      assert r[0].endAtStep <= r[last - 1].endAtStep < r[last].endAtStep;
    }
    var tail := Repeat(r[last].cond, r[last].endAtStep + 1 - st);
    forall step | 0 <= step < |tail|
      ensures tail[step] == cs[st..][step]
    {
      assert cs[st..][step] == cs[st + step];
    }
  }

  /** The last entry of a schedule of `cs` ends at its last step with its cond. */
  lemma LastEntry(r: seq<ScheduledCond>, cs: seq<Cond>)
    requires IsScheduleOf(r, cs) && |cs| > 0
    ensures |r| > 0 && r[|r| - 1] == ScheduledCond(|cs| - 1, cs[|cs| - 1])
    ensures |r| > 1 && Start(r, |r| - 1) == |cs| - 1 ==> r[|r| - 2].cond != cs[|cs| - 1]
  {
    var last := |r| - 1;
    if last > 0 {
      assert r[0].endAtStep <= r[last - 1].endAtStep < r[last].endAtStep;
    }
    assert Start(r, last) <= |cs| - 1;
  }

  /** A schedule of `cs` is unique: it is the one `Compress` builds, so the
      compression is maximal and nothing else meets `IsScheduleOf`. */
  lemma {:induction false} ScheduleIsCompress(r: seq<ScheduledCond>, cs: seq<Cond>)
    requires IsScheduleOf(r, cs)
    ensures r == Compress(cs)
    decreases |cs|
  {
    if |cs| > 0 {
      PredecessorIsSchedule(r, cs);
      ScheduleIsCompress(Predecessor(r, cs), cs[..|cs| - 1]);
      LastEntry(r, cs);
      PredecessorStep(r, cs);
    }
  }

  /** The schedule `r` had one step earlier: without its last entry if that entry
      covers only the last step, and with the last entry ending a step sooner otherwise. */
  ghost function Predecessor(r: seq<ScheduledCond>, cs: seq<Cond>): seq<ScheduledCond>
    requires |r| > 0 && |cs| > 0
  {
    var last := |r| - 1;
    if Start(r, last) == |cs| - 1 then r[..last]
    else r[last := ScheduledCond(|cs| - 2, cs[|cs| - 1])]
  }

  lemma PredecessorIsSchedule(r: seq<ScheduledCond>, cs: seq<Cond>)
    requires IsScheduleOf(r, cs) && |cs| > 0
    ensures |r| > 0 && IsScheduleOf(Predecessor(r, cs), cs[..|cs| - 1])
  {
    DropLast(r, cs);
    LastEntry(r, cs);
    if Start(r, |r| - 1) != |cs| - 1 {
      ShrinkLast(r, cs);
    }
  }

  /** From the compression of all but the last step, `Compress` builds `r` back. */
  lemma PredecessorStep(r: seq<ScheduledCond>, cs: seq<Cond>)
    requires |cs| > 0 && |r| > 0 && r[|r| - 1] == ScheduledCond(|cs| - 1, cs[|cs| - 1])
    requires |r| > 1 && Start(r, |r| - 1) == |cs| - 1 ==> r[|r| - 2].cond != cs[|cs| - 1]
    requires Predecessor(r, cs) == Compress(cs[..|cs| - 1])
    ensures r == Compress(cs)
  {
    var front, c := cs[..|cs| - 1], cs[|cs| - 1];
    SplitLast(cs);
    PredecessorShape(r, cs);
    RebuildLast(r, front, c, Predecessor(r, cs));
  }

  /** A non-empty sequence is its front followed by its last element. */
  lemma SplitLast<T>(xs: seq<T>)
    requires |xs| > 0
    ensures xs == xs[..|xs| - 1] + [xs[|xs| - 1]]
  {
  }

  /** `Predecessor` either drops a last entry that covers only the last step, or
      ends it one step sooner. */
  lemma PredecessorShape(r: seq<ScheduledCond>, cs: seq<Cond>)
    requires |cs| > 0 && |r| > 0 && r[|r| - 1].cond == cs[|cs| - 1]
    requires |r| > 1 && Start(r, |r| - 1) == |cs| - 1 ==> r[|r| - 2].cond != cs[|cs| - 1]
    ensures || (Predecessor(r, cs) == r[..|r| - 1] && (|r| > 1 ==> r[|r| - 2].cond != cs[|cs| - 1]))
            || Predecessor(r, cs) == r[|r| - 1 := ScheduledCond(|cs| - 2, cs[|cs| - 1])]
  {
  }

  /** `Compress` rebuilds `r` from `p`, the compression of `front`, when `r` is `p`
      with an entry for `c` appended or with `p`'s last entry moved on by one step. */
  lemma RebuildLast(r: seq<ScheduledCond>, front: seq<Cond>, c: Cond, p: seq<ScheduledCond>)
    requires |r| > 0 && r[|r| - 1] == ScheduledCond(|front|, c)
    requires p == Compress(front)
    requires || (p == r[..|r| - 1] && (|r| > 1 ==> r[|r| - 2].cond != c))
             || p == r[|r| - 1 := ScheduledCond(|front| - 1, c)]
    ensures r == Compress(front + [c])
  {
    if p == r[..|r| - 1] && (|r| > 1 ==> r[|r| - 2].cond != c) {
      AppendedIsCompress(r, front, c);
    } else {
      ExtendedIsCompress(r, front, c);
    }
  }

  /** A last entry that `Compress` would append, after the compression of the steps before it. */
  lemma AppendedIsCompress(r: seq<ScheduledCond>, front: seq<Cond>, c: Cond)
    requires |r| > 0 && r[|r| - 1] == ScheduledCond(|front|, c)
    requires |r| > 1 ==> r[|r| - 2].cond != c
    requires r[..|r| - 1] == Compress(front)
    ensures r == Compress(front + [c])
  {
    CompressSnoc(front, c);
    assert r == r[..|r| - 1] + [ScheduledCond(|front|, c)];
  }

  /** A last entry that `Compress` would extend from the compression of the steps before it. */
  lemma ExtendedIsCompress(r: seq<ScheduledCond>, front: seq<Cond>, c: Cond)
    requires |r| > 0 && |front| > 0 && r[|r| - 1] == ScheduledCond(|front|, c)
    requires r[|r| - 1 := ScheduledCond(|front| - 1, c)] == Compress(front)
    ensures r == Compress(front + [c])
  {
    var shrunk := r[|r| - 1 := ScheduledCond(|front| - 1, c)];
    CompressSnoc(front, c);
    assert r == shrunk[|r| - 1 := ScheduledCond(|front|, c)];
  }

  /** Pulling the end of a last entry that covers two or more steps back by one keeps
      a schedule of all but the last step. */
  lemma ShrinkLast(r: seq<ScheduledCond>, cs: seq<Cond>)
    requires IsScheduleOf(r, cs) && |r| > 0 && Start(r, |r| - 1) < |cs| - 1
    ensures IsScheduleOf(r[|r| - 1 := ScheduledCond(|cs| - 2, r[|r| - 1].cond)], cs[..|cs| - 1])
  {
    var last, n := |r| - 1, |cs|;
    var r', cs' := r[last := ScheduledCond(n - 2, r[last].cond)], cs[..n - 1];
    forall i | 0 <= i < |r'|
      ensures Start(r', i) == Start(r, i)
    {
    }
    forall i, j | 0 <= i < j < |r'|
      ensures r'[i].endAtStep < r'[j].endAtStep
    {
      if j == last {
        assert Start(r, last) <= n - 2;
        assert i == last - 1 || r[i].endAtStep < r[last - 1].endAtStep;
      }
    }
    forall i, step | 0 <= i < |r'| && Start(r', i) <= step <= r'[i].endAtStep && 0 <= step < |cs'|
      ensures cs'[step] == r'[i].cond
    {
      assert cs'[step] == cs[step];
    }
  }

  /** Round trip: expanding the compressed schedule gives back every queried cond. */
  lemma CompressRoundTrip(cs: seq<Cond>)
    ensures Expand(Compress(cs)) == cs
  {
    CompressIsSchedule(cs);
    ScheduleExpands(Compress(cs), cs);
  }

  /** The `end_at_step` of every entry is the last step of its run: that step queried
      the entry's cond and the step after it, if any, queried a different one. */
  lemma EndIsLastStepOfRun(r: seq<ScheduledCond>, cs: seq<Cond>, i: nat)
    requires IsScheduleOf(r, cs) && i < |r|
    ensures 0 <= r[i].endAtStep < |cs| && cs[r[i].endAtStep] == r[i].cond
    ensures r[i].endAtStep + 1 < |cs| ==> cs[r[i].endAtStep + 1] != r[i].cond
  {
    var end := r[i].endAtStep;
    if i > 0 {
      assert r[0].endAtStep <= r[i - 1].endAtStep < end;
    }
    if i < |r| - 1 {
      assert end < r[|r| - 1].endAtStep;
      assert Start(r, i + 1) == end + 1 <= r[i + 1].endAtStep;
      assert cs[end + 1] == r[i + 1].cond;
    }
    assert Start(r, i) <= end;
  }

  /** `_sample_tensor_schedules`: queries the tensor at every step, extends the last
      entry when the new cond equals its cond element-wise and appends a new entry
      otherwise. */
  method SampleTensorSchedules(query: nat -> Cond, steps: int) returns (schedules: seq<ScheduledCond>)
    ensures schedules == Compress(Samples(query, steps))
    ensures IsScheduleOf(schedules, Samples(query, steps))
    ensures Expand(schedules) == Samples(query, steps)
  {
    schedules := [];
    var step := 0;
    while step < steps
      invariant 0 <= step <= if steps <= 0 then 0 else steps
      invariant schedules == Compress(Samples(query, step))
    {
      var cond := query(step);
      assert Samples(query, step + 1) == Samples(query, step) + [cond];
      CompressSnoc(Samples(query, step), cond);
      if |schedules| > 0 && schedules[|schedules| - 1].cond == cond {
        schedules := schedules[|schedules| - 1 := ScheduledCond(step, schedules[|schedules| - 1].cond)];
      } else {
        schedules := schedules + [ScheduledCond(step, cond)];
      }
      step := step + 1;
    }
    assert Samples(query, step) == Samples(query, steps);
    CompressIsSchedule(Samples(query, steps));
    CompressRoundTrip(Samples(query, steps));
  }
}
