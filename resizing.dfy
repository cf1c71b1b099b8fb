/** Bringing every conditioning of one builder's batch to the same number of rows by
    appending whole copies of the encoder's empty conditioning. */
module Resizing {
  import opened Conditioning

  /** Rows per chunk of the encoder's output: conds grow in steps of this many rows. */
  const ChunkRows: nat := 77

  datatype Option<T> = None | Some(value: T)

  /** Largest of two optional sizes, `None` standing for "no size seen yet". */
  function Join(a: Option<nat>, b: Option<nat>): (r: Option<nat>)
  {
    match (a, b)
    case (None, _) => b
    case (_, None) => a
    case (Some(x), Some(y)) => Some(if x >= y then x else y)
  }

  /** Largest row count among `schedules`, or `None` when the list is empty. */
  function MaxRowsOfList(schedules: seq<ScheduledCond>): Option<nat>
  {
    if |schedules| == 0 then None
    else Join(MaxRowsOfList(schedules[..|schedules| - 1]), Some(|schedules[|schedules| - 1].cond|))
  }

  /** `max(schedule.cond.size(0) for schedules in conds for schedule in schedules)`;
      `None` where Python's `max` of an empty generator raises `ValueError`. */
  function MaxRows(conds: seq<seq<ScheduledCond>>): Option<nat>
  {
    if |conds| == 0 then None
    else Join(MaxRows(conds[..|conds| - 1]), MaxRowsOfList(conds[|conds| - 1]))
  }

  /** `m` is the size of some schedule of `conds` and no schedule is larger. */
  ghost predicate IsMaxRows(conds: seq<seq<ScheduledCond>>, m: nat)
  {
    && (exists i, j :: 0 <= i < |conds| && 0 <= j < |conds[i]| && |conds[i][j].cond| == m)
    && (forall i, j :: 0 <= i < |conds| && 0 <= j < |conds[i]| ==> |conds[i][j].cond| <= m)
  }

  /** No prompt of the batch has any schedule. */
  ghost predicate NoSchedules(conds: seq<seq<ScheduledCond>>)
  {
    forall i :: 0 <= i < |conds| ==> |conds[i]| == 0
  }

  lemma {:induction false} MaxRowsOfListIsMaximum(schedules: seq<ScheduledCond>)
    ensures MaxRowsOfList(schedules).None? <==> |schedules| == 0
    ensures MaxRowsOfList(schedules).Some? ==>
      && (exists j :: 0 <= j < |schedules| && |schedules[j].cond| == MaxRowsOfList(schedules).value)
      && (forall j :: 0 <= j < |schedules| ==> |schedules[j].cond| <= MaxRowsOfList(schedules).value)
  {
    if |schedules| > 0 {
      var front := schedules[..|schedules| - 1];
      MaxRowsOfListIsMaximum(front);
      assert forall j :: 0 <= j < |front| ==> front[j] == schedules[j];
    }
  }

  /** `MaxRows` is `None` exactly when the batch holds no schedule, and is otherwise its maximum. */
  lemma {:induction false} MaxRowsIsMaximum(conds: seq<seq<ScheduledCond>>)
    ensures MaxRows(conds).None? <==> NoSchedules(conds)
    ensures MaxRows(conds).Some? ==> IsMaxRows(conds, MaxRows(conds).value)
  {
    if |conds| > 0 {
      var front, last := conds[..|conds| - 1], conds[|conds| - 1];
      MaxRowsIsMaximum(front);
      MaxRowsOfListIsMaximum(last);
      assert forall i :: 0 <= i < |front| ==> front[i] == conds[i];
      var m := MaxRows(conds);
      if m.Some? {
        if MaxRows(front).Some? && (MaxRowsOfList(last).None? || MaxRows(front).value >= MaxRowsOfList(last).value) {
          var i, j :| 0 <= i < |front| && 0 <= j < |front[i]| && |front[i][j].cond| == m.value;
          assert |conds[i][j].cond| == m.value;
        } else {
          var j :| 0 <= j < |last| && |last[j].cond| == m.value;
          assert |conds[|conds| - 1][j].cond| == m.value;
        }
      }
    }
  }

  /** `_resize_schedule`: the number of missing chunks is `(target - size) // 77`
      (Python's floor division; Dafny's `/` agrees with it for a positive divisor).
      No missing chunk leaves the schedule as it is; otherwise its cond is followed
      by that many copies of `empty` (none at all when the count is negative). */
  function ResizeSchedule(schedule: ScheduledCond, target: int, empty: Cond): (r: ScheduledCond)
    ensures r.endAtStep == schedule.endAtStep
    ensures (target - |schedule.cond|) / ChunkRows <= 0 ==> r == schedule
    ensures |r.cond| == |schedule.cond| + (if (target - |schedule.cond|) / ChunkRows <= 0 then 0
                                           else (target - |schedule.cond|) / ChunkRows * |empty|)
    ensures r.cond[..|schedule.cond|] == schedule.cond
  {
    var missing := (target - |schedule.cond|) / ChunkRows;
    if missing == 0 then schedule
    else ScheduledCond(schedule.endAtStep, schedule.cond + Copies(empty, missing))
  }

  /** Every row that `ResizeSchedule` appends is the matching row of a copy of `empty`. */
  lemma ResizedRow(schedule: ScheduledCond, target: int, empty: Cond, j: int)
    requires |schedule.cond| <= j < |ResizeSchedule(schedule, target, empty).cond|
    ensures |empty| > 0
    ensures ResizeSchedule(schedule, target, empty).cond[j] == empty[(j - |schedule.cond|) % |empty|]
  {
    var missing := (target - |schedule.cond|) / ChunkRows;
    CopiesRow(empty, missing, j - |schedule.cond|);
  }

  /** With a 77-row `empty` and a target at least the schedule's size, the resized cond
      is at most the target and less than one chunk short of it, and reaches it exactly
      when the difference is a whole number of chunks. */
  lemma ResizeScheduleBounds(schedule: ScheduledCond, target: int, empty: Cond)
    requires |empty| == ChunkRows
    requires |schedule.cond| <= target
    ensures target - ChunkRows < |ResizeSchedule(schedule, target, empty).cond| <= target
    ensures (target - |schedule.cond|) % ChunkRows == 0 <==> |ResizeSchedule(schedule, target, empty).cond| == target
  {
    var d := target - |schedule.cond|;
    assert d == d / ChunkRows * ChunkRows + d % ChunkRows;
  }

  /** `[_resize_schedule(schedule, target) for schedule in schedules]`. */
  function ResizeList(schedules: seq<ScheduledCond>, target: int, empty: Cond): (r: seq<ScheduledCond>)
    ensures |r| == |schedules|
    ensures forall j :: 0 <= j < |r| ==> r[j] == ResizeSchedule(schedules[j], target, empty)
  {
    seq(|schedules|, j requires 0 <= j < |schedules| => ResizeSchedule(schedules[j], target, empty))
  }

  /** The whole batch with every schedule resized to `target`. */
  function ResizeBatch(conds: seq<seq<ScheduledCond>>, target: int, empty: Cond): (r: seq<seq<ScheduledCond>>)
    ensures |r| == |conds|
    ensures forall i :: 0 <= i < |r| ==> r[i] == ResizeList(conds[i], target, empty)
  {
    seq(|conds|, i requires 0 <= i < |conds| => ResizeList(conds[i], target, empty))
  }

  /** The size that `_resize_uniformly` brings a batch to, computed by iterating
      over every schedule of every prompt as its generator does. */
  method MaxCondSize(conds: seq<seq<ScheduledCond>>) returns (m: Option<nat>)
    ensures m == MaxRows(conds)
    ensures m.None? <==> NoSchedules(conds)
    ensures m.Some? ==> IsMaxRows(conds, m.value)
  {
    m := None;
    var i := 0;
    while i < |conds|
      invariant 0 <= i <= |conds|
      invariant m == MaxRows(conds[..i])
    {
      var schedules := conds[i];
      var best := None;
      var j := 0;
      while j < |schedules|
        invariant 0 <= j <= |schedules|
        invariant best == MaxRowsOfList(schedules[..j])
      {
        assert schedules[..j + 1][..j] == schedules[..j];
        best := Join(best, Some(|schedules[j].cond|));
        j := j + 1;
      }
      assert schedules[..j] == schedules;
      assert conds[..i + 1][..i] == conds[..i];
      m := Join(m, best);
      i := i + 1;
    }
    assert conds[..i] == conds;
    MaxRowsIsMaximum(conds);
  }

  /** `_resize_uniformly`: replaces, in place, every prompt's schedule list by its
      resized copy, all resized to the batch's largest size. When the batch holds no
      schedule, Python's `max` raises before anything is changed: `ok` is false and
      the array is left as it was. */
  method ResizeUniformly(conds: array<seq<ScheduledCond>>, empty: Cond) returns (ok: bool)
    modifies conds
    ensures ok <==> !NoSchedules(old(conds[..]))
    ensures ok ==> MaxRows(old(conds[..])).Some?
    ensures ok ==> conds[..] == ResizeBatch(old(conds[..]), MaxRows(old(conds[..])).value, empty)
    ensures !ok ==> conds[..] == old(conds[..])
  {
    ghost var before := conds[..];
    var target := MaxCondSize(conds[..]);
    if target.None? {
      return false;
    }
    var i := 0;
    while i < conds.Length
      invariant 0 <= i <= conds.Length
      invariant forall k :: 0 <= k < i ==> conds[k] == ResizeList(before[k], target.value, empty)
      invariant forall k :: i <= k < conds.Length ==> conds[k] == before[k]
    {
      conds[i] := ResizeList(conds[i], target.value, empty);
      i := i + 1;
    }
    assert conds[..] == ResizeBatch(before, target.value, empty);
    ok := true;
  }

  /** What `_resize_uniformly` leaves: as many prompts, as many schedules per prompt,
      every `end_at_step` kept and every original cond a prefix of its resized one;
      with a 77-row `empty`, every resized cond is at most the batch maximum and less
      than one chunk short of it, and equals it exactly when the shortfall was a
      whole number of chunks. */
  lemma ResizeBatchBounds(conds: seq<seq<ScheduledCond>>, empty: Cond)
    requires |empty| == ChunkRows
    requires !NoSchedules(conds)
    ensures MaxRows(conds).Some?
    ensures var m := MaxRows(conds).value; var r := ResizeBatch(conds, m, empty);
      && |r| == |conds|
      && (forall i :: 0 <= i < |r| ==> |r[i]| == |conds[i]|)
      && (forall i, j :: 0 <= i < |r| && 0 <= j < |r[i]| ==> IsResizedTo(r[i][j], conds[i][j], m))
  {
    MaxRowsIsMaximum(conds);
    var m := MaxRows(conds).value;
    var r := ResizeBatch(conds, m, empty);
    forall i, j | 0 <= i < |r| && 0 <= j < |r[i]|
      ensures IsResizedTo(r[i][j], conds[i][j], m)
    {
      ResizeScheduleBounds(conds[i][j], m, empty);
    }
  }

  /** `resized` keeps `original`'s step and rows, and its size is within one chunk
      below `target`, reaching it exactly when the shortfall was whole chunks. */
  ghost predicate IsResizedTo(resized: ScheduledCond, original: ScheduledCond, target: int)
  {
    && resized.endAtStep == original.endAtStep
    && |original.cond| <= |resized.cond|
    && resized.cond[..|original.cond|] == original.cond
    && target - ChunkRows < |resized.cond| <= target
    && ((target - |original.cond|) % ChunkRows == 0 <==> |resized.cond| == target)
  }
}
