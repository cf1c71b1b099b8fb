/** Flattening the prompt databases of all tensor builders into one batch for the
    encoder, and handing each builder back its own part of the encoder's output. */
module Flattening {

  /** A leaf prompt text as registered in a builder's prompt database. */
  type Prompt = string

  /** The databases concatenated in builder order. */
  function Flatten(databases: seq<seq<Prompt>>): seq<Prompt>
  {
    if |databases| == 0 then []
    else Flatten(databases[..|databases| - 1]) + databases[|databases| - 1]
  }

  /** The running totals `[0, |d0|, |d0| + |d1|, ...]` of the database sizes. */
  function Ranges(databases: seq<seq<Prompt>>): seq<nat>
  {
    if |databases| == 0 then [0]
    else Ranges(databases[..|databases| - 1]) + [|Flatten(databases)|]
  }

  /** `ranges` cuts `flattened` into exactly the given databases, in order:
      one bound more than there are databases, starting at 0, non-decreasing,
      ending at the length of `flattened`, and slice `i` is database `i`. */
  ghost predicate IsRangeTable(ranges: seq<nat>, flattened: seq<Prompt>, databases: seq<seq<Prompt>>)
  {
    && |ranges| == |databases| + 1
    && ranges[0] == 0
    && ranges[|databases|] == |flattened|
    && (forall i, j :: 0 <= i <= j <= |databases| ==> ranges[i] <= ranges[j])
    && (forall i :: 0 <= i < |databases| ==> IsSegment(ranges, flattened, i, databases[i]))
  }

  /** Bounds `i` and `i + 1` of `ranges` select exactly `part` from `flattened`. */
  ghost predicate IsSegment(ranges: seq<nat>, flattened: seq<Prompt>, i: nat, part: seq<Prompt>)
  {
    && i + 1 < |ranges|
    && ranges[i] <= ranges[i + 1] <= |flattened|
    && flattened[ranges[i]..ranges[i + 1]] == part
  }

  /** `_get_flattened_prompts`: extends `flattened` with each database in turn and
      records the length reached after each one. */
  method GetFlattenedPrompts(databases: seq<seq<Prompt>>) returns (flattened: seq<Prompt>, ranges: seq<nat>)
    ensures flattened == Flatten(databases) && ranges == Ranges(databases)
    ensures IsRangeTable(ranges, flattened, databases)
  {
    flattened := [];
    ranges := [0];
    var i := 0;
    while i < |databases|
      invariant 0 <= i <= |databases|
      invariant flattened == Flatten(databases[..i])
      invariant ranges == Ranges(databases[..i])
    {
      assert databases[..i + 1][..i] == databases[..i];
      flattened := flattened + databases[i];
      ranges := ranges + [|flattened|];
      i := i + 1;
    }
    assert databases[..i] == databases;
    RangeTable(databases);
  }

  /** Flattening a prefix of the databases gives a prefix of the flattening. */
  lemma {:induction false} FlattenPrefix(databases: seq<seq<Prompt>>, i: nat)
    requires i <= |databases|
    ensures Flatten(databases[..i]) <= Flatten(databases)
  {
    if i < |databases| {
      var front := databases[..|databases| - 1];
      assert front[..i] == databases[..i];
      FlattenPrefix(front, i);
    } else {
      assert databases[..i] == databases;
    }
  }

  /** Bound `i` of the range table is the length of the first `i` databases flattened. */
  lemma {:induction false} RangesAt(databases: seq<seq<Prompt>>, i: nat)
    requires i <= |databases|
    ensures |Ranges(databases)| == |databases| + 1
    ensures Ranges(databases)[i] == |Flatten(databases[..i])|
  {
    if |databases| > 0 {
      var front := databases[..|databases| - 1];
      if i < |databases| {
        assert front[..i] == databases[..i];
        RangesAt(front, i);
      } else {
        RangesAt(front, 0);
        assert databases[..i] == databases;
      }
    }
  }

  /** Database `i` sits between bounds `i` and `i + 1` of the flattening. */
  lemma SegmentAt(databases: seq<seq<Prompt>>, i: nat)
    requires i < |databases|
    ensures IsSegment(Ranges(databases), Flatten(databases), i, databases[i])
  {
    var whole, before, upTo := Flatten(databases), Flatten(databases[..i]), Flatten(databases[..i + 1]);
    RangesAt(databases, i);
    RangesAt(databases, i + 1);
    FlattenPrefix(databases, i + 1);
    FlattenStep(databases, i);
    PrefixSlice(whole, before, databases[i]);
  }

  /** Flattening one more database appends it. */
  lemma FlattenStep(databases: seq<seq<Prompt>>, i: nat)
    requires i < |databases|
    ensures Flatten(databases[..i + 1]) == Flatten(databases[..i]) + databases[i]
  {
    assert databases[..i + 1][..i] == databases[..i];
  }

  /** A prefix `before + part` of `whole` puts `part` right after `before` in `whole`. */
  lemma PrefixSlice(whole: seq<Prompt>, before: seq<Prompt>, part: seq<Prompt>)
    requires before + part <= whole
    ensures whole[|before|..|before| + |part|] == part
  {
    assert whole[|before|..|before| + |part|] == (before + part)[|before|..];
  }

  /** The bounds never decrease. */
  lemma RangesMonotone(databases: seq<seq<Prompt>>, i: nat, j: nat)
    requires i <= j <= |databases|
    ensures |Ranges(databases)| == |databases| + 1
    ensures Ranges(databases)[i] <= Ranges(databases)[j]
  {
    RangesAt(databases, i);
    RangesAt(databases, j);
    assert databases[..j][..i] == databases[..i];
    FlattenPrefix(databases[..j], i);
  }

  /** The bounds of `Ranges` cut `Flatten` back into the databases. */
  lemma RangeTable(databases: seq<seq<Prompt>>)
    ensures IsRangeTable(Ranges(databases), Flatten(databases), databases)
  {
    RangesAt(databases, 0);
    RangesAt(databases, |databases|);
    assert databases[..0] == [] && databases[..|databases|] == databases;
    forall i | 0 <= i < |databases|
      ensures IsSegment(Ranges(databases), Flatten(databases), i, databases[i])
    {
      SegmentAt(databases, i);
    }
    forall i, j | 0 <= i <= j <= |databases|
      ensures Ranges(databases)[i] <= Ranges(databases)[j]
    {
      RangesMonotone(databases, i, j);
    }
  }

  /** Python's `xs[begin:end]` for non-negative bounds: both are clamped to the length,
      and a slice whose start passes its end is empty. */
  function PySlice<T>(xs: seq<T>, begin: nat, end: nat): (r: seq<T>)
    ensures begin <= end <= |xs| ==> r == xs[begin..end]
  {
    var e := if end <= |xs| then end else |xs|;
    var b := if begin <= e then begin else e;
    xs[b..e]
  }

  /** `zip(ranges[:-1], ranges[1:], builders)` with each pair of bounds replaced by
      the slice of `conds` it selects; `zip` stops at its shortest argument. */
  function SliceByRanges<C, B>(conds: seq<C>, ranges: seq<nat>, builders: seq<B>): (groups: seq<(seq<C>, B)>)
    ensures |groups| <= |builders| && (|ranges| == 0 || |groups| <= |ranges| - 1)
    ensures |builders| < |ranges| ==> |groups| == |builders|
    ensures 0 < |ranges| <= |builders| + 1 ==> |groups| == |ranges| - 1
    ensures forall i :: 0 <= i < |groups| ==> groups[i].1 == builders[i]
    ensures forall i :: 0 <= i < |groups| && i + 1 < |ranges| && ranges[i] <= ranges[i + 1] <= |conds| ==>
      groups[i].0 == conds[ranges[i]..ranges[i + 1]]
  {
    var n: nat := if |ranges| == 0 then 0 else if |ranges| - 1 <= |builders| then |ranges| - 1 else |builders|;
    seq(n, i requires 0 <= i < n => SliceGroup(conds, ranges, builders, i))
  }

  /** Builder `i` with `flattened_conds[begin:end]` for its bounds `begin, end`. */
  function SliceGroup<C, B>(conds: seq<C>, ranges: seq<nat>, builders: seq<B>, i: nat): (group: (seq<C>, B))
    requires i + 1 < |ranges| && i < |builders|
    ensures group.1 == builders[i]
    ensures ranges[i] <= ranges[i + 1] <= |conds| ==> group.0 == conds[ranges[i]..ranges[i + 1]]
  {
    (PySlice(conds, ranges[i], ranges[i + 1]), builders[i])
  }

  /** When the encoder returns one result per flattened prompt, slicing its output by
      the range table pairs every builder with exactly the results of its own
      prompts, in order: entry `k` of builder `i`'s slice is the result for the
      flattened prompt that is prompt `k` of database `i`. */
  lemma SlicesPairBuildersWithTheirConds<C, B>(databases: seq<seq<Prompt>>, builders: seq<B>, conds: seq<C>)
    requires |builders| == |databases|
    requires |conds| == |Flatten(databases)|
    ensures var groups := SliceByRanges(conds, Ranges(databases), builders);
      && |groups| == |builders|
      && forall i :: 0 <= i < |groups| ==>
        IsGroupOf(groups[i], Ranges(databases), Flatten(databases), conds, i, databases[i], builders[i])
  {
    var ranges, flattened := Ranges(databases), Flatten(databases);
    var groups := SliceByRanges(conds, ranges, builders);
    RangesAt(databases, 0);
    forall i | 0 <= i < |groups|
      ensures IsGroupOf(groups[i], ranges, flattened, conds, i, databases[i], builders[i])
    {
      SegmentAt(databases, i);
      SliceOfSegment(ranges, flattened, conds, i, databases[i], builders[i]);
    }
  }

  /** `group` is `builder` together with the encoder results at the flattened
      positions of `part`, in order: its entry `k` is the result at the position
      where prompt `k` of `part` was flattened. */
  ghost predicate IsGroupOf<C, B>(group: (seq<C>, B), ranges: seq<nat>, flattened: seq<Prompt>, conds: seq<C>,
                                  i: nat, part: seq<Prompt>, builder: B)
  {
    && group.1 == builder
    && |group.0| == |part|
    && forall k :: 0 <= k < |part| ==>
      && i < |ranges| && ranges[i] + k < |conds| && ranges[i] + k < |flattened|
      && group.0[k] == conds[ranges[i] + k]
      && flattened[ranges[i] + k] == part[k]
  }

  /** The slice of a result list as long as the flattening, taken between the bounds
      of a segment, holds the results of the segment's prompts. */
  lemma SliceOfSegment<C, B>(ranges: seq<nat>, flattened: seq<Prompt>, conds: seq<C>, i: nat, part: seq<Prompt>, builder: B)
    requires IsSegment(ranges, flattened, i, part) && |conds| == |flattened|
    ensures IsGroupOf((PySlice(conds, ranges[i], ranges[i + 1]), builder), ranges, flattened, conds, i, part, builder)
  {
    var slice := PySlice(conds, ranges[i], ranges[i + 1]);
    assert slice == conds[ranges[i]..ranges[i + 1]];
    forall k | 0 <= k < |part|
      ensures flattened[ranges[i] + k] == part[k]
    {
      assert flattened[ranges[i]..ranges[i + 1]][k] == flattened[ranges[i] + k];
    }
  }

  /** Slicing the flattened prompts themselves gives back every database unchanged. */
  lemma SlicesRecoverDatabases(databases: seq<seq<Prompt>>)
    ensures var groups := SliceByRanges(Flatten(databases), Ranges(databases), databases);
      && |groups| == |databases|
      && forall i :: 0 <= i < |groups| ==> groups[i] == (databases[i], databases[i])
  {
    RangeTable(databases);
  }
}
