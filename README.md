# Prompt Fusion: batch bookkeeping in Dafny

This project models the bookkeeping that the Prompt Fusion extension's hook for the
host's `get_learned_conditioning` does around the text encoder. The hook is in
`scripts/promptlang.py`. The model proves properties of each of the three steps:

- **Flattening** (`Flattening`): every tensor builder's prompt database is appended
  to one flat list of prompts for a single encoder call. Beside it, a table of running
  totals (`consecutive_ranges`) is kept. The encoder's results are then cut back into
  one slice per builder with that table.
- **Resizing** (`Resizing`): within one builder's slice, every scheduled conditioning is
  padded toward the batch's largest row count. The padding is whole copies of the encoder's
  empty conditioning, and the number of copies is the shortfall floor-divided by 77.
- **Sampling** (`Sampling`): the interpolation tensor is queried once per step. Runs of
  equal results are compressed into a list of `(end_at_step, cond)` entries.

`Conditioning` holds the shared values: a cond is a sequence of rows and its length is the
host's `size(0)`. `ScheduledCond` is the host's `ScheduledPromptConditioning`.

The flattening, the `max` over a batch, the in-place rewrite of the batch and the sampling
loop are methods with loop invariants. Each is proved against a specification function
(`Flatten`/`Ranges`, `MaxRows`, `ResizeBatch`, `Compress`). The lemmas then state what
those functions guarantee. `_resize_uniformly` rewrites its list in place, so
`ResizeUniformly` works on an `array`.

Conventions of the code that the model keeps:

- Sampling records `end_at_step = step` (scripts/promptlang.py:105, 107). The end is
  inclusive, so the last entry ends at `steps - 1`.
- The chunk size is the literal 77 (scripts/promptlang.py:91).
- A size difference that is not a whole number of chunks raises no error. The cond is
  padded with the floor of the chunk count and stays up to 76 rows short
  (`ResizeScheduleBounds`).

Python's `//` by 77 is Dafny's `/`: with a positive divisor, both are floor division.
`[x] * k` with `k <= 0` gives no copies, and `Copies` does the same. Slicing clamps its
bounds as Python does (`PySlice`). `max` of an empty generator raises `ValueError`. In the
model this is `MaxRows` returning `None`, and `ResizeUniformly` returning `ok == false`
with the array untouched.

## Model

| member | source | states |
|---|---|---|
| `Flattening.GetFlattenedPrompts` | scripts/promptlang.py:69-77 | the loop returns `Flatten`/`Ranges` of the databases; the range table has one bound more than there are builders, starts at 0, never decreases, ends at the flattened length, and slice `i` is exactly database `i` |
| `Flattening.RangeTable` | scripts/promptlang.py:69-77 | `Ranges` and `Flatten` form such a range table for every list of databases |
| `Flattening.RangesAt` | scripts/promptlang.py:71-75 | bound `i` is the length of the first `i` databases flattened, and there are `|databases| + 1` bounds |
| `Flattening.RangesMonotone` | scripts/promptlang.py:71-75 | bound `i` is at most bound `j` whenever `i <= j` |
| `Flattening.FlattenPrefix` | scripts/promptlang.py:73-74 | flattening a prefix of the databases yields a prefix of the flattening, so `extend` never disturbs earlier prompts |
| `Flattening.FlattenStep` | scripts/promptlang.py:74 | one more `extend` appends exactly the next database |
| `Flattening.SegmentAt` | scripts/promptlang.py:73-75 | database `i` lies exactly between bounds `i` and `i + 1` of the flattening |
| `Flattening.PySlice` | scripts/promptlang.py:43 | for in-range bounds, the Python slice is the Dafny subsequence |
| `Flattening.SliceOfSegment` | scripts/promptlang.py:43 | slicing a result list of the flattened length between a segment's bounds yields the results at exactly that segment's positions |
| `Flattening.SlicesPairBuildersWithTheirConds` | scripts/promptlang.py:43-45 | about `SliceByRanges`, the model of the comprehension (a `zip` cut at its shortest argument, each pair of bounds replaced by the clamped slice of the results): if the encoder returns one result per flattened prompt, the `zip` yields one group per builder; group `i` holds builder `i` and, as its entry `k`, the result for the flattened prompt that is prompt `k` of database `i` |
| `Flattening.SlicesRecoverDatabases` | scripts/promptlang.py:43-45 | slicing the flattened prompts themselves gives back every database, paired with it, in order |
| `Conditioning.Copies` | scripts/promptlang.py:95 | `k` stacked copies of a cond have `k` times its rows; a non-positive `k` gives none |
| `Conditioning.CopiesRow` | scripts/promptlang.py:95 | row `j` of the stacked copies is row `j mod |c|` of the copied cond |
| `Resizing.ResizeSchedule` | scripts/promptlang.py:90-96 | `end_at_step` is kept; with no missing chunk (`(target - size) // 77 <= 0`) the schedule is returned unchanged; otherwise the cond grows by exactly `missing * |empty|` rows and keeps its original rows as a prefix |
| `Resizing.ResizedRow` | scripts/promptlang.py:95 | every appended row is the matching row of a copy of the empty cond |
| `Resizing.ResizeScheduleBounds` | scripts/promptlang.py:91-96 | with a 77-row empty cond and a target not below the size, the new size is at most the target and less than 77 below it, and it equals the target exactly when the shortfall is a multiple of 77 |
| `Resizing.MaxRowsOfListIsMaximum` | scripts/promptlang.py:81-83 | the maximum over one prompt's schedules is absent exactly for an empty list, and is otherwise attained and an upper bound |
| `Resizing.MaxRowsIsMaximum` | scripts/promptlang.py:81-83 | the batch maximum is absent exactly when no prompt has a schedule (where `max` raises), and is otherwise the size of some schedule and at least every size |
| `Resizing.MaxCondSize` | scripts/promptlang.py:81-83 | the nested iteration computes that maximum, or reports its absence |
| `Resizing.ResizeUniformly` | scripts/promptlang.py:80-87 | succeeds exactly when some schedule exists; then it rewrites the array in place to `ResizeBatch` of its old contents at the batch maximum; otherwise the array is unchanged |
| `Resizing.ResizeBatchBounds` | scripts/promptlang.py:80-96 | about `ResizeBatch` and `ResizeList`, the models of the generator and the inner comprehension at lines 85-86: the resized batch keeps the number of prompts, the schedules per prompt, every `end_at_step` and every original cond as a prefix; with a 77-row empty cond each size is at most the maximum, less than 77 below it, and equal to it exactly when the shortfall is a multiple of 77 |
| `Sampling.Compress` | scripts/promptlang.py:102-107 | the function form of the loop: never more entries than steps, and empty exactly when there are no steps; `CompressIsSchedule` and `ScheduleIsCompress` characterise it completely |
| `Sampling.CompressSnoc` | scripts/promptlang.py:104-107 | proof step of the `CompressIsSchedule` induction: one more step moves the last entry's end to that step when the cond is equal, and otherwise appends an entry ending there |
| `Sampling.ExtendLast` | scripts/promptlang.py:104-105 | proof step of the `CompressIsSchedule` induction, for the equal-cond branch: moving the last entry's end over the new step keeps a valid schedule |
| `Sampling.AppendEntry` | scripts/promptlang.py:106-107 | proof step of the `CompressIsSchedule` induction, for the differing-cond branch: appending an entry for the new step keeps a valid schedule |
| `Sampling.CompressIsSchedule` | scripts/promptlang.py:99-109 | the compressed list is empty exactly when there are no steps; its ends start at 0 or later, strictly increase and finish at the last step; every covered step queried its entry's cond; no two adjacent entries have equal conds |
| `Sampling.ScheduleExpands` | scripts/promptlang.py:102-107 | expanding any such schedule, entry `i` over steps `prev_end + 1 .. end_at_step`, gives back the per-step conds |
| `Sampling.ScheduleIsCompress` | scripts/promptlang.py:102-107 | such a schedule is unique: any list meeting those conditions is the one the loop builds, so the compression is maximal |
| `Sampling.CompressRoundTrip` | scripts/promptlang.py:102-107 | expanding the compressed schedule reproduces exactly the sequence of queried conds |
| `Sampling.EndIsLastStepOfRun` | scripts/promptlang.py:104-107 | each entry's `end_at_step` is a step that queried its cond, and the following step, if any, queried a different cond |
| `Sampling.SampleTensorSchedules` | scripts/promptlang.py:99-109 | the loop returns the compressed schedule of `Samples`, the conds queried at steps `0 .. steps - 1` (none when `steps <= 0`). That schedule is valid: full coverage, strictly increasing ends, last end `steps - 1` when `steps > 0`, and empty when `steps <= 0`. It has no adjacent duplicates and it expands back to the queries |

## Left out

- Host interception: `ModuleHijacker.install_or_get` and the `hijack` decorator (scripts/promptlang.py:15-19, 32). They patch a foreign module.
- The `prompt_fusion_enabled` fallback to the original function (scripts/promptlang.py:34-35), settings registration (22-29) and `PromptFusionScript` (112-121). These are host and UI glue.
- The process-wide `global_state.is_negative` / `negative_schedules` handling (scripts/promptlang.py:50-52, 120-121). It is shared mutable state outside the computation.
- The encoder `original_function` (scripts/promptlang.py:41) is an external model call. The lemmas about slicing take "one result per flattened prompt" as a hypothesis.
- `empty_cond.init` and `empty_cond.get` (scripts/promptlang.py:37, 95) are external. The empty cond is a parameter, and the size lemmas take "77 rows" as a hypothesis.
- `_parse_tensor_builders` (scripts/promptlang.py:57-66), `parse_prompt`, `InterpolationTensorBuilder`, `tensor_builder.build`, `tensor.interpolate` and the geometry and Bezier code: lib_prompt_fusion is not part of this model. A builder is seen only through its prompt database. A tensor is an abstract per-step function `query: nat -> Cond`.
- The per-builder `build(...)` call at scripts/promptlang.py:43 and the list comprehension over the tensors at 47-48 are out of the model. Only the slicing and the resizing they apply are modelled.
- The float `step / steps`: for a fixed `steps` it is determined by `step`, so it is folded into `query`.
- Tensor numerics: `torch.eq` is sequence equality on real-valued rows. There is no NaN, and no broadcasting or shape error between conds of different shapes. `torch.concatenate` is sequence concatenation, with no check that column counts match.
- Object identity: `_resize_schedule` returns the same object when `(target - size) // 77 == 0` (scripts/promptlang.py:92-93). When the count is negative it returns a new object equal to its input, because `[empty] * k` is `[]`. When the count is positive it returns a new, padded object. The model compares values only. `ResizeUniformly` returns only whether it succeeded, not the list object itself.
- The `__main__` turtle plotting demo (scripts/promptlang.py:124-155) is graphics I/O.
