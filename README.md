# Rainflow counting: the four-point engine and the C++ turning point storage

This project models the core of a rainflow counting library in Dafny. It has two parts.

**The four-point engine of `rainflow.h`.** A context (`rfc_ctx`) passes through these states:
- `RFC_init` allocates a `class_count × class_count` matrix and the residue, and fixes the increments, the classes and the hysteresis.
- `RFC_feed` takes samples one at a time and does three things with each:
  - it gives the sample a base-1 stream position and a class;
  - it runs the hysteresis and peak-valley filter, which holds back the newest extremum as the *interim* turning point;
  - it pushes every turning point the filter releases onto the residue stack.
- After each push, the four-point loop runs. While the newest four entries A, B, C, D satisfy `min(B,C) >= min(A,D) && max(B,C) <= max(A,D)`, the slope B–C is counted once into the directional cell `class(B) * class_count + class(C)`, and B and C are removed.
- `RFC_finalize` with `RFC_RES_NONE` or `RFC_RES_IGNORE` releases the interim turning point, runs the loop once more and finishes counting.
- `RFC_deinit` returns the context to `INIT0`.

**The C++ wrapper `RainflowT` of `rainflow.hpp`.** It holds a context and a turning point storage `m_tp`. The engine appends to `m_tp` and edits it through three delegates:
- `tp_set` appends or replaces a tuple (positions are base 1);
- `tp_get` reads a tuple;
- `tp_inc_damage` adds damage to one tuple.

After each append, `tp_set` mirrors the storage size in `tp_cnt` and its capacity in `tp_cap`. `init` copies a zeroed context over `m_ctx`, so both read 0 again until the next append, while `m_tp` keeps its tuples.

## Files and layers

- `rainflow.dfy` (module `Rainflow`) holds the value-level pieces:
  - tuples, classes and increments;
  - the closure predicate and the closure loop `Settle`;
  - `FourPoint` over a stream of turning points;
  - counting cycles into the matrix (`CountCycle`, `CountCycles`);
  - the residue invariants.
- `rainflow_engine.dfy` (module `RainflowEngine`) gives the context as a value and one specification function per API call:
  - `InitSpec`, `FeedSpec`, `FinalizeSpec`, `DeinitSpec`;
  - the turning point filter `FilterPoint`;
  - whole runs (`Run`) and the invariants that feeding keeps.
- `rainflow_ctx.dfy` (module `RainflowContext`) is the imperative model.
  - Class `Context` has the fields of `rfc_ctx`: the matrix is an `array<real>` counted into in place, and the residue is a stack field.
  - Its methods `Init`, `Feed`, `Finalize` and `Deinit` are proved to produce exactly what the specification functions compute from `Model()`.
  - The closure loop (`CloseCycles`) and the feeding loop (`Feed`) are `while` loops with invariants.
- `rainflow_cpp.dfy` (module `RainflowCpp`) is class `RainflowT`, with fields `ctx`, `tp`, `tpCnt` and `tpCap` and the three delegates as methods. It proves the storage invariant: every stored tuple has `tp_pos == 0`.
- `rainflow_residue.dfy` (module `RainflowResidue`) proves that the residue buffer of `2 * class_count` entries suffices when peaks and valleys alternate in class.
- `rainflow_capacity.dfy` (module `RainflowCapacity`) derives that alternation for whole runs. The hysteresis must be at least one class width, and every sample must lie inside the classed range.
- `rainflow_examples.dfy` and `rainflow_wrapper_test.dfy` replay the worked examples of `test/rfc_test.c` and the storage scenario of `test/rfc_wrapper_advanced.cpp` on the model.

The C source of the engine, `rainflow.c`, is not part of this model. The engine's behaviour therefore follows three things:
- the header's pipeline comment and the closure rule (`rainflow.h:18-26`);
- its field comments (state machine, residue, matrix, increments, `internal.slope/extrema/pos`);
- the tests.

Where the engine needs a choice the header does not make, the model makes it and says so under "## Left out". These choices are:
- the exact steps of the turning point filter;
- the checks `RFC_init` makes;
- the comparison at exactly the hysteresis;
- the closure condition compares class indices, not raw values, so values in one class count as equal (ties);
- a value outside the classed range falls in the nearest class: below `class_offset` in class 0, at or above `class_offset + class_count * class_width` in class `class_count - 1`.

## Model

| member | source | states |
|---|---|---|
| Rainflow.IncrementsAgree | rainflow.h:102-112 | The half-cycle increment is exactly half the full one (1 of 2 with integral counts, 0.5 of 1.0 with floating counts). A count at or below `RFC_COUNTS_LIMIT` can take one more full increment without leaving the counts type's range. |
| Rainflow.Classify | rainflow.h:138 | The class is base 0 and below `class_count`. A value below `class_offset` falls in class 0, and a value at or above the top of the classed range falls in class `class_count - 1`. A value inside the classed range lies in its half-open class interval. |
| Rainflow.ClassifyMonotone | rainflow.h:188-190 | A larger value never falls in a lower class. |
| Rainflow.ClosureRule | rainflow.h:24-26 | For the newest four entries A, B, C, D, the loop counts a cycle exactly when `min(B,C) >= min(A,D) && max(B,C) <= max(A,D)` on their classes, ties included. The first cycle runs from B to C. Without closure the residue is unchanged. |
| Rainflow.Settle | rainflow.h:24-26 | Each closure removes two entries, so residue + 2·cycles equals the entries before. A non-empty residue stays non-empty. The newest four entries of the result never close. |
| Rainflow.SettleKeepsPrefix | rainflow.h:24-26 | What the loop leaves is a prefix of the residue followed by its newest entry. |
| Rainflow.SettleStable | rainflow.h:24-26 | Pushing onto a residue with no closable quadruple and running the loop leaves no closable quadruple anywhere in the residue. |
| Rainflow.SettleChronological | rainflow.h:139 | The loop keeps the residue in stream order. |
| Rainflow.SettleClasses | rainflow.h:138 | The loop keeps every class in `[0, class_count)`, and every cycle runs between two such classes. |
| Rainflow.FourPoint | rainflow.h:21-26 | Conservation over a stream: residue + 2·cycles = old residue + turning points pushed. |
| Rainflow.FourPointAppend | rainflow.h:21-26 | Counting a stream of turning points in two parts gives the same residue and the same cycles, in order, as counting it at once. |
| Rainflow.CellInRange | rainflow.h:205 | The cell `from * class_count + to` lies inside the `class_count²` matrix. |
| Rainflow.CellInjective | rainflow.h:205 | Different (from, to) class pairs have different cells, so counting is directional. |
| Rainflow.CountCycle | rainflow.h:183 | Counting a cycle raises the matrix total by exactly the increment. |
| Rainflow.CountCycleCells | rainflow.h:205 | On closure, cell (class(B), class(C)) grows by the increment and no other cell changes. |
| Rainflow.CountCycles | rainflow.h:183 | Counting n cycles raises the matrix total by n increments. |
| Rainflow.CellCountCells | test/rfc_test.c:62-65 | The cycles counted into a cell are the multiplicity of that (from, to) pair among the cycles' class pairs. |
| Rainflow.CountCyclesCell | rainflow.h:205 | Each cell holds its old value plus one increment per cycle with that row and column class, and nothing for the others. |
| Rainflow.CountedTotal | rainflow.h:183-185 | From an all-zero matrix, the total is the number of cycles times the increment. |
| Rainflow.CyclesFromTotal | test/rfc_test.c:124-129 | The matrix total divided by `full_inc` is the number of cycles. |
| Rainflow.CountCyclesAppend | rainflow.h:205 | Counting two batches of cycles one after the other is counting them together. |
| Rainflow.SettlePushed | rainflow.h:200-202 | Pushing a newer turning point onto a residue and running the loop keeps the residue invariant: no closable quadruple, stream order, and base-1 positions up to the current position. |
| Rainflow.SettlePositions | rainflow.h:139 | The loop keeps every stream position in `[1, pos]`. |
| RainflowEngine.ResidualOf | rainflow.h:172-178 | Residual method codes 0 (`RFC_RES_NONE`) and 1 (`RFC_RES_IGNORE`) are recognised, and no other. |
| RainflowEngine.Initialised | rainflow.h:127-128 | An initialised context is well formed and in state INIT. It has an empty residue, position 0, the given class count and the increment of the counts type. Every matrix cell is zero. |
| RainflowEngine.InitSpec | rainflow.h:127-128 | `RFC_init` succeeds exactly on a zero-initialised context (INIT0) with `class_count > 0`, `class_width > 0` and `hysteresis >= 0`. On another state nothing changes. Invalid parameters give the error state. Success gives a well-formed INIT context with an empty residue and a zero total. |
| RainflowEngine.DeinitSpec | rainflow.h:129 | `RFC_deinit` leaves INIT0 with no residue and no matrix. |
| RainflowEngine.DeinitAllowsInit | rainflow.h:129 | After `RFC_deinit`, `RFC_init` is accepted again. A second `RFC_init` without deinit is refused. |
| RainflowEngine.FilterPoint | rainflow.h:211-216 | A released turning point makes the state BUSY_INTERIM with the new point as interim point. It differs from the new point by more than the hysteresis. It is the opposite extremum when leaving BUSY, otherwise the old interim point. The slope becomes the sign of the new step. Without a release, the state moves INIT to BUSY and is otherwise kept. |
| RainflowEngine.Sample | rainflow.h:135-140 | A sample's tuple carries its value, a class below `class_count` and its base-1 stream position. |
| RainflowEngine.Push | rainflow.h:24-26 | A released turning point ends on top of the residue. Residue + 2·cycles grows by one. The matrix is the old one with exactly the closed cycles counted at `full_inc`. The rest of the context is unchanged. |
| RainflowEngine.Closed | rainflow.h:24-26 | Running the loop on a context settles its residue and counts exactly the closed cycles. No other field changes. |
| RainflowEngine.Apply | rainflow.h:18-26 | A filtered point updates state and search. With no release, residue and matrix stay as they are. With a release, the point is counted and conservation holds. |
| RainflowEngine.FeedOne | rainflow.h:130 | One sample advances the stream position by one and releases at most one turning point. Conservation holds, and the matrix gains exactly the cycles closed. |
| RainflowEngine.FeedAll | rainflow.h:130 | Feeding n samples advances the position by n and releases at most n turning points. The configuration is kept. |
| RainflowEngine.FeedAllAppend | rainflow.h:130 | Feeding a signal in two calls gives the same context, turning points and cycles as feeding it in one. |
| RainflowEngine.ValuesSamples | rainflow.h:137 | The tuples of a signal carry its values in order. |
| RainflowEngine.FeedOneSettles | rainflow.h:18-26 | A sample either releases nothing and leaves the residue and cycles alone, or releases one turning point that the loop settles. |
| RainflowEngine.FeedAllFourPoint | rainflow.h:18-26 | Over any stretch of samples, residue and cycles are what the four-point method makes of the released turning points. |
| RainflowEngine.FeedAllTurningPoints | rainflow.h:200-202 | Conservation while feeding: residue + 2·cycles = old residue + released turning points. |
| RainflowEngine.FeedAllMatrix | rainflow.h:205 | After feeding, the matrix is the old one with exactly the closed cycles counted at `full_inc`. |
| RainflowEngine.FeedAllTotal | rainflow.h:183 | The matrix total grows by one full increment per closed cycle. |
| RainflowEngine.Samples | rainflow.h:139 | The i-th sample is at stream position i + 1. |
| RainflowEngine.FeedOneFirst | rainflow.h:150-154 | The first sample moves INIT to BUSY, releases nothing and starts the search for extrema. |
| RainflowEngine.FeedOneBusy | rainflow.h:213-214 | In BUSY, a sample below the minimum and more than the hysteresis below the maximum releases the maximum and becomes the interim point on a falling slope. A sample above the maximum and more than the hysteresis above the minimum releases the minimum, on a rising slope. A turning point is released exactly in these two cases. Otherwise the sample only widens the extrema. |
| RainflowEngine.FeedOneInterim | rainflow.h:155 | In BUSY_INTERIM, a turning point is released exactly when the sample reverses the slope by more than the hysteresis. The interim point is released, and the sample becomes the new interim point on the reversed slope. A sample continuing the slope replaces the interim point. Any other sample is ignored. The residue changes only on a release. |
| RainflowEngine.ReversingSecond | rainflow.h:154-155 | On a peak-valley filtered signal, the second sample releases the first and becomes the interim turning point. |
| RainflowEngine.ReversingLater | rainflow.h:155 | On a peak-valley filtered signal, each later sample releases the sample before it and becomes the interim turning point. |
| RainflowEngine.ReversingExtend | rainflow.h:155 | On a peak-valley filtered signal, one more reversing sample releases the previous newest sample. |
| RainflowEngine.FeedAllReversing | rainflow.h:155 | On a peak-valley filtered signal, every sample but the newest is released, and the newest is held back as the interim turning point. |
| RainflowEngine.ReversingSnoc | rainflow.h:19-20 | Appending a sample that reverses the last step by more than the hysteresis keeps a signal peak-valley filtered. |
| RainflowEngine.ReversingFurther | rainflow.h:19-20 | Moving the newest sample further in the direction of the last step keeps a signal peak-valley filtered. |
| RainflowEngine.ReleasePeakValley | rainflow.h:155 | In BUSY_INTERIM, a reversal beyond the hysteresis releases the interim point. The released points followed by the new interim point stay peak-valley filtered, and the last step runs in the new slope's direction. |
| RainflowEngine.ContinuePeakValley | rainflow.h:155 | In BUSY_INTERIM, a sample continuing the slope replaces the interim point. The released points followed by it stay peak-valley filtered, with the last step still in the slope's direction. |
| RainflowEngine.FilterPeakValley | rainflow.h:19-20 | One filter step keeps the released turning points peak-valley filtered. In BUSY_INTERIM, those points followed by the interim point reverse at every step, each step beyond the hysteresis. The last step runs in the direction of the slope. |
| RainflowEngine.FeedOnePeakValley | rainflow.h:19-20 | One sample keeps what the search released peak-valley filtered. |
| RainflowEngine.FeedAllPeakValley | rainflow.h:19-20 | From INIT, after any samples, the released turning points followed by the interim point alternate in direction, each step beyond the hysteresis. Nothing is released before BUSY_INTERIM. |
| RainflowEngine.RunPeakValley | rainflow.h:19-20 | The turning points of a whole run alternate in direction, each step beyond the hysteresis. A run never releases exactly one turning point. |
| RainflowEngine.FinishPeakValley | rainflow.h:18-20 | Finishing releases the pending interim point after the points released so far. They stay peak-valley filtered, and there are never exactly one. |
| RainflowEngine.FeedSpec | rainflow.h:130 | `RFC_feed` is accepted exactly in INIT, BUSY and BUSY_INTERIM. Outside them nothing changes. |
| RainflowEngine.FinishSpec | rainflow.h:131 | Finishing releases the interim turning point when there is one, and none otherwise. It counts what that closes and leaves FINISHED with the residual method recorded. |
| RainflowEngine.FinalizeSpec | rainflow.h:131 | `RFC_finalize` succeeds exactly in a counting state with residual method 0 or 1, and ends FINISHED. Outside the counting states nothing changes. An unknown method gives the error state. |
| RainflowEngine.FilterInv | rainflow.h:211-216 | Given the context invariant, the filter's result is consistent. A released point is newer than the residue and older than the new interim point. The new interim point lies beyond the hysteresis from the newest residue entry, in the direction of the slope. |
| RainflowEngine.PushStepInv | rainflow.h:200-202 | Pushing such a turning point keeps the context invariant. |
| RainflowEngine.ApplyInv | rainflow.h:200-202 | A step the filter vouches for keeps the context invariant and a counting state. |
| RainflowEngine.FeedOneInv | rainflow.h:200-202 | Feeding a sample keeps the invariant: well formed, residue stable, in stream order with base-1 positions, and the search consistent with the state. In BUSY_INTERIM the step from the newest residue entry to the interim point exceeds the hysteresis in the direction of the slope. |
| RainflowEngine.InitialisedInv | rainflow.h:200-202 | The context `RFC_init` builds satisfies the invariant, in INIT, with the configuration it was given. |
| RainflowEngine.FeedAllInv | rainflow.h:200-202 | Feeding any signal keeps the invariant and a counting state. |
| RainflowEngine.FinishInv | rainflow.h:200-202 | Finalizing leaves a stable, chronological residue with base-1 positions. |
| RainflowEngine.Run | rainflow.h:127-131 | Init, feed and finalize end in FINISHED with a well-formed context. |
| RainflowEngine.FeedOneStates | rainflow.h:150-155 | One sample never returns to INIT. The first sample leaves INIT for BUSY. A step ending in BUSY released nothing and did not start in BUSY_INTERIM. |
| RainflowEngine.FeedTpsBound | rainflow.h:155 | With an interim point pending, fewer turning points were released than samples fed. In BUSY, none were released. |
| RainflowEngine.FedTurningPoints | rainflow.h:200-202 | From INIT: residue + 2·cycles = released turning points, and released + interim ≤ samples. |
| RainflowEngine.RunTurningPoints | rainflow.h:200-202 | Over a whole run, 2·cycles + residue_cnt = turning points ≤ samples. |
| RainflowEngine.RunResidue | rainflow.h:200-202 | A run's residue is stable and in stream order, with positions in `[1, n]`. |
| RainflowEngine.FinishMatrix | rainflow.h:205 | Finishing counts its cycles on top of the cycles already counted. |
| RainflowEngine.RunMatrix | rainflow.h:205 | A run's matrix is the zero matrix with exactly the run's cycles counted at `full_inc`. |
| RainflowEngine.RunTotal | rainflow.h:183 | A run's matrix total is cycles × `full_inc`. |
| RainflowEngine.FinishSettles | rainflow.h:131 | Finishing either does nothing to residue and cycles, or settles the interim point. |
| RainflowEngine.RunReversing | rainflow.h:18-26 | On a peak-valley filtered signal of two or more samples, a run takes every sample as a turning point and counts them with the four-point method from an empty residue. |
| RainflowEngine.RunCell | rainflow.h:205 | Each cell of a run's matrix is `full_inc` times the number of cycles from its row class to its column class. |
| RainflowEngine.RunSettles | rainflow.h:18-26 | On a peak-valley filtered signal, a run leaves exactly the residue and cycles of the four-point method. |
| RainflowContext.Context.constructor | rainflow.h:152 | A new context is zero-initialised (INIT0). |
| RainflowContext.Context.Init | rainflow.h:127-128 | `RFC_init` in place: result and new context are those of `InitSpec`. On success the matrix is a fresh array. |
| RainflowContext.Context.Deinit | rainflow.h:129 | `RFC_deinit` in place, as `DeinitSpec`. |
| RainflowContext.Context.CountCycle | rainflow.h:205 | Adds `full_inc` to the cycle's cell of the matrix array and changes no other cell. |
| RainflowContext.Context.CloseTop | rainflow.h:24-26 | One closure in place: B and C are removed, A and D keep their places, and the cycle B–C is counted into the matrix on top of the earlier ones. |
| RainflowContext.Context.CloseCycles | rainflow.h:24-26 | The pop-two loop on a stack returns the settled residue and counts in place exactly the cycles `Settle` closes, in order. |
| RainflowContext.Context.CycleFind | rainflow.h:24-26 | Running the loop on the context's residue gives the context `Closed` describes, in the same matrix array. |
| RainflowContext.Context.FindTurningPoint | rainflow.h:211-216 | The imperative filter sets state and search and returns the released point exactly as `FilterPoint` does. Residue and matrix are untouched. |
| RainflowContext.Context.FeedOnce | rainflow.h:130 | One sample in place gives the context and released point of `FeedOne`. |
| RainflowContext.Context.Feed | rainflow.h:130 | `RFC_feed` in place gives the result, context and released turning points of `FeedSpec`. |
| RainflowContext.Context.Finalize | rainflow.h:131 | `RFC_finalize` in place gives the result, context and released turning point of `FinalizeSpec`. |
| RainflowCpp.FeedOneUnreferenced | rainflow.hpp:743-753 | A sample's tuple never carries a storage position, so neither does anything the search holds or releases. |
| RainflowCpp.FeedAllUnreferenced | rainflow.hpp:743-753 | Every turning point `RFC_feed` hands to `tp_set` has `tp_pos == 0`, so it is appended. |
| RainflowCpp.RainflowT.constructor | rainflow.hpp:296-297 | The model's starting point for the members `m_ctx` and `m_tp`: empty storage, zero counters and the zeroed INIT0 context that `init` starts from. The library leaves `m_ctx` undefined until `init` (see "## Left out"). |
| RainflowCpp.RainflowT.TpSet | rainflow.hpp:724-757 | Covers every case, and storage stays free of positions. (1) Position 1..size replaces slot pos-1 with a copy whose `tp_pos` is 0, pings back pos and succeeds; the size is kept. (2) A position beyond the size fails and changes nothing. (3) Position 0 with `tp_pos == 0` appends exactly one copy and pings back the new size, which becomes `tp_cnt`. (4) Position 0 with `tp_pos != 0` changes nothing and returns `tp_pos <= size`. |
| RainflowCpp.RainflowT.TpGet | rainflow.hpp:762-772 | Fails exactly without an out pointer, at position 0 or beyond the size. Otherwise yields slot pos-1. Changes nothing. |
| RainflowCpp.RainflowT.TpIncDamage | rainflow.hpp:776-786 | Fails and changes nothing exactly at position 0 or beyond the size. Otherwise adds the damage to slot pos-1 only. |
| RainflowCpp.RainflowT.AppendAll | rainflow.hpp:749-753 | Handing turning points to `tp_set(0, ·)` one after another appends them in order. |
| RainflowCpp.RainflowT.Init | rainflow.hpp:301-324 | A zero-initialised context, then `RFC_init`, as `InitSpec` on INIT0. The storage is kept, and `tp_cnt` and `tp_cap` are reset to 0 with the rest of the copied context. |
| RainflowCpp.RainflowT.Feed | rainflow.hpp:368-372 | `RFC_feed` as `FeedSpec`. The storage grows by exactly the released turning points, in order. |
| RainflowCpp.RainflowT.Finalize | rainflow.hpp:396-400 | `RFC_finalize` as `FinalizeSpec`. The storage grows by exactly the released interim point. |
| RainflowCpp.RainflowT.Deinit | rainflow.hpp:361-365 | `RFC_deinit` as `DeinitSpec`. The storage is kept. |
| RainflowResidue.ClosesIffInnerRange | rainflow.h:24-26 | On alternating entries, slope B–C closes exactly when its class range is no larger than either neighbouring range. |
| RainflowResidue.StableNoDip | rainflow.h:24-26 | In a stable, alternating residue, no inner range is at or below both of its neighbours. |
| RainflowResidue.SlopesBound | rainflow.h:201 | A stable, alternating residue with all ranges in [lo, hi] has at most 2·(hi − lo + 1) slopes. |
| RainflowResidue.StableResidueBound | rainflow.h:201 | A stable, alternating residue within `class_count` classes has fewer than 2·class_count entries. |
| RainflowResidue.ClosureAlternating | rainflow.h:20 | One closure keeps the residue alternating. |
| RainflowResidue.SettleAlternating | rainflow.h:20 | The loop keeps an alternating residue alternating. |
| RainflowResidue.SettleLastStep | rainflow.h:24-26 | On an alternating residue, the loop keeps the direction of the newest step: after A, B, C, D closes, D lies beyond A in the direction from C to D. |
| RainflowResidue.AlternatingSnoc | rainflow.h:20 | An entry that turns the direction at the newest entry, in a class of its own, keeps the residue alternating. |
| RainflowResidue.AlternatingReplaceLast | rainflow.h:20 | Replacing the newest entry by one on the same side of the entry below it keeps the residue alternating. |
| RainflowResidue.PushFits | rainflow.h:201 | Pushing an alternating turning point onto a stable residue needs at most 2·class_count slots. The loop leaves a stable, alternating residue of fewer entries. |
| RainflowCapacity.SampleClassed | rainflow.h:138 | A sample inside the classed range lies in the interval of its class. |
| RainflowCapacity.ScaledClasses | rainflow.h:189-190 | Scaling by a positive class width keeps the order of class indices. |
| RainflowCapacity.ClassesApart | rainflow.h:189-190 | Two classed values at least one class width apart lie in different classes, in the same order. |
| RainflowCapacity.StepClasses | rainflow.h:19-21 | With a hysteresis of at least one class width, a step beyond the hysteresis changes the class, in the direction of the step. |
| RainflowCapacity.PendingFits | rainflow.h:201 | In a counting state with the class invariant, the residue and the pending interim point together take at most 2·class_count slots. |
| RainflowCapacity.BusyAlternates | rainflow.h:213-214 | A classed sample in BUSY keeps the class invariant. The first turning point goes into an empty residue. |
| RainflowCapacity.ReleaseAlternates | rainflow.h:155 | When a classed sample releases the interim point, the residue after the loop, followed by the new interim point, alternates in class, and the push fits into 2·class_count slots. |
| RainflowCapacity.SettleThenReverse | rainflow.h:20-26 | The interim point goes onto a stable, class-alternating residue within 2·class_count slots. After the loop it is the newest entry, and a new interim point reversing the step into it keeps the residue alternating in class. |
| RainflowCapacity.InterimAlternates | rainflow.h:155 | A classed sample in BUSY_INTERIM keeps the class invariant, and a released point fits. |
| RainflowCapacity.FeedOneAlternates | rainflow.h:201 | A classed sample keeps the class invariant, and whatever it releases fits onto the residue within 2·class_count slots. |
| RainflowCapacity.FeedAllAlternates | rainflow.h:201 | From INIT, on samples inside the classed range with hysteresis ≥ class width, the residue and the pending interim point alternate in class and fit into 2·class_count slots after every sample. |
| RainflowCapacity.FinishFits | rainflow.h:201 | Finishing pushes the interim point into the room left. The residue left is stable, alternating in class and shorter than 2·class_count. |
| RainflowCapacity.FeedFinishFits | rainflow.h:201 | Feeding classed samples from INIT, with hysteresis ≥ class width, and then finishing leaves a stable, class-alternating residue of fewer than 2·class_count entries. |
| RainflowCapacity.PrefixesFit | rainflow.h:201 | From INIT, on samples inside the classed range with hysteresis ≥ class width, the residue and the pending interim point fit into 2·class_count slots after every prefix of the samples. |
| RainflowCapacity.RunFits | rainflow.h:201 | A whole run on samples inside the classed range, with hysteresis ≥ class width, needs no more than 2·class_count slots on the way: after every prefix of the samples, the residue and the pending interim point fit. The residue the run leaves is stable, alternating in class and shorter than 2·class_count. |
| RainflowExamples.IntegerClass | test/rfc_test.c:110-112 | With classes of width 1 from 0.5, the integer k lies in class k − 1. |
| RainflowExamples.CellOfRun | test/rfc_test.c:62-65 | A cell whose class pair occurs n times among a run's cycles holds n full increments. |
| RainflowExamples.SettleClose | rainflow.h:24-26 | When exactly one slope closes, the loop removes B and C and counts that cycle. |
| RainflowExamples.FourClose | rainflow.h:24-26 | Four turning points whose middle slope closes leave the outer two and one cycle. |
| RainflowExamples.Empty | test/rfc_test.c:79-93 | No samples, finalized with `RFC_RES_NONE`: all-zero matrix, zero total, empty residue, no cycles, FINISHED. |
| RainflowExamples.UpCounted | test/rfc_test.c:117 | 1, 3, 2, 4 is peak-valley filtered. The four-point method leaves 1, 4 and one cycle in 1-based cell (3, 2). |
| RainflowExamples.CycleUp | test/rfc_test.c:117-134 | Run of 1, 3, 2, 4: one cycle, in 1-based cell (3, 2), holding one `full_inc`. The total divided by `full_inc` is 1, the residue is 1, 4, and the state is FINISHED. |
| RainflowExamples.DownCounted | test/rfc_test.c:158 | 4, 2, 3, 1 is peak-valley filtered. The four-point method leaves 4, 1 and one cycle in 1-based cell (2, 3). |
| RainflowExamples.CycleDown | test/rfc_test.c:158-175 | Run of 4, 2, 3, 1: one cycle, in 1-based cell (2, 3), the mirror of the rising cycle. Residue 4, 1, state FINISHED. |
| RainflowExamples.SmallReversing | test/rfc_test.c:199 | The 19 samples are peak-valley filtered at hysteresis 1. |
| RainflowExamples.SmallCounted | test/rfc_test.c:199-222 | The four-point method on the 19 turning points closes seven cycles, the tie {6, 1, 6, 1} closing as 1→6. It leaves five residue entries: samples 1, 4, 17, 18 and 19. |
| RainflowExamples.SmallResidueCells | test/rfc_test.c:212-222 | Those five residue entries have the values 2, 6, 1, 5, 2, and the seven cycles fall into the 1-based cells (5,3), (2,4), (1,6), (1,4), (5,3), (6,3) and (1,6). |
| RainflowExamples.SmallRun | test/rfc_test.c:199-222 | The whole run leaves the residue 2, 6, 1, 5, 2 and the seven cycles' cells. |
| RainflowExamples.SmallCellCounts | test/rfc_test.c:212-216 | Cycles per checked cell, as 1-based cells: (5,3) 2, (6,3) 1, (1,4) 1, (2,4) 1, (1,6) 2. |
| RainflowExamples.SmallMatrixHigh | test/rfc_test.c:212-213 | Cell (5,3) of the run's matrix holds 2·`full_inc`, and cell (6,3) holds 1·`full_inc`. |
| RainflowExamples.SmallMatrixLow | test/rfc_test.c:214-215 | Cells (1,4) and (2,4) each hold 1·`full_inc`. |
| RainflowExamples.SmallMatrixWide | test/rfc_test.c:216 | Cell (1,6) holds 2·`full_inc`. |
| RainflowExamples.SmallExample | test/rfc_test.c:199-223 | Run of the 19 samples: total / `full_inc` = 7. Cells (5,3) and (1,6) hold 2·`full_inc`; cells (6,3), (1,4) and (2,4) hold 1·`full_inc`. Residue 2, 6, 1, 5, 2, state FINISHED. |
| RainflowWrapperTest.BlockReversing | test/rfc_wrapper_advanced.cpp:83 | 1, 6, 2, 8 is peak-valley filtered at hysteresis 1. |
| RainflowWrapperTest.BlockTwiceReversing | test/rfc_wrapper_advanced.cpp:83-95 | So is the block fed twice. |
| RainflowWrapperTest.WrapperReleases | test/rfc_wrapper_advanced.cpp:92-99 | The engine releases 3 turning points on the first feed, 4 on the second and 1 at finalize. Together they are all 8 samples in order. |
| RainflowWrapperTest.SamplesStored | test/rfc_wrapper_advanced.cpp:101-117 | Stored samples carry the values in order, base-1 positions and `tp_pos == 0`. |
| RainflowWrapperTest.WrapperStorage | test/rfc_wrapper_advanced.cpp:86-99 | On the wrapper, the storage sizes are 3, 7 and 8 after feed, feed and finalize. The storage ends as the tuples of 1, 6, 2, 8, 1, 6, 2, 8. |

## Left out

- Nothing of `rainflow.c` appears here. `rainflow.c` is not part of this model. The turning point filter `FilterPoint` is reconstructed from these sources:
  - the `internal` fields (`slope`, `extrema[2]`, `pos`);
  - the state comments (BUSY, BUSY_INTERIM with an interim point);
  - the pipeline comment;
  - the tests.
- `InitSpec` is reconstructed the same way. It checks the state (INIT0), `class_count > 0`, `class_width > 0` and `hysteresis >= 0`. It does not check `version`, and it never fails on allocation.
- Rainflow.ClosesAtTop: the closure condition of `rainflow.h:24-26` does not say whether it compares values or classes. The model compares class indices, so two values in one class count as equal and close as a tie.
- Rainflow.Classify: values outside the classed range are clamped, below `class_offset` into class 0 and at or above `class_offset + class_count * class_width` into class `class_count - 1`. The header does not say how such values are classed.
- RainflowEngine.FilterPoint: at a step exactly equal to the hysteresis, the model takes a parameter (`strictHysteresis`) instead of one fixed comparison. The tests only use steps clearly beyond the threshold.
- Counting starts no earlier than a reversal. The first and last samples are not forced to be turning points: that is a flag of the fuller build.
- `RFC_RES_REPEATED`, the HCM method and the other residual methods are left out: the header only names them.
  - RainflowWrapperTest.WrapperStorage finalizes with `RFC_RES_NONE` where the test uses `RFC_RES_REPEATED`.
  - Both release the same last turning point, so the storage scenario is the same.
  - The extra counts that `RFC_RES_REPEATED` makes from the residue are not modelled.
- Damage: these are left out because they are floating-point `pow` arithmetic whose C code is not shown.
  - Wöhler parameters, pseudo damage, damage spreading;
  - the damage values the wrapper test checks;
  - the damage sums that `tp_inc_damage` receives.
  `TpIncDamage` is modelled as a storage operation on a real-valued `damage` field.
- RainflowCpp.RainflowT.constructor: `rainflow.hpp` declares no constructor. A default-constructed wrapper leaves the C struct `m_ctx` indeterminate until `init` copies a zeroed context over it (`rainflow.hpp:304-307`). The model starts from the zeroed INIT0 context instead, so `feed`, `finalize` and `deinit` before `init` are modelled as refusals, where the library's behaviour is undefined.
- RainflowCpp.RainflowT.Feed: in the library, the engine calls `tp_set` from inside `RFC_feed`, one turning point at a time. It also writes the pinged-back `tp_pos` into the residue's copy of the tuple.
  - The model appends the released turning points after the engine step, in the same order, through `AppendAll`.
  - The residue's copies keep `tp_pos == 0`.
  - The storage contents are the same. The back-reference inside the residue is not modelled.
- RainflowCpp.RainflowT.TpGet returns a copy of the slot instead of a pointer into the storage. Writes through that pointer (aliasing) are not modelled.
- RainflowCpp.RainflowT.TpSet: `std::vector` capacity growth is implementation-defined. After an append, `tp_cap` is any value at least the new size.
- RainflowCpp.RainflowT.TpSet: the tuple is passed by value, so it cannot point into `m_tp`. In the library `tp` may alias slot k of `m_tp`. Writing the position back (rainflow.hpp:734-736) then puts a non-zero `tp_pos` into storage, and "every stored tuple has `tp_pos == 0`" holds only for tuples from outside the storage.
- RainflowCpp.RainflowT.Finalize: `rainflow.hpp:175-180` also declares the residual methods DISCARD, HALFCYCLES, FULLCYCLES, CLORMANN_SEEGER, REPEATED and RP_DIN45667. This build of `rainflow.h` (`rainflow.h:174-175`) supports only NONE and IGNORE. The model follows it: any other code puts the context into the error state (`RainflowEngine.FinalizeSpec`), where the fuller build would count the residue.
- The residue is a sequence field, not a fixed buffer with `residue_cap`. The `2 * class_count` bound is proved separately (RainflowResidue.PushFits).
- RainflowCapacity.RunFits needs a hysteresis of at least one class width and every sample inside the classed range. Only then do the released turning points alternate in class (value-level alternation holds for every hysteresis: RainflowEngine.RunPeakValley). With a smaller hysteresis, or with values clamped into the outer classes, two consecutive turning points can share a class. The bound is then not derived, and what the fixed buffer does when it is full is not modelled.
- Matrix counts are unbounded reals. The overflow headroom is stated by `IncrementsAgree` for one increment at or below `RFC_COUNTS_LIMIT`. Wrap-around of `unsigned long long` counts beyond the limit is not modelled.
- These states and fields are not modelled: the transient state `RFC_STATE_FINALIZE`, the `error` codes, the `flags` field and `curr_inc`.
- These `RainflowT` members are left out because they need code not shown: `mem_alloc`, the C trampolines casting `internal.obj`, and the one-line forwarding methods (`feed_scaled`, `feed_tuple`, Wöhler, level crossing, range pair, `clear_counts` and others).
- The test programs' file input, CSV export and `main`, and the Python bindings, are not modelled.
