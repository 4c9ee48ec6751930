# Theta sketches, verified

This project models the theta sketch library and the aggregate callbacks built on it, and proves what they
promise. A theta sketch samples a set of 63-bit hashes: it retains the hashes below a threshold theta, and when
there are too many it keeps the k smallest and lowers theta to the next one.

The modules follow the program:

- `Bits`, `Sizing`, `Sequences`, `Probing`: powers of two and binary digits, the size and load formulas, hash
  sequences, and the probe sequence of the open-addressing table.
- `KMinimumValues`: the reference semantics. `Kmv(k, s, theta)` is the sample of the hashes `s` below `theta`;
  `Saturated` says which thresholds a sketch may have reached.
- `UpdateTable`: the hash table as a class over an array: find, insert, growth, rebuild, trim, reset.
- `Sketches`: compact sketches and the update sketch, whose ghost field `seen` is every hash offered so far.
- `Unions`, `Intersections`, `SetDifferences`, `JaccardSimilarity`: the set operations.
- `BitPacking`, `BlockPacking`, `BlockRoundTrip`, `ChainedPacking`: fixed-width fields in a byte stream, one at a
  time and in unrolled blocks of eight.
- `CountZeros`, `DeltaCoding`, `DeltaStream`, `DeltaReading`, `Codec`: the binary forms, version 3 (plain) and
  version 4 (compressed), and their parser.
- `Formats`: the two forms byte by byte, truncated and malformed bytes, and the choice between the forms.
- `WrappedIterator`: the iterator that decodes entries while it advances.
- `Handles`, `IntersectionHandles`: the states behind aggregate handles, and whole executions of an aggregate as
  a `Plan` of leaves, merges and shipping between nodes.

`dafny verify dfyconfig.toml` checks everything.

## Main results

- Sampling invariant: in every reachable state of an update sketch the retained hashes are exactly the seen ones
  below theta, and theta is the starting one or a seen hash with at least k below (`UpdateSketch.Valid`, kept by
  every method; `Perform` states it of any run of updates, trims and resets). What a final trim leaves depends on
  the set of hashes alone (`BuildAndTrim`, `PerformAndTrim`).
- A union's result is a function of the set of its inputs (`UnionOfAll`, `UnionIgnoresOrder`), although the table
  behind it depends on order, growth, rebuilds, early stops and two thetas.
- Merge-tree theorem (`Handles.MatchesSequential`): however rows are split, merged and shipped, the final bytes are
  those of the sequential sketch after trim, exactly if the tree ends in a union or its one leaf retains at most 4096
  hashes. `Handles.SameOutcome` says of any two executions over the same content exactly when their bytes agree, and
  `IntersectionHandles.SameOutcome` does so for trees of intersections.
- The bytes of any tree of aggregates decode to what the leaves determine: the sample of all their hashes, if the
  tree ends in a union (`Handles.AggregateUnion`), or what all their sketches share (`IntersectionHandles.Aggregate`).
- The set operations on any inputs, hash by hash: `IntersectionOfAll`, `UnionOfAll`, `Compute`, `ExactlyEqual`; A-not-B
  and intersection divide A (`Divide`).
- The plain form is recovered whatever its unwritten bytes hold; the compressed form is recovered exactly when
  every full block of differences is one that the unrolled routines of its width carry through.

## What the code does not promise

Some properties one would expect fail for the code as it is written. The model keeps the code, shows an input, and
proves the exact condition.

- The unrolled block routines deviate from the common layout in four widths: 13 shifts the wrong way when packing
  one byte (`theta-sketch/bit_packing.hpp:332`), 19 adds to a byte it assumes to be clear (line 564), 33
  sign-extends a byte when unpacking (line 4230), 35 masks away a bit (line 4299). Inputs: `UnsafeBlocks`, and
  `SerializeLost` for a whole sketch. Conditions: `RoundTripOfBlock`, `Width19ReadsBack`, `RoundTrip4`. Width 19 does
  no harm in a cleared buffer, which is how the serializer uses it.
- A state built from rows that nothing merges is serialized without a trim (`extension_impl_handle.cpp:422-423`), so
  an execution in one partition keeps up to 7680 hashes where a merged one keeps 4096. Input: `Handles.LeafKeepsAll`.
  Condition: `MatchesSequential`, `SameOutcome`; for at most 7680 different hashes `TrimmedByCount` reads it off their
  number. Above 7680 the number retained depends on the order of the rows: `LeavesDependOnOrder`.
- When exactly eight entries remain after a block the iterator leaves block mode and the decoder does not, so at
  widths 33 and 35 they can differ. Inputs: `IteratorDisagrees`, `SerializeDisputed`. Conditions:
  `IteratorRefinesDecoder`, `IteratorRoundTrip4`.
- For counts above 2^32 - 8 the iterator's comparison wraps (`theta-sketch/theta_sketch_impl.hpp:877`), so it reads the
  last one to seven fields as a whole block: it can differ from the decoder at width 35 and read past the data. Inputs:
  `IteratorDisagreesAtWrap`, `SerializeOverrun`. Conditions: `IteratorRefinesDecoder`, `IteratorRoundTrip4`.
- The copy constructor keeps a clear ordered flag, so a copy of a lazily read sketch with at most one entry can be
  unordered, and its bytes decode to an ordered one. Input: `CopyLosesFlag`. Condition: `RoundTrip3`.
- An empty sketch whose theta was lowered by sampling is read back with the maximal theta. Input: `EmptyLosesTheta`.
  Condition: `RoundTrip3`.
- Theta and the empty flag of an intersection depend on the order of its inputs. Input: `FlagDependsOnOrder`.
  Conditions: `FoldIs` for the flag, `OrderMatters` for when the order matters, `ArrangementMatters` for trees.
- `exactly_equal` says no for equal sketches of more than 2^26 entries. Input: `UnequalToCopy`. Conditions:
  `ExactlyEqual`, `EqualToCopy`.
- `jaccard` ends the process in its theta check for some pairs of disjoint sketches. Input: `ProcessEnds`. Condition:
  `Jaccard`.
- The parser's size check multiplies in 32 bits, so it may demand fewer bytes than were written. Input:
  `SerializeHuge`. Condition: `ExpectedSizeOf4`.
- The comment that a resize always moves to a larger table does not hold for the scratch table of A-not-B. Input and
  condition: `ScratchTableOutgrown`. `MoveKeys` shows that no key is lost.

## Model

| member | source | states |
|---|---|---|
| `Sizing.LadderStart` | theta-sketch/theta_update_sketch_base_impl.hpp:356-358 | the builder's starting size is at least 2^5 and on the growth ladder: repeated growth by the resize factor reaches the full size 2^(lg_nom+1) exactly |
| `Sizing.LadderLeast` | theta-sketch/theta_helpers.hpp:66-68 | no smaller size that is at least 2^5 is on the ladder |
| `Sizing.StartingThetaIs` | theta-sketch/theta_helpers.hpp:61-64 | the starting theta is the fraction p of the maximal one rounded down, so a hash is below it exactly if its successor is at most that fraction |
| `Sizing.LadderStep` | theta-sketch/theta_update_sketch_base_impl.hpp:215-218 | a table on the ladder below full size has a resize factor above 1, grows by the whole factor without being clipped, and stays on the ladder |
| `Sizing.CapacityIs` | theta-sketch/theta_update_sketch_base_impl.hpp:203-206 | a table takes n keys if and only if they fill at most half of it, or at most 15/16 at full size |
| `Sizing.CapacityLeavesFreeSlot` | theta-sketch/theta_update_sketch_base_impl.hpp:203-206 | the load limit is always below the table size |
| `Sizing.CapacityCoversNominal` | theta-sketch/theta_update_sketch_base_impl.hpp:235-239 | the load limit of a full-size table is at least the nominal size, so a rebuild always starts with more than the nominal number of keys |
| `Sizing.CapacityAfterGrowth` | theta-sketch/theta_update_sketch_base_impl.hpp:183-186 | one key over the limit before a resize is within the limit after it |
| `Sizing.Log2Bounds` | common/common_defs.hpp:60-62 | 2^log2(n) <= n < 2^(log2(n)+1) for every positive n |
| `Sizing.ScratchTableFits` | common/common_defs.hpp:64-66 | a table sized from a count n holds n keys at load 15/16 with a free slot, and the next smaller size does not hold them |
| `Sizing.ScratchTableOutgrown` | theta-sketch/theta_set_difference_base_impl.hpp:57-62 | a scratch table that counts its size as nominal is rehashed into its own size exactly for counts that are no power of two and fit 15/16 of the next one; three is such a count |
| `KMinimumValues.KmvFromCutoff` | theta-sketch/theta_update_sketch_base_impl.hpp:237-259 | a value that exactly k of the seen hashes precede is the theta of the reference sample |
| `KMinimumValues.KmvIs` | theta-sketch/theta_update_sketch_base_impl.hpp:237-259 | the sample is all hashes below the start if there are at most k of them, and otherwise exactly k, with the next seen hash as theta |
| `KMinimumValues.KmvAtThreshold` | theta-sketch/theta_union_base_impl.hpp:58-75 | cutting at any threshold a sketch may have reached gives the same sample as cutting everything seen from the starting theta |
| `KMinimumValues.KmvSaturated` | theta-sketch/theta_update_sketch_base_impl.hpp:237-264 | the sample is itself a reachable state of at most k entries, whose theta is the start or a seen hash with at least k hashes below |
| `KMinimumValues.SaturatedGrows` | theta-sketch/theta_union_base_impl.hpp:44 | seeing more hashes or starting from a lower theta keeps a threshold one that a sketch may have reached |
| `KMinimumValues.MergeStates` | theta-sketch/theta_union_base_impl.hpp:40-81 | two states at any reached thresholds merge into the sample of all that both have seen |
| `KMinimumValues.MergeOfSamples` | theta-sketch/theta_union_base_impl.hpp:40-81 | merging the samples of two sets is the sample of their union at the lower starting theta |
| `KMinimumValues.MergeLaws` | theta-sketch/theta_union_base_impl.hpp:40-81 | on samples of at most k entries merging is commutative, associative and idempotent, and yields such a sample |
| `Sequences.NthElement` | theta-sketch/theta_update_sketch_base_impl.hpp:245 | the stand-in for std::nth_element: a rearrangement split by value at position n |
| `Sequences.SplitIsCutoff` | theta-sketch/theta_update_sketch_base_impl.hpp:245-246 | on distinct hashes the split value has exactly n hashes below it, and they are the front part |
| `Sequences.SortAscending` | theta-sketch/theta_union_base_impl.hpp:79 | sorting distinct hashes keeps their set and makes them strictly ascending |
| `Sequences.KeptElements` | theta-sketch/theta_set_difference_base_impl.hpp:50-51 | filtering keeps exactly the hashes below theta that are not excluded |
| `Sequences.KeepStops` | theta-sketch/theta_set_difference_base_impl.hpp:74-75 | in an ordered input nothing after the first hash at or above theta is kept, so stopping there loses nothing |
| `Sequences.AscendingUnique` | theta-sketch/theta_sketch_impl.hpp:287 | an ordered sketch is determined by its set of hashes |
| `Probing.OddCancels` | theta-sketch/theta_update_sketch_base_impl.hpp:209-212 | an odd stride reaches a multiple of 2^lg only after 2^lg steps |
| `Probing.StartBits` | theta-sketch/theta_update_sketch_base_impl.hpp:163-164 | a search starts at the slot numbered by the low bits of the key |
| `Probing.StrideBits` | theta-sketch/theta_update_sketch_base_impl.hpp:209-212 | the stride is odd, and its other bits are the seven bits of the key above those |
| `Probing.ProbeRepeats` | theta-sketch/theta_update_sketch_base_impl.hpp:163-174 | two visits of the same slot are at least a table size apart |
| `Probing.FullCycle` | theta-sketch/theta_update_sketch_base_impl.hpp:163-174 | the probe sequence of any key visits every slot exactly once |
| `Probing.ProbeReturns` | theta-sketch/theta_update_sketch_base_impl.hpp:165-174 | the sequence is back at its first slot after exactly as many steps as there are slots |
| `Probing.SlotUnique` | theta-sketch/theta_update_sketch_base_impl.hpp:159-176 | a search for a key can stop in one slot only |
| `Probing.StoredOnce` | theta-sketch/theta_update_sketch_base_impl.hpp:159-176 | in a table whose keys are all findable no key is stored twice |
| `Probing.PlaceKey` | theta-sketch/theta_update_sketch_base_impl.hpp:180-182 | storing a key where its search stopped keeps every key findable and adds exactly that key |
| `Probing.FreeSlotExists` | theta-sketch/theta_update_sketch_base_impl.hpp:203-206 | a table with fewer keys than slots has an empty slot |
| `Probing.SearchStops` | theta-sketch/theta_update_sketch_base_impl.hpp:166-175 | while a slot is free every search meets an empty slot within one cycle, so the error after the loop is never reached |
| `UpdateTable.FindIn` | theta-sketch/theta_update_sketch_base_impl.hpp:159-176 | the search returns the slot where it stops; the key is reported found if and only if it is stored |
| `UpdateTable.PlaceIn` | theta-sketch/theta_update_sketch_base_impl.hpp:224-226 | a key is added to a table and all keys stay findable |
| `UpdateTable.FirstEmptySlot` | theta-sketch/theta_update_sketch_base_impl.hpp:291-296 | the first empty slot, before which all entries are occupied |
| `UpdateTable.ConsolidateNonEmpty` | theta-sketch/theta_update_sketch_base_impl.hpp:290-307 | exactly the non-zero entries, in their order, end up in front, and the rest is empty |
| `UpdateTable.NonZeroSuffix` | theta-sketch/theta_update_sketch_base_impl.hpp:304 | once all entries have been moved the rest of the table is empty, so leaving the scan early is safe |
| `UpdateTable.SelectNominal` | theta-sketch/theta_update_sketch_base_impl.hpp:243-246 | the front holds precisely the k smallest keys and the returned value is the next smallest |
| `UpdateTable.HashPrefix` | theta-sketch/theta_update_sketch_base_impl.hpp:249-256 | a fresh table holds exactly the given keys, each findable |
| `UpdateTable.MoveKeys` | theta-sketch/theta_update_sketch_base_impl.hpp:219-229 | rehashing into a table of any size that is large enough, even the same size, keeps exactly the keys |
| `UpdateTable.ClearSlots` | theta-sketch/theta_update_sketch_base_impl.hpp:269-274 | every slot is emptied |
| `UpdateTable.ThetaTable.constructor` | theta-sketch/theta_update_sketch_base_impl.hpp:34-51 | a new table is valid, empty, and has the given sizes, theta, seed and flag |
| `UpdateTable.ThetaTable.Screen` | theta-sketch/theta_update_sketch_base_impl.hpp:147-151 | marks the table as non-empty and turns hashes at or above theta into the reserved zero |
| `UpdateTable.ThetaTable.Find` | theta-sketch/theta_update_sketch_base_impl.hpp:154-156 | found if and only if the key is in the set of stored keys |
| `UpdateTable.ThetaTable.Insert` | theta-sketch/theta_update_sketch_base_impl.hpp:180-190 | adds the key; within the limit nothing else changes, over it a table below full size grows and a full-size one keeps the k smallest keys with theta the next smallest |
| `UpdateTable.ThetaTable.MakeRoom` | theta-sketch/theta_update_sketch_base_impl.hpp:183-188 | growth keeps the keys and theta; rebuilding keeps the k smallest keys and lowers theta to the next one |
| `UpdateTable.ThetaTable.Offer` | theta-sketch/theta_sketch_impl.hpp:205-208 | find then insert: the exact new key set and theta, and the table stays valid, loaded within its limit and on the growth ladder |
| `UpdateTable.ThetaTable.Resize` | theta-sketch/theta_update_sketch_base_impl.hpp:215-233 | the new size, the same set of keys, all findable |
| `UpdateTable.ThetaTable.Rebuild` | theta-sketch/theta_update_sketch_base_impl.hpp:237-259 | exactly the k smallest old keys remain, theta is the (k+1)-th smallest, the table is fresh and valid |
| `UpdateTable.ThetaTable.Retained` | theta-sketch/theta_update_sketch_base_impl.hpp:362-373 | iteration that skips empty slots yields every stored key exactly once |
| `UpdateTable.ThetaTable.NextOccupied` | theta-sketch/theta_update_sketch_base_impl.hpp:363-373 | the next occupied slot, with only empty slots skipped |
| `UpdateTable.ThetaTable.Trim` | theta-sketch/theta_update_sketch_base_impl.hpp:262-264 | cuts to the nominal size if there are more keys, otherwise changes nothing |
| `UpdateTable.ThetaTable.Reset` | theta-sketch/theta_update_sketch_base_impl.hpp:267-287 | empty table at the starting size and theta |
| `UpdateTable.RoomOnLadder` | theta-sketch/theta_update_sketch_base_impl.hpp:183-188 | on the ladder a table that cannot grow is at full size |
| `UpdateTable.LoadAfterInsert` | theta-sketch/theta_update_sketch_base_impl.hpp:180-190 | an insertion leaves the table on the ladder and within its load limit |
| `UpdateTable.OverflowLimit` | theta-sketch/theta_update_sketch_base_impl.hpp:183-188 | a table on its ladder and within its load limit is rebuilt by one more key exactly if that key exceeds 15/16 of the full size, wherever the growth stands |
| `Sketches.MadeValid` | theta-sketch/theta_sketch_impl.hpp:292-299 | the constructor from parts yields a valid sketch when given distinct hashes below theta |
| `Sketches.CopyIsValid` | theta-sketch/theta_sketch_impl.hpp:277-289 | a copy has the same hashes, theta and flags, and is sorted when requested |
| `Sketches.AbsorbKeepsSample` | theta-sketch/theta_sketch_impl.hpp:202-219 | offering one more hash keeps the invariant: retained = seen below theta, and theta is the start or a seen hash with at least k below |
| `Sketches.ScreenedKeepsSample` | theta-sketch/theta_update_sketch_base_impl.hpp:147-151 | a screened-out hash keeps the invariant without a change of the table |
| `Sketches.UpdateSketch.constructor` | theta-sketch/theta_sketch_impl.hpp:269-271 | a built sketch is empty, valid, at its starting size |
| `Sketches.FirstHash` | theta-sketch/theta_helpers.hpp:61-64 | a fresh sketch with sampling fraction p retains its first hash exactly if it is not zero and its successor is at most p times the maximal theta |
| `Sketches.UpdateSketch.Update` | theta-sketch/theta_sketch_impl.hpp:202-219 | the hash joins what was seen, the sampling invariant holds in the new state, theta does not rise, and keys and theta are those of the step function on samples, which no longer knows the table |
| `Sketches.UpdateSketch.Trim` | theta-sketch/theta_sketch_impl.hpp:222-224 | the state becomes the reference sample of everything seen |
| `Sketches.UpdateSketch.Reset` | theta-sketch/theta_sketch_impl.hpp:227-229 | nothing seen, the starting size and theta |
| `Sketches.UpdateSketch.View` | theta-sketch/theta_sketch_impl.hpp:110-128 | what set operations read: a valid sketch of exactly the retained hashes, with the maximal theta when empty |
| `Sketches.UpdateSketch.Compact` | theta-sketch/theta_sketch_impl.hpp:252-289 | the compact form has the same hashes and theta; it is ascending and flagged so if that is asked for or there is at most one hash |
| `Sketches.BuildAndTrim` | theta-sketch/theta_sketch_impl.hpp:202-224 | for any sequence of hashes the trimmed sketch is the reference sample of their set: order, repetition, growth and rebuilds do not matter |
| `Sketches.AllFit` | theta-sketch/theta_sketch_impl.hpp:202-219 | hashes that fit the full table's load limit are all retained and theta stays where it was, in any order and with any repetitions |
| `Sketches.CountDependsOnOrder` | theta-sketch/theta_update_sketch_base_impl.hpp:183-188 | above that limit the number retained without a trim depends on the order: the hashes 1 to 7682 leave 4096 when they rise and 4097 when they fall |
| `Sketches.Perform` | theta-sketch/theta_sketch_impl.hpp:202-229 | after any run of updates, trims and resets: retained = hashes seen since the last reset below theta; theta is the start or a seen hash with at least k below; theta never rises but by a reset |
| `Sketches.SeenIs` | theta-sketch/theta_sketch_impl.hpp:202-229 | after a run a hash counts as seen if and only if it is not zero and was offered by an update that no reset follows |
| `Sketches.EmptyIs` | theta-sketch/theta_sketch_impl.hpp:202-229 | after a run the sketch is empty if and only if a reset follows every update |
| `Sketches.PerformAndTrim` | theta-sketch/theta_sketch_impl.hpp:202-254 | the trimmed sketch after any run is the reference sample of what was seen since the last reset, whatever trims happened in between |
| `Unions.AbsorbKeepsTracking` | theta-sketch/theta_union_base_impl.hpp:47-50 | one processed entry keeps: below min of both thetas the table holds exactly what was seen |
| `Unions.SkipKeepsTracking` | theta-sketch/theta_union_base_impl.hpp:47-55 | an entry at or above the threshold may be skipped |
| `Unions.StopKeepsTracking` | theta-sketch/theta_union_base_impl.hpp:54-56 | in an ordered input the rest may be skipped at the first such entry |
| `Unions.InputKeepsTracking` | theta-sketch/theta_union_base_impl.hpp:43-44 | a new input enlarges what must be tracked and lowers the threshold |
| `Unions.Union.constructor` | theta-sketch/theta_union_base_impl.hpp:31-36 | a new union has seen nothing |
| `Unions.Union.Update` | theta-sketch/theta_union_base_impl.hpp:40-59 | all entries of a non-empty input join what the union tracks, at the lower theta; an empty or rejected input changes nothing; the error exactly on a seed mismatch |
| `Unions.Union.Scan` | theta-sketch/theta_union_base_impl.hpp:45-57 | after the loop, with or without early stop, the invariant covers all entries of the input |
| `Unions.Union.GetResult` | theta-sketch/theta_union_base_impl.hpp:62-81 | the result is the reference sample of all tracked entries at the lowest theta, in both filter branches |
| `Unions.Union.Collect` | theta-sketch/theta_union_base_impl.hpp:65-72 | the collected entries are exactly the tracked ones below the effective theta |
| `Unions.CutToNominal` | theta-sketch/theta_union_base_impl.hpp:73-78 | selecting k and cutting theta gives the reference sample |
| `Unions.Union.Reset` | theta-sketch/theta_union_base_impl.hpp:89-92 | back to having seen nothing |
| `Unions.AllEntriesIs` | theta-sketch/theta_union_base_impl.hpp:45-57 | a hash is among all entries if and only if some input retains it |
| `Unions.LowestOfIs` | theta-sketch/theta_union_base_impl.hpp:44 | the lowest theta is the greatest lower bound of the start and the non-empty inputs' thetas |
| `Unions.UnionIgnoresOrder` | theta-sketch/theta_union_base_impl.hpp:40-81 | all entries and the lowest theta depend only on the set of inputs, not on order or repetition |
| `Unions.UnionOfAll` | theta-sketch/theta_union_base_impl.hpp:40-81 | for any inputs, ordered or not, the result is the sample of capacity 2^lg_k of all entries from the lowest theta; empty if and only if all inputs are; rejected exactly on a seed mismatch |
| `Intersections.CommonIsInEvery` | theta-sketch/theta_intersection_base_impl.hpp:61-97 | the common set is what every input retains |
| `Intersections.LowestThetaBounds` | theta-sketch/theta_intersection_base_impl.hpp:42 | the lowest theta is at most every input's |
| `Intersections.LowestThetaAttained` | theta-sketch/theta_intersection_base_impl.hpp:42 | the lowest theta is the maximal one or some input's |
| `Intersections.CommonBelowLowest` | theta-sketch/theta_intersection_base_impl.hpp:68 | every common hash is below every input's theta, so theta screening loses none |
| `Intersections.FoldIs` | theta-sketch/theta_intersection_base_impl.hpp:38-110 | the state after any updates in closed form: flagged empty with the maximal theta exactly when an input is empty or the first few are exact, retain something and share nothing; otherwise the common hashes and the lowest theta |
| `Intersections.FlagIs` | theta-sketch/theta_intersection_base_impl.hpp:38-110 | the flag in terms of hashes: an input is empty, or the first few all have the maximal theta, all retain something, and no hash is in all of them |
| `Intersections.KeysIgnoreOrder` | theta-sketch/theta_intersection_base_impl.hpp:38-110 | the keys do not depend on order or repetition of inputs, and the whole states are equal if and only if both lists raise the flag or neither does |
| `Intersections.FlagDependsOnOrder` | theta-sketch/theta_intersection_base_impl.hpp:86-88 | three valid sketches whose intersection has a different theta and empty flag in another order |
| `Intersections.OrderMatters` | theta-sketch/theta_intersection_base_impl.hpp:38-110 | every rearrangement of the inputs gives one state if and only if one is empty, or all share something, or there are no exact ones, or those share something, or there are no others |
| `Intersections.TableOf` | theta-sketch/theta_intersection_base_impl.hpp:51-59 | a table sized from the count takes all entries without a resize that loses one, a rebuild or a change of theta; the duplicate-key error is unreachable for valid sketches |
| `Intersections.Intersection.constructor` | theta-sketch/theta_intersection_base_impl.hpp:30-34 | a new intersection is the universe |
| `Intersections.Intersection.Update` | theta-sketch/theta_intersection_base_impl.hpp:38-98 | one update is one step of the abstract state machine; rejected exactly on a seed mismatch before the result is empty |
| `Intersections.Intersection.Combine` | theta-sketch/theta_intersection_base_impl.hpp:44-97 | the three ways of replacing the table: nothing retained, first input, intersection |
| `Intersections.Intersection.Replace` | theta-sketch/theta_intersection_base_impl.hpp:86-96 | the new table holds the matches; with none the flag is set exactly when theta is maximal |
| `Intersections.Intersection.Match` | theta-sketch/theta_intersection_base_impl.hpp:62-85 | the matches are the table's keys among the input's entries below theta, early stop included; the corruption errors are unreachable for valid sketches |
| `Intersections.Intersection.GetResult` | theta-sketch/theta_intersection_base_impl.hpp:101-110 | the result shows exactly the abstract state; the error exactly before the first update |
| `Intersections.IntersectionOfAll` | theta-sketch/theta_intersection_base_impl.hpp:38-120 | for any inputs in any order: the result retains exactly the hashes in every input, with the flag and otherwise the lowest theta; it fails exactly without inputs, or on a seed mismatch of a non-empty input before the flag is raised |
| `SetDifferences.SortedDifference` | theta-sketch/theta_set_difference_base_impl.hpp:53-55 | the merge of two ordered ranges keeps the hashes of A below theta that are not in B, in order |
| `SetDifferences.ScratchTable` | theta-sketch/theta_set_difference_base_impl.hpp:57-67 | the scratch table holds exactly the entries of B below theta although it may be rehashed into its own size |
| `SetDifferences.HashedDifference` | theta-sketch/theta_set_difference_base_impl.hpp:56-78 | scanning A against the table keeps the same hashes in the same order as the sorted path |
| `SetDifferences.Compute` | theta-sketch/theta_set_difference_base_impl.hpp:40-83 | A is copied exactly if it is empty, or B is and A retains something; otherwise every path yields precisely the hashes of A below both thetas that B does not retain, with the lower theta and the flags; rejected exactly on a seed mismatch when A is not copied |
| `SetDifferences.Divide` | theta-sketch/theta_set_difference_base_impl.hpp:40-83 | run on the same sketches, A-not-B and intersection give disjoint results that together are A below the common theta, which both carry |
| `SetDifferences.Conservation` | theta-sketch/theta_set_difference_base_impl.hpp:45-82 | A-not-B and the intersection have the same theta, are disjoint, and together are all of A below it |
| `JaccardSimilarity.CeilingPowerOf2` | common/ceiling_power_of_2.hpp:29-37 | the bit-smearing code computes the power of two from n to below 2n, and zero for zero and above 2^31 |
| `JaccardSimilarity.Smear` | common/ceiling_power_of_2.hpp:31-35 | each smearing step doubles the run of ones below the top bit |
| `JaccardSimilarity.SmearedIsOnes` | common/ceiling_power_of_2.hpp:31-36 | a fully smeared number is one below a power of two |
| `JaccardSimilarity.UnionLgKCovers` | theta-sketch/theta_jaccard_similarity_base.hpp:139-141 | up to counts of 2^31 in total the sizing union holds all entries, or has the maximal size 2^26 |
| `JaccardSimilarity.UnionLgKIs` | theta-sketch/theta_jaccard_similarity_base.hpp:139-141 | the sizing union has the least size from 2^5 to 2^26 that holds the 32-bit sum of the counts, and the smallest where the sum is zero or above 2^31 |
| `JaccardSimilarity.ComputeUnion` | theta-sketch/theta_jaccard_similarity_base.hpp:138-146 | the union is the reference sample of both sketches at that size; rejected exactly on a seed mismatch |
| `JaccardSimilarity.IdenticalMeansEqual` | theta-sketch/theta_jaccard_similarity_base.hpp:149-155 | comparing two counts and two thetas with the union decides equality of theta and entries, if and only if the union is large enough |
| `JaccardSimilarity.ExactlyEqual` | theta-sketch/theta_jaccard_similarity_base.hpp:85-93 | true if and only if the arguments are one object, or both empty, or neither is and they have the same theta and the same hashes, at most 2^26 of them; the error exactly on a seed mismatch |
| `JaccardSimilarity.EqualityLimit` | theta-sketch/theta_jaccard_similarity_base.hpp:138-155 | the sizing union is large enough for two equal counts exactly up to 2^26 entries each |
| `JaccardSimilarity.EqualToCopy` | theta-sketch/theta_jaccard_similarity_base.hpp:85-93 | a sketch counts as equal to a copy of itself exactly up to 2^26 entries |
| `JaccardSimilarity.UnequalToCopy` | theta-sketch/theta_jaccard_similarity_base.hpp:85-93 | a sketch of 2^26 + 1 hashes does not count as equal to its copy |
| `JaccardSimilarity.Jaccard` | theta-sketch/theta_jaccard_similarity_base.hpp:55-75 | which constant is returned when; up to 2^26 entries in total the ratio of the counts of shared and of all hashes below the common theta; the theta check ends the process exactly for two disjoint exact sketches, both with entries, with more than that |
| `JaccardSimilarity.Compare` | theta-sketch/theta_jaccard_similarity_base.hpp:61-74 | with the union given, the comparison and the three intersections yield that similarity |
| `JaccardSimilarity.ProcessEnds` | theta-sketch/bounds_on_ratios_in_theta_sketched_sets.hpp:119-124 | two disjoint sketches of 2^26 hashes each whose similarity is rejected |
| `JaccardSimilarity.IntersectThree` | theta-sketch/theta_jaccard_similarity_base.hpp:64-68 | three updates and the result show the folded state |
| `JaccardSimilarity.SharedOfUnion` | theta-sketch/theta_jaccard_similarity_base.hpp:63-68 | the intersection of A, B and their union has the shared hashes below the union's theta, and a higher theta than the union exactly in the rejected case |
| `JaccardSimilarity.CutExactly` | theta-sketch/theta_jaccard_similarity_base.hpp:138-146 | the union is cut if and only if more hashes lie below the common theta than its size |
| `JaccardSimilarity.JaccardExact` | theta-sketch/bounds_on_ratios_in_theta_sketched_sets.hpp:103-115 | as long as the union is not cut, and always up to 2^26 entries in total, the counts are those of A * B and A + B below the lower theta |
| `JaccardSimilarity.BeyondLimit` | theta-sketch/theta_jaccard_similarity_base.hpp:61-74 | when the union is cut, the hashes are counted below the one that exactly as many hashes precede as the union holds, unless the process ends |
| `BitPacking.FieldUnique` | theta-sketch/bit_packing.hpp:49-68 | a number below 2^n that has the stream's n bits at a position is the field there |
| `BitPacking.PackBits` | theta-sketch/bit_packing.hpp:27-47 | writes the field at the bit position, most significant bit first, leaves everything before it alone and the rest of its last byte clear, and returns the position after it |
| `BitPacking.UnpackBits` | theta-sketch/bit_packing.hpp:49-68 | returns the number whose digits are the stream bits at the position, and the position after it |
| `BlockPacking.BlockByteBits` | theta-sketch/bit_packing.hpp:75-84 | the bits of a byte made of shifted fields are those of the concatenated fields |
| `BlockPacking.PackBlock8` | theta-sketch/bit_packing.hpp:6139-6206 | the bytes of a block for each of the 63 widths, with width 13 and width 19 as written, and no other byte changed |
| `BlockPacking.GatherIsField` | theta-sketch/bit_packing.hpp:6208-6275 | shifting and combining the bytes that overlap a field yields the field of the bit stream |
| `BlockPacking.UnpackedIsDecoded` | theta-sketch/bit_packing.hpp:4229-4300 | every unrolled field is the field of the stream, except for the sign extension of width 33 and the mask of width 35, as written |
| `BlockPacking.MaskedField` | theta-sketch/bit_packing.hpp:4299-4300 | what the mask of width 35 does to its field: bit 33 is lost |
| `BlockPacking.UnpackBlock8` | theta-sketch/bit_packing.hpp:6208-6275 | the eight values of a block for each width, in terms of the fields of the bit stream |
| `BlockRoundTrip.BlockStream` | theta-sketch/bit_packing.hpp:332-333 | the bit stream of a packed block is the concatenation of its fields, but for byte 6 of width 13 |
| `BlockRoundTrip.StoredField` | theta-sketch/bit_packing.hpp:6139-6206 | each field of a packed block holds its value, or for width 13 the spoilt value |
| `BlockRoundTrip.DecodedExact` | theta-sketch/bit_packing.hpp:4230-4299 | unpacking is exact but for bit 31 of field 7 at width 33 and bit 33 of field 2 at width 35 |
| `BlockRoundTrip.DecodedBits` | theta-sketch/bit_packing.hpp:4229-4299 | unpacking changes no bit but two: width 33 sets bits 32 to 63 of field 7 if its bit 31 is set, width 35 clears bit 33 of field 2 |
| `BlockRoundTrip.Stored13Exact` | theta-sketch/bit_packing.hpp:332 | packing at width 13 is exact if and only if eight conditions on the bits of fields 3 and 4 hold |
| `BlockRoundTrip.StoredExact` | theta-sketch/bit_packing.hpp:332 | packing alone keeps every value of a block if and only if width 13 does not spoil it |
| `BlockRoundTrip.RoundTripOfBlock` | theta-sketch/bit_packing.hpp:6139-6275 | a block comes back from packing and unpacking if and only if it is safe for its width |
| `BlockRoundTrip.UnsafeBlocks` | theta-sketch/bit_packing.hpp:332-333 | for each of the widths 13, 33 and 35 a block that does not come back, and for width 19 a byte that packing does not overwrite |
| `ChainedPacking.PackChain` | theta-sketch/bit_packing.hpp:27-47 | chained packing writes the concatenation of the fields, with pointer and offset the total bits divided by 8 and the remainder |
| `ChainedPacking.UnpackChain` | theta-sketch/bit_packing.hpp:49-68 | chained unpacking reads the consecutive fields and ends at the matching position |
| `ChainedPacking.ChainRoundTrip` | theta-sketch/bit_packing.hpp:27-68 | chained unpacking inverts chained packing |
| `ChainedPacking.FieldConcatenated` | theta-sketch/bit_packing.hpp:27-47 | packing one more field extends the concatenation by it |
| `ChainedPacking.BlockIsChain` | theta-sketch/bit_packing.hpp:6139-6206 | a block leaves the same bytes as a chain of its eight fields if and only if width 13 does not spoil them and at width 19 the byte added to held no bits beyond those of the block |
| `ChainedPacking.Width19ReadsBack` | theta-sketch/bit_packing.hpp:564 | at width 19 all fields are read back if and only if the byte added to held no bits beyond those of the block |
| `CountZeros.ByteLeadingZeros` | common/count_zeros.hpp:27-44 | the table entry z satisfies 2^(7-z) <= b < 2^(8-z), and is 8 for zero |
| `CountZeros.LeadingZeros` | common/count_zeros.hpp:73-101 | the count z satisfies 2^(width-1-z) <= x < 2^(width-z), and is the width for zero |
| `DeltaCoding.ComputeMinLeadingZeros` | theta-sketch/theta_sketch_impl.hpp:464-475 | 64 less the count is the least width that fits every difference of consecutive hashes |
| `DeltaCoding.OrOfDeltasBelow` | theta-sketch/theta_sketch_impl.hpp:467-473 | the OR of the differences fits a width if and only if all of them do |
| `DeltaStream.NextDeltas` | theta-sketch/theta_sketch_impl.hpp:573-576 | the differences of eight consecutive hashes |
| `DeltaStream.PackEntries` | theta-sketch/theta_sketch_impl.hpp:567-587 | every difference is stored in its field, blocks and tail alike, each as its routine stores it |
| `DeltaStream.PackTail` | theta-sketch/theta_sketch_impl.hpp:581-587 | the differences that do not fill a block are stored after the blocks |
| `DeltaStream.BlockStored` | theta-sketch/theta_sketch_impl.hpp:572-579 | packing a block adds eight fields and damages none of the earlier ones |
| `DeltaReading.UnpackEntries` | theta-sketch/theta_sketch_impl.hpp:747-765 | the entries are the 64-bit running sums of the decoded differences |
| `DeltaReading.UnpackDeltas` | theta-sketch/theta_sketch_impl.hpp:749-759 | every field is decoded by the routine that the decoder uses for it |
| `DeltaReading.UndoDeltas` | theta-sketch/theta_sketch_impl.hpp:760-765 | in place, each difference becomes the running sum |
| `DeltaReading.SumsOfDeltas` | theta-sketch/theta_sketch_impl.hpp:573-576 | the running sums of the differences of hashes are the hashes |
| `DeltaReading.SumsDetermineDeltas` | theta-sketch/theta_sketch_impl.hpp:762-765 | wrapping running sums are equal only if the differences are |
| `DeltaReading.BlockReadBack` | theta-sketch/theta_sketch_impl.hpp:749-754 | a block of differences is read back if and only if it is safe for its width |
| `DeltaReading.DeltasRoundTrip` | theta-sketch/theta_sketch_impl.hpp:567-765 | the decoder reads back the packed differences if and only if every full block is safe |
| `Codec.ReadWritten` | theta-sketch/compact_theta_sketch_parser_impl.hpp:55-59 | little-endian numbers that fit their bytes are read back |
| `Codec.EntriesReadWritten` | theta-sketch/theta_sketch_impl.hpp:437 | entries written as 64-bit words are read back |
| `Codec.FlagBits` | theta-sketch/theta_sketch_impl.hpp:424-429 | of the flags byte exactly read-only and compact are always set, and empty and ordered as the flags are |
| `Codec.ParseOf3` | theta-sketch/compact_theta_sketch_parser_impl.hpp:68-91 | parsing a plain form of any sketch gives its header with the ordered flag set for a single exact entry, that of an empty sketch, or the seed mismatch, whatever the unwritten bytes hold |
| `Codec.Entries3` | theta-sketch/theta_sketch_impl.hpp:437 | the entries are where the parser looks for them |
| `Codec.Deserialize` | theta-sketch/theta_sketch_impl.hpp:740-768 | deserialization of any bytes, both versions and all errors, against the decoding function |
| `Codec.RoundTrip3` | theta-sketch/theta_sketch_impl.hpp:407-440 | whatever the unwritten header bytes hold, a plain form decodes to the sketch if and only if one of at most one entry is flagged ordered, an empty one has no entries and the maximal theta, and any other has the expected seed hash |
| `Codec.EmptyLosesTheta` | theta-sketch/compact_theta_sketch_parser_impl.hpp:71-73 | an empty sketch with a lowered theta is not recovered |
| `Codec.CopyLosesFlag` | theta-sketch/theta_sketch_impl.hpp:277-299 | a sketch of one entry read lazily from bytes without the ordered flag keeps the flag clear in a copy, and the copy's bytes decode to a sketch with the flag set |
| `Codec.CountFits` | theta-sketch/theta_sketch_impl.hpp:539 | the count fits the bytes computed for it, and no fewer |
| `Codec.SerializeVersion4` | theta-sketch/theta_sketch_impl.hpp:533-589 | the bytes are a version 4 form: exact header, exact size, the least number of count bytes, every difference stored at the least width that fits |
| `Codec.ExpectedSizeOf4` | theta-sketch/compact_theta_sketch_parser_impl.hpp:61-64 | the parser never demands more than was written, and exactly as much if and only if the bit count fits 32 bits |
| `Codec.CountOf4` | theta-sketch/compact_theta_sketch_parser_impl.hpp:52-61 | the parser finds the count, the width and the start of the data where they were written |
| `Codec.SerializeHuge` | theta-sketch/compact_theta_sketch_parser_impl.hpp:62-64 | serializing 2^27 hashes of width 63 writes more bytes than the parser demands |
| `Codec.ParseOf4` | theta-sketch/compact_theta_sketch_parser_impl.hpp:42-67 | parsing a version 4 form gives the sketch's theta, count, width and data position; a seed mismatch is rejected |
| `Codec.RoundTrip4` | theta-sketch/theta_sketch_impl.hpp:533-589 | a version 4 form decodes to the sketch if and only if the seed hash is the expected one and every full block is safe for its width |
| `Codec.CompressionLosesSketch` | theta-sketch/bit_packing.hpp:4229-4230 | a valid sketch of eight hashes that no version 4 form gives back |
| `Codec.SerializeLost` | theta-sketch/theta_sketch_impl.hpp:533-589 | serializing that sketch and decoding the bytes does not give it back |
| `Formats.WrittenBits` | theta-sketch/compact_theta_sketch_parser_impl.hpp:55-59 | byte k of a number holds its bits from 8k on |
| `Formats.EntriesWrittenRead` | theta-sketch/theta_sketch_impl.hpp:437 | writing what was read gives back the bytes read |
| `Formats.Layout3` | theta-sketch/theta_sketch_impl.hpp:407-440 | the plain form byte by byte: 24 bytes before the entries in estimation mode, 8 for an empty sketch or a single exact hash, 16 otherwise; flags, seed hash, count, theta and each entry at its place |
| `Formats.Truncated3` | theta-sketch/compact_theta_sketch_parser_impl.hpp:68-91 | every proper prefix of the plain form of a non-empty sketch is too short |
| `Formats.WrittenBack3` | theta-sketch/compact_theta_sketch_parser_impl.hpp:68-91 | any version 3 bytes that decode to a sketch start with its plain form, if preamble and flags are those written for it |
| `Formats.Layout4` | theta-sketch/theta_sketch_impl.hpp:533-566 | the header of the compressed form byte by byte, its least number of count bytes, and its exact size |
| `Formats.Truncated4` | theta-sketch/compact_theta_sketch_parser_impl.hpp:42-67 | a prefix of a compressed form parses like the whole exactly from the demanded size on, and is too short below |
| `Formats.ParseErrors` | theta-sketch/compact_theta_sketch_parser_impl.hpp:36-75 | which bytes are rejected for their type, their version or their seed hash |
| `Formats.TrailingBytes` | theta-sketch/compact_theta_sketch_parser_impl.hpp:42-91 | bytes after a form that parses change nothing |
| `Formats.PreamblesAlike` | theta-sketch/compact_theta_sketch_parser_impl.hpp:42-91 | of the preamble size the parser uses only whether it is 1 and whether it is above 2, in version 4 whether it is above 1 |
| `Formats.SerializeCompressed` | theta-sketch/theta_sketch_impl.hpp:445-461 | which sketches are compressed, and for each choice exactly when the bytes decode to the sketch |
| `WrappedIterator.ConstIterator.constructor` | theta-sketch/theta_sketch_impl.hpp:836-863 | the iterator starts at entry 0, in block mode or not |
| `WrappedIterator.ConstIterator.ReadBlock` | theta-sketch/theta_sketch_impl.hpp:878-883 | a block is unpacked and summed into the buffer, and its entries that exist are the announced ones |
| `WrappedIterator.ConstIterator.AddUp` | theta-sketch/theta_sketch_impl.hpp:880-883 | the buffer holds the running sums of the block, and the last sum is carried on |
| `WrappedIterator.ConstIterator.ReadOne` | theta-sketch/theta_sketch_impl.hpp:886-888 | one field is unpacked and summed |
| `WrappedIterator.ConstIterator.Current` | theta-sketch/theta_sketch_impl.hpp:920-923 | dereferencing gives the entry of the current index |
| `WrappedIterator.ConstIterator.Next` | theta-sketch/theta_sketch_impl.hpp:866-898 | advancing moves to the next index in every mode, including leaving block mode with exactly eight entries left, and staying in it where adding 8 to the index wraps in 32 bits |
| `WrappedIterator.ConstIterator.AtEnd` | theta-sketch/theta_sketch_impl.hpp:908-911 | the comparison with the end iterator |
| `WrappedIterator.Iterate` | theta-sketch/theta_sketch_impl.hpp:812-820 | a whole iteration yields the announced number of entries, index by index |
| `WrappedIterator.DeltasAgree` | theta-sketch/theta_sketch_impl.hpp:877-889 | iterator and decoder read the same differences if and only if no block that only one of them unpacks as a block raises a deviation, for every 32-bit count |
| `WrappedIterator.IteratorRefinesDecoder` | theta-sketch/theta_sketch_impl.hpp:836-898 | where the iterator stays within the bytes, it yields what deserialization decodes if and only if that condition on the last entries holds, for every 32-bit count and every width |
| `WrappedIterator.IteratorDisagrees` | theta-sketch/theta_sketch_impl.hpp:877-889 | on parsed bytes with sixteen fields of width 33, the last with bit 31 set, iterator and decoder differ |
| `WrappedIterator.IteratorDisagreesAtWrap` | theta-sketch/theta_sketch_impl.hpp:877-889 | with 2^32 - 5 fields of width 35 and bit 33 of field 2^32 - 6 set, iterator and decoder differ: the comparison wraps and the last three fields are read as a block |
| `WrappedIterator.IteratorYieldsEntries` | theta-sketch/theta_sketch_impl.hpp:740-768 | over bytes that decode to a sketch the iterator reads past the end only for counts above 2^32 - 8, and otherwise yields that sketch's entries exactly under the same condition, always for plain forms |
| `WrappedIterator.IteratorRoundTrip4` | theta-sketch/theta_sketch_impl.hpp:836-898 | over a version 4 form the iterator stays within the bytes if and only if the count is at most 2^32 - 8 or the bits it reads too many fit the last byte; then it yields the sketch's entries if and only if every difference comes back the way it is read, whether or not the decoder recovers the sketch |
| `WrappedIterator.IteratorDeltasRoundTrip` | theta-sketch/theta_sketch_impl.hpp:836-898 | the iterator reads the packed differences back under the same condition |
| `WrappedIterator.SerializeDisputed` | theta-sketch/theta_sketch_impl.hpp:877-889 | serializing sixteen hashes gives bytes from which the iterator yields the sketch and the decoder does not |
| `WrappedIterator.SerializeOverrun` | theta-sketch/theta_sketch_impl.hpp:877-889 | serializing the 2^32 - 5 hashes from 2 on gives bytes that deserialization reads back and the iterator reads past |
| `Handles.Init` | extension_impl_handle.cpp:212-215 | the initial state owns nothing and holds the empty content, from which every aggregate starts |
| `Handles.BuildAccum` | extension_impl_handle.cpp:218-266 | a row joins the content of the state, which is created if there is none, and takes its sketch one step on |
| `Handles.BuildAccumByHashEmptyIsNull` | extension_impl_handle.cpp:269-278 | a zero hash leaves the state alone, any other joins it |
| `Handles.Wrap` | theta-sketch/theta_sketch_impl.hpp:778-780 | a serialized sketch reads as exactly one view, or fails to parse |
| `Handles.JoinKeepsSample` | theta-sketch/theta_union_base_impl.hpp:40-81 | contents with one sample keep having one sample when joined with more |
| `Handles.UnionAccum` | extension_impl_handle.cpp:281-299 | the sketch read from the bytes joins the content; an error exactly if the bytes do not read or the seed of a non-empty sketch differs |
| `Handles.GetResult` | extension_impl_handle.cpp:121-134 | the sketch behind any state stands for its content; a union gives the canonical one |
| `Handles.UnionMerge` | extension_impl_handle.cpp:353-378 | the merged state holds the joined contents; no handle is the identity, and both absent gives none |
| `Handles.Serialize` | extension_impl_handle.cpp:409-431 | the bytes are the plain form of a sketch that stands for the content; empty exactly without a handle |
| `Handles.DeserializeState` | extension_impl_handle.cpp:434-450 | no bytes give no handle, others an immutable sketch or the parser's error |
| `Handles.ShippingKeepsSketch` | extension_impl_handle.cpp:409-450 | a serialized state deserializes to the same sketch |
| `Handles.SerializedReads` | extension_impl_handle.cpp:136-145 | a serialized state read lazily by a union is the same sketch and contributes the same sample |
| `Handles.CompressedReads` | extension_impl_handle.cpp:136-145 | a version 4 form is read lazily as the sketch itself if and only if the iterator stays within it and every difference comes back the way the iterator reads it |
| `Handles.RunShip` | extension_impl_handle.cpp:409-450 | shipping a state keeps its content and the sample it yields |
| `Handles.Run` | extension_impl_handle.cpp:212-450 | for every split into leaves, every merge tree and every placement of shipping, the state holds the content of all leaves together, yields the sample of the plan's result, and there is no handle exactly without inputs |
| `Handles.Aggregate` | extension_impl_handle.cpp:212-450 | the final bytes serialize an ordered sketch that stands for all leaves' content; its hashes and theta are the content's sample if the tree ends in a union, and otherwise those of the untrimmed table of the one leaf |
| `Handles.AggregateUnion` | extension_impl_handle.cpp:212-450 | the bytes of any tree that ends in a union decode to the ordered sample of capacity 4096 of all non-zero row hashes and all retained hashes of the sketches, from their lowest theta |
| `Handles.SampleWhenTrimmed` | extension_impl_handle.cpp:353-378 | a sketch that stands for a content is its sample if and only if it has at most k entries |
| `Handles.SameBytes` | extension_impl_handle.cpp:353-378 | two ordered sketches for one content have the same bytes if and only if they hold one sample |
| `Handles.ResultWhenTrimmed` | extension_impl_handle.cpp:158-164 | the result of an execution is the sample of its content if and only if it ends in a union or its one leaf retains at most 4096 hashes |
| `Handles.TrimmedByCount` | extension_impl_handle.cpp:422-423 | for at most 7680 different row hashes that means: it ends in a union or there are at most 4096 |
| `Handles.SameOutcome` | extension_impl_handle.cpp:353-450 | two executions of any shapes over the same content give the same bytes if and only if both or neither has an input at all and both are trimmed, or neither is and both untrimmed tables hold the same |
| `Handles.PlanContent` | extension_impl_handle.cpp:212-450 | the content of any plan is that of all its rows together with all its serialized sketches, whatever its shape |
| `Handles.ContentIs` | extension_impl_handle.cpp:212-450 | the content hash by hash: the non-zero row hashes and what the serialized sketches retain, with the lowest theta of the non-empty ones |
| `Handles.SameInputsSameContent` | extension_impl_handle.cpp:212-450 | it depends only on the set of row hashes and the set of serialized sketches |
| `Handles.RowsPlan` | extension_impl_handle.cpp:218-236 | for plans without serialized sketches, the content is that of the concatenated rows |
| `Handles.MatchesSequential` | extension_impl_handle.cpp:353-450 | the merge-tree theorem: for every split, merge tree and shipping of rows, the bytes are those of the sequential sketch of all rows after trim if and only if the execution ends in a union or its one leaf retains at most 4096 hashes; there are none if there are no rows |
| `Handles.LeafKeepsAll` | extension_impl_handle.cpp:422-423 | one leaf of 4097 rows that nothing merges does not give the bytes of the sequential sketch after trim |
| `Handles.LeavesDependOnOrder` | extension_impl_handle.cpp:422-423 | two leaves of the same 7682 rows in rising and in falling order, of which only the first is trimmed |
| `IntersectionHandles.StepMeets` | theta-sketch/theta_intersection_base_impl.hpp:38-98 | intersecting a state with a result meets the contents: common keys, lower theta, and the flag |
| `IntersectionHandles.IntersectionAccum` | extension_impl_handle.cpp:317-335 | the sketch read from the bytes is met with the content of the state; rejected exactly if the bytes do not read, or on a seed mismatch of a non-empty sketch while the result is not yet empty |
| `IntersectionHandles.GetResult` | extension_impl_handle.cpp:121-134 | the sketch behind a state agrees with its content |
| `IntersectionHandles.IntersectionMerge` | extension_impl_handle.cpp:381-406 | the merged state holds what both share; no handle is the identity |
| `IntersectionHandles.Serialize` | extension_impl_handle.cpp:409-431 | the bytes are the plain form of a sketch that agrees with the content; empty exactly without a handle |
| `IntersectionHandles.ShipState` | extension_impl_handle.cpp:409-450 | shipping keeps the content |
| `IntersectionHandles.NextMeets` | extension_impl_handle.cpp:317-335 | one more sketch meets the outcome of those before it, flag included |
| `IntersectionHandles.MergeMeets` | extension_impl_handle.cpp:381-406 | the outcome of a merge is the two outcomes met, flag included |
| `IntersectionHandles.ArrangementFree` | extension_impl_handle.cpp:381-406 | where the order of the sketches does not matter the arrangement does not either |
| `IntersectionHandles.ArrangementMatters` | extension_impl_handle.cpp:381-406 | every rearrangement of the sketches into a tree raises one flag if and only if their order does not matter; otherwise taking the exact ones first and last differ |
| `IntersectionHandles.Run` | extension_impl_handle.cpp:317-450 | for every tree of intersections and shipping, the state holds what all accumulated sketches share, the lowest theta, and the flag exactly when some leaf raises it in its own order or a merge brings together exact sketches that share nothing |
| `IntersectionHandles.Aggregate` | extension_impl_handle.cpp:317-450 | the final bytes decode to the ordered sketch of the hashes that every sketch of the leaves retains, with the flag of the tree and otherwise the lowest theta; there are none exactly without sketches |
| `IntersectionHandles.SharedBytes` | extension_impl_handle.cpp:409-431 | two results with the same keys and theta have the same bytes if and only if they are flagged alike |
| `IntersectionHandles.SameOutcome` | extension_impl_handle.cpp:381-450 | two executions over the same sketches, in any trees and order, give the same bytes if and only if they raise the same flag |

## Left out

- MurmurHash and the seed hash: hashes and seed hashes are inputs; a row is the hash of its value.
- Empty strings and null inputs of the accumulating callbacks: they return the handle unchanged before anything modelled here.
- Error bounds and estimates as floating-point numbers: the Jaccard estimate is the ratio of its two counts.
- `p` as a float: it is a real number, and the starting theta is the exact floor of the product.
- Machine widths of the table's counts and sizes: sizes are exact integers, so shifts beyond 31 bits are not modelled; 32-bit sums and products are modelled where the code wraps (`CeilingPowerOf2`, `UnionLgK`, `ExpectedSize4`, `ConstIterator.Next`).
- `size_t` on the 32-bit WebAssembly build: the serializer's product of width and count (theta-sketch/theta_sketch_impl.hpp:536) is exact here, as on a 64-bit machine; on 32 bits it wraps from 2^32 bits on, and `SerializeHuge` does not apply.
- The stream serializers, which also lose a last partial byte, and the vector form of version 3 with a caller's header: the byte forms the callbacks use are modelled.
- Legacy versions 1 and 2 of the format: the parser model rejects them as unsupported.
- Reads past the end on malformed input: a version 3 header cut off before its count, a version 4 count of more than four bytes, a width outside 1 to 63, data shorter than its real size after the 32-bit size check, and a wrapped iterator block past the data are errors here.
- `std::sort` and `std::nth_element`: represented by functions with their contracts; `NthElement` sorts.
- The 126 unrolled block routines one by one: a loop over the common layout with the four deviations stands for them.
- Old slot arrays after a resize or rebuild: the source clears and frees them, here they are dropped.
- Vectors of results: sequences, so reserving, moving and shrinking are not modelled.
- Payload policies, allocators, copy and move of sketches: no effect on the sets of hashes.
- Handles used with callbacks of another kind, for instance merging an intersection into a union: the aggregates do not do it.
- `similarity_test`, `dissimilarity_test` and the bounds they compare: they need the floating-point bounds.
- String output, hex dumps, memory allocation and the interface to the host: plumbing.
