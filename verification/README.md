# BarrierPoint: a verified model

BarrierPoint (https://github.com/ARM-software/BarrierPoint) splits an OpenMP program at its
synchronization points, fingerprints every region by the basic blocks it executes and by the
LRU stack distances of its memory references, and picks a few weighted regions that stand for the
whole run. This project models the parts of it that carry the arithmetic and the invariants, and
proves what they promise.

- `StackDistance.dfy` is the plain definition of the stack distance on an access trace and of the
  most-recent-first order of a trace; `SkipLayout.dfy` is the layout of the skip list.
- `ReuseDistanceImpl.dfy` and `ReuseDistance.dfy` are the engine on heap nodes: a doubly linked
  list with a skip list, a gate and time stamps, behind a map from tags to nodes. `Valid()` of the
  list says that `prev` and `next` are inverse along the ghost sequence `nodes`, that the skip links
  join exactly the nodes at `Depths(|nodes|, skipDistance)`, that time stamps decrease and that the
  gate sits at position `min(n-1, threshold)`. The source's assertions in its two list functions are
  `assert`s here, and the one that can fail is a result, `ok`; the functions are cut into one method
  per step.
- `Addresses.dfy` says what line a masked address stands for.
- `Histogram.dfy` and `ThreadData.dfy` are the per-thread histograms, basic-block vectors and
  regions. A ghost log of segments says what each saved region must record.
- `Protocol.dfy` is the numbering of regions by the callbacks, as a step system over all
  interleavings; `Rounds.dfy` restricts it to bulk-synchronous runs; `Client.dfy` has the callbacks
  on real thread objects. Every callback keeps `Consistent()`: the threads' objects share no part,
  and flags and threads on the heap are the protocol's state after the callbacks so far.
  `BarrierIds.dfy` is the list of synchronization points written from the master's regions.
- `LineFormat.dfy`, `Fingerprint.dfy` and `Combine.dfy` go from regions to output rows, text lines,
  and the combined vectors the clustering reads.
- `Clustering.dfy` and `Scaling.dfy` are the choice of earlier representatives, the relabelling of
  the cluster map and the weights of the selected points. SimPoint's output is an input
  (`WellFormed`).
- `Common.dfy` holds values and sequence facts used by several modules.

Main results, each for all inputs, runs or reachable states:

- `LookupDistance` returns exactly the trace's stack distance, for every sequence of lookups that
  keeps the engine valid; with a `skip_distance` other than 1 every lookup does.
- The skip list's shape is a function of the list length and `skip_distance` alone; a walk takes at
  most `2S-2` steps, an insertion scan at most `2S-1`, and neither operation touches more than
  `floor((n+1)/S)` skip nodes.
- In every reachable state the time-stamp test agrees with the true distance of every line if and
  only if the threshold is positive or no reference so far had a positive distance; the per-line
  distant counts are right if and only if the threshold is positive or at most one had.
- With `skip_distance` 1 a shift lands on a live skip node, and with any other value never. Every
  move is characterized: the head's is right, one from position 1 fails the source's assertion, and
  one from position p >= 2 leaves known wrong depths in the skip list.
- For all addresses, equal line tags mean equal lines if and only if the line size is a power of two.
- All histogram buckets plus the number of distinct lines equal the number of references; all
  basic-block vectors hold exactly the instructions executed.
- The master owns region numbers `0 .. synch_count-1` under every interleaving; under bulk-synchronous
  rounds a worker's number equals the shared count between rounds, plus one exactly if its data was
  created after the master's save of that round.
- The combined vector of a phase has one entry per reuse bucket and block of a thread, each with its
  exact weight; dimensions never collide, and reuse weights of a phase add up to its instructions.
- For the base, closest and earliest selections, each cluster's multiplier times its point's
  instructions is exactly what the phases SimPoint put into that cluster executed; together they
  reconstruct the run exactly, and within a stated bound as written with four decimals.

Where the code differs from its description: the constructor accepts any `skip_distance` and
`threshold`. With `skip_distance` 1 every node is a skip node. A move from position 1 then fails the
assertion at `dynamorio_client/include/reuse_distance_impl.h:299`. A move from position 2 or behind
fails no assertion: the distance returned is still right, but three nodes lose their skip fields,
and after a move from position p >= 3 the next walk reads one too little for every line at distance
1 to p (`MoveToFront`, `UnitMisread`, `UnitLookupMisreads`): after the trace 1,2,3,4,1 the walk for
a reference to 4, at distance 1, reads 0 (`UnitMisreadsFour`). The value 0 is harmless and keeps no
skip nodes. With `threshold` 0 the gate leaves the list at the first move; from then on the
time-stamp test never reports a line, and `distant_refs` misses later distant references
(`DistantTestRightIff`, `DistantCountsRightIff`, `ThresholdZeroMisses`); distances stay right. The
tool itself uses 500 and 100. The line size is an option that takes any number, although only a
power of two makes tags stand for lines (`TagsAreLinesIff`; 64 is the default). Counters, time
stamps and instruction counts are unbounded naturals, and the analysis computes over `real`.

## Model

| member | source | states |
|---|---|---|
| ReuseEngine.ReuseDistance.LookupDistance | dynamorio_client/reuse_distance.cpp:77-92 | the returned distance is -1 for a first reference and otherwise the number of distinct tags since the last one; the source's assertion fails exactly for skip_distance 1 and distance 1; otherwise map, list order and counters reflect the extended trace, and the engine stays valid unless skip_distance is 1 and the distance at least 2, where the depths left behind are given |
| ReuseEngine.ReuseDistance.constructor | dynamorio_client/reuse_distance.cpp:65-71 | for any skip_distance and threshold, an empty engine reflects the empty trace |
| ReuseEngine.DistantTestRightIff | dynamorio_client/include/reuse_distance_impl.h:155-159 | in every reachable state the time-stamp test is right for every line if and only if the threshold is positive or no reference so far had a positive distance |
| ReuseEngine.DistantTestIs | dynamorio_client/include/reuse_distance_impl.h:155-159 | the test reports a line exactly when its true distance exceeds the threshold and the gate is still on the list |
| ReuseEngine.CountersAreExact | dynamorio_client/include/reuse_distance_impl.h:213-259 | a line's total_refs is its number of references in the trace; unique_lines is the number of distinct tags |
| ReuseEngine.DistantCountsRightIff | dynamorio_client/include/reuse_distance_impl.h:262-267 | in every reachable state distant_refs is right for every line if and only if the threshold is positive or at most one reference so far had a positive distance |
| ReuseEngine.UnitLookupMisreads | dynamorio_client/include/reuse_distance_impl.h:269-277 | with skip_distance 1, after a move from position p > 2 the walk reads one too little for every line at distance 1 to p, after one from position 2 it is right for every line |
| ReuseEngine.UnitMisreadsFour | dynamorio_client/include/reuse_distance_impl.h:269-277 | with skip_distance 1, after the trace 1,2,3,4,1 the walk for the next reference to 4, at distance 1, reads 0 |
| ReuseEngine.FindLine | dynamorio_client/reuse_distance.cpp:80-90 | the map's keys are the trace's tags, each mapped to its own node in the list |
| ReuseEngine.IndexedMove | dynamorio_client/include/reuse_distance_impl.h:108-114 | the position of a line is its stack distance, and moving it to the front gives the order of the extended trace |
| StackDistance.MruPosition | dynamorio_client/README.md:50-52 | the position of a tag in order of last reference is the number of distinct tags since its last reference |
| StackDistance.MruLength | dynamorio_client/include/reuse_distance_impl.h:127 | as many lines as distinct tags |
| StackDistance.GateLostIff | dynamorio_client/include/reuse_distance_impl.h:262-267 | the gate has left the list exactly when the threshold is 0 and some reuse had a positive distance |
| StackDistance.DistantCountsExactIff | dynamorio_client/include/reuse_distance_impl.h:262-267 | the distant counts are right for every line if and only if the threshold is positive or the trace has at most one reuse at a positive distance |
| StackDistance.ThresholdZeroMisses | dynamorio_client/include/reuse_distance_impl.h:262-267 | with threshold 0 the trace 1,2,1,2 misses a distant reference |
| SkipLayout.DepthsShape | dynamorio_client/include/reuse_distance_impl.h:216-237 | skip positions are exactly S apart, the first in [S-1, 2S-2], the last S from the back |
| SkipLayout.DepthsCount | dynamorio_client/include/reuse_distance_impl.h:216-237 | there are max(0, floor((n+1)/S)-1) skip nodes |
| SkipLayout.DepthsGrow | dynamorio_client/include/reuse_distance_impl.h:219-241 | adding a line shifts every skip position by one and opens S-1 exactly when the front stretch is 2S-1 long |
| SkipLayout.HeadIsSkipIff | dynamorio_client/include/reuse_distance_impl.h:296-301 | the head is a skip node exactly when S is 1 |
| SkipLayout.SpacedIff | dynamorio_client/include/reuse_distance_impl.h:293-301 | skip positions avoid the head and each other's neighbours exactly when S is not 1 or the list is empty |
| SkipLayout.NearestSkip | dynamorio_client/include/reuse_distance_impl.h:270-277 | from any position a skip node or the front is at most 2S-2 steps away |
| ReuseDistanceImpl.LineRefList.constructor | dynamorio_client/include/reuse_distance_impl.h:132-141 | the empty list is valid |
| ReuseDistanceImpl.LineRefList.AddToFront | dynamorio_client/include/reuse_distance_impl.h:198-244 | for any S, the line becomes the head of an otherwise unchanged valid list, with a scan of at most 2S-1 nodes and at most floor((n+1)/S) skip nodes opened or deepened |
| ReuseDistanceImpl.LineRefList.AdvanceGate | dynamorio_client/include/reuse_distance_impl.h:207-213 | after an addition the gate is at position min(n-1, threshold) again |
| ReuseDistanceImpl.LineRefList.ScanFront | dynamorio_client/include/reuse_distance_impl.h:219-225 | the scan stops at the first skip node and finds the S-th node |
| ReuseDistanceImpl.LineRefList.OpenSkip | dynamorio_client/include/reuse_distance_impl.h:226-237 | the node becomes the first of the skip list at depth S-1, linked both ways; the source's assertions hold |
| ReuseDistanceImpl.LineRefList.DeepenSkips | dynamorio_client/include/reuse_distance_impl.h:239-241 | exactly the depths of the old skip nodes grow by one, each touched once |
| ReuseDistanceImpl.LineRefList.MoveSkipFields | dynamorio_client/include/reuse_distance_impl.h:179-190 | for any links of the source node, aliased or not: what source, destination and former neighbours hold afterwards, and that nothing else changes |
| ReuseDistanceImpl.LineRefList.Measure | dynamorio_client/include/reuse_distance_impl.h:269-277 | on any linked list, the walk reads off the depth noted at the nearest skip node plus the steps taken |
| ReuseDistanceImpl.LineRefList.MeasureChecked | dynamorio_client/include/reuse_distance_impl.h:269-291 | on a valid list that is the list position, and the source's optional check never reports a mismatch |
| ReuseDistanceImpl.LineRefList.BruteDistance | dynamorio_client/include/reuse_distance_impl.h:283-285 | the full walk returns the list position |
| ReuseDistanceImpl.ShiftStep | dynamorio_client/include/reuse_distance_impl.h:293-301 | with spaced skip positions a shifted skip node never lands on a live skip node |
| ReuseDistanceImpl.ShiftMeetsSkipIff | dynamorio_client/include/reuse_distance_impl.h:293-301 | the node in front of a skip node is itself a live skip node exactly when S is 1; it is then also its neighbour in the skip list |
| ReuseDistanceImpl.LineRefList.ShiftSkips | dynamorio_client/include/reuse_distance_impl.h:293-303 | spaced: all skip nodes from the given one to the front move one node towards the head, the rest stay, no assertion fails; with S = 1: fails at the head from position 1, stops after three nodes from position 2 or behind |
| ReuseDistanceImpl.ShiftedIsPlaced | dynamorio_client/include/reuse_distance_impl.h:293-317 | after shift and rotation every skip node is at its recorded depth |
| ReuseDistanceImpl.LineRefList.MoveGate | dynamorio_client/include/reuse_distance_impl.h:262-267 | a reference beyond the threshold is counted as distant and the gate ends up where the moved list needs it |
| ReuseDistanceImpl.LineRefList.Relink | dynamorio_client/include/reuse_distance_impl.h:305-316 | the list is rotated at the line's position, prev and next stay inverse |
| ReuseDistanceImpl.LineRefList.MoveToFront | dynamorio_client/include/reuse_distance_impl.h:252-324 | for any S, returns the line's position; the assertion fails exactly for S = 1 and position 1; otherwise rotates the list, updates only this line's counters, walks at most 2S-2 steps and touches at most floor((n+1)/S) skip nodes; keeps every invariant unless S = 1 and the position is at least 2, where the depths left behind are given |
| ReuseDistanceImpl.DepthByPosition | dynamorio_client/include/reuse_distance_impl.h:88-94 | a node's depth is its position or -1, depending on the list length and S alone |
| ReuseDistanceImpl.SkipLinksByPosition | dynamorio_client/include/reuse_distance_impl.h:88-94 | skip links lead to the nodes exactly S positions before and behind |
| ReuseDistanceImpl.RefIsDistantIff | dynamorio_client/include/reuse_distance_impl.h:155-159 | the time-stamp test is true exactly for positions beyond the threshold while the gate is on the list, and never once it is lost |
| ReuseDistanceImpl.UnitMisread | dynamorio_client/include/reuse_distance_impl.h:293-317 | after such a move from position p the walk from position i reads i-1 if p > 2 and 1 <= i <= p, and i otherwise |
| ReuseDistanceImpl.UnitMoveBreaks | dynamorio_client/include/reuse_distance_impl.h:293-317 | the depths such a move leaves behind are those of no valid list |
| Histogram.BucketUnique | dynamorio_client/thread_data.cpp:169-171 | the computed bucket b is the only one with 2^b <= max(d,1) < 2^(b+1) |
| Histogram.HistogramStep | dynamorio_client/thread_data.cpp:169-175 | counting a reuse keeps the histogram exact, without trailing zero buckets |
| Histogram.HistogramUnique | dynamorio_client/thread_data.cpp:169-175 | the histogram of a list of distances is determined |
| Histogram.ReusesPlusLines | dynamorio_client/thread_data.cpp:167-175 | reuses plus distinct tags equal references |
| Addresses.TagIsBase | dynamorio_client/thread_data.cpp:152-155 | with a line size that is a power of two the tag is the address rounded down to a multiple of the line size |
| Addresses.TagBounds | dynamorio_client/thread_data.cpp:152-155 | the tag is a multiple of the line size, and the address lies less than a line size behind it |
| Addresses.TagsAreLinesIff | dynamorio_client/main.cpp:661 | with the mask computed from a line size other than 0, two addresses share a tag exactly when they lie in the same line, for all addresses, if and only if the size is a power of two |
| Addresses.ValueInjective | dynamorio_client/thread_data.cpp:154-167 | different words are different tags |
| ThreadDatas.ThreadData.constructor | dynamorio_client/thread_data.cpp:33-72 | a new thread starts at the given region number with an empty engine (500, 100, kept by every method) and nothing saved |
| ThreadDatas.ThreadData.AddBb | dynamorio_client/thread_data.cpp:79-95 | the block's execution is added to the open region, whose vector and count stay exact |
| ThreadDatas.ThreadData.SaveBarrier | dynamorio_client/thread_data.cpp:99-131 | the open region is saved whole under its number and a new empty one starts |
| ThreadDatas.ThreadData.GetInstrCount | dynamorio_client/thread_data.cpp:135-141 | the instructions executed in a saved region, 0 for an unseen one |
| ThreadDatas.ThreadData.CountDistance | dynamorio_client/thread_data.cpp:168-175 | a distance other than -1 is counted in its bucket, the vector grown if need be |
| ThreadDatas.ThreadData.AddAddress | dynamorio_client/thread_data.cpp:147-180 | all buffered addresses are fed in order, each as the tag of its line, and counted in the open region; the buffer is emptied |
| ThreadDatas.ThreadData.CleanBuffer | dynamorio_client/thread_data.cpp:184-187 | the buffer is emptied, nothing else changes |
| ThreadDatas.ReferencesConserved | dynamorio_client/thread_data.cpp:99-180 | all buckets of all regions plus the distinct lines equal the references fed |
| ThreadDatas.InstructionsConserved | dynamorio_client/thread_data.cpp:79-131 | each region's vector sums to its count and all of them hold every executed instruction |
| Protocol.StepKeepsMaster | dynamorio_client/main.cpp:581-587 | every callback keeps the master unique with regions 0 .. synch_count-1 |
| Protocol.MasterHasAllRegions | dynamorio_client/main.cpp:563-648 | the same after every sequence of callbacks of any threads |
| Rounds.RunsAreAligned | dynamorio_client/main.cpp:563-618 | in every bulk-synchronous run the region numbers and in_single flags of the live threads are determined by the round |
| Rounds.AgreeBetweenRounds | dynamorio_client/main.cpp:604-618 | between rounds a thread's number is the shared count, plus one exactly if it was created after the master's save |
| Rounds.OneApartWithinRound | dynamorio_client/main.cpp:581-587 | within a round the numbers of punctual threads differ by at most one |
| Rounds.ExitAfterRoi | dynamorio_client/main.cpp:624-637 | after a worker has exited past the region of interest its next region number is the shared count, plus one if it was late |
| Rounds.LateJoinHappens | dynamorio_client/main.cpp:604-618 | a run in which a worker is one ahead |
| ClientCallbacks.BarrierPointClient.EventThreadInit | dynamorio_client/main.cpp:604-618 | the first thread becomes master; the new thread starts at the shared count with a fresh, empty engine, no regions and the client's line mask, apart from all other threads; the heap follows the protocol |
| ClientCallbacks.BarrierPointClient.SaveData | dynamorio_client/main.cpp:581-587 | saves the open region whole under its number and the given name and begins an empty one; the master advances the shared count |
| ClientCallbacks.BarrierPointClient.EventOmpParallel | dynamorio_client/main.cpp:288-304 | inside the region of interest, and only there, saves the region under the function's name; heap and protocol stay in agreement |
| ClientCallbacks.BarrierPointClient.EventBarrier | dynamorio_client/main.cpp:563-575 | inside the region of interest saves the region as GOMP_barrier, or clears the single flag instead; heap and protocol stay in agreement |
| ClientCallbacks.BarrierPointClient.EventSingle | dynamorio_client/main.cpp:593-598 | sets the single flag inside the region of interest if asked to ignore single constructs; heap and protocol stay in agreement |
| ClientCallbacks.BarrierPointClient.EventRoiInit | dynamorio_client/main.cpp:202-216 | enters the region of interest once, reports a second one |
| ClientCallbacks.BarrierPointClient.EventRoiEnd | dynamorio_client/main.cpp:219-244 | leaves it once, saving the master's last region as thread_exit, and reports another thread or a second end |
| ClientCallbacks.BarrierPointClient.EventThreadExit | dynamorio_client/main.cpp:624-637 | a worker saves its last region as thread_exit, and the thread is handed over |
| ClientCallbacks.BarrierPointClient.CleanCall | dynamorio_client/main.cpp:348-366 | counts the block and feeds or drops the buffer depending on the region of interest, and leaves every other thread apart and unchanged |
| ClientCallbacks.MasterOnHeap | dynamorio_client/main.cpp:581-587 | after any run of callbacks the master is unique and has saved exactly the regions below the shared count |
| BarrierIds.WriteRows | dynamorio_client/barrierpoint.cpp:184-211 | first 0,0,ROI_Start, then by increasing id one row for exactly the regions not cut off by a thread's exit: region id - 1, its routine and the number of earlier regions with that routine |
| BarrierIds.SaveBpId | dynamorio_client/barrierpoint.cpp:178-214 | after any run of callbacks the master misses no region below the shared count; its rows are those WriteRows describes, and there are none while it is not in the list |
| LineFormat.RoundTrip | dynamorio_client/barrierpoint.cpp:137-154 | a written line is parsed back to the same items |
| LineFormat.PrintedText | dynamorio_client/barrierpoint.cpp:137-154 | a written line is the delimiter, the items in order as ":id:count " in decimal, and one newline |
| LineFormat.ValueDecimal | dynamorio_client/barrierpoint.cpp:148 | the digits written for a number have that number as their decimal value |
| LineFormat.NoLeadingZero | dynamorio_client/barrierpoint.cpp:148 | a positive number is written without leading zeros |
| Fingerprint.MaxHistSize | dynamorio_client/barrierpoint.cpp:124-132 | the stride is the length of the longest histogram, 0 without any |
| Fingerprint.NumberBlocks | dynamorio_client/barrierpoint.cpp:219-238 | exactly the blocks that occur are numbered 1, 2, ... injectively, in first-seen order: the blocks of the regions before any one have smaller numbers than all others |
| Fingerprint.ReuseIdIs | dynamorio_client/barrierpoint.cpp:148 | a reuse dimension d is thread (d-1)/stride, bucket (d-1) mod stride; thread t's lie in 1 + t*stride .. (t+1)*stride |
| Fingerprint.CodeIdIs | dynamorio_client/barrierpoint.cpp:261 | a code dimension d is thread (d-1)/n, block number (d-1) mod n + 1 for n blocks; thread t's lie in 1 + t*n .. (t+1)*n |
| Fingerprint.SaveReuseRow | dynamorio_client/barrierpoint.cpp:139-153 | the row holds every non-zero bucket of every thread once, at its id, and nothing else; its counts sum to the reuses of all threads |
| Fingerprint.SaveCodeRow | dynamorio_client/barrierpoint.cpp:246-266 | the row holds every block of every thread once, at its id, and nothing else |
| Combine.SaveInsRow | dynamorio_client/barrierpoint.cpp:160-174 | one instruction count per thread |
| Combine.MaxId | DrAnalysis.py:308-327 | the shift is the largest reuse dimension, 0 without any |
| Combine.CombineRows | DrAnalysis.py:306-402 | succeeds exactly on consistent rows and then gives the combined vector of every phase |
| Combine.MassConserved | DrAnalysis.py:380-386 | the reweighted reuse counts of a phase sum to its instructions |
| Combine.ClientFilesConsistent | DrAnalysis.py:348-349 | on the client's files the length assertion holds and no division by zero occurs |
| Combine.FilesReadBack | DrAnalysis.py:316-326 | every line of a written file is read back as its row; the first line starts with W, no other does |
| Combine.NoCollision | DrAnalysis.py:373-375 | two sources share a dimension exactly when they are the same thread and bucket or the same thread and block |
| Combine.Fingerprints | DrAnalysis.py:282-411 | phase i has one entry for every bucket and block of synchronization point i+1, at its dimension and with exactly its weight, reuse weights summing to the phase's instructions; across all phases dimensions are shared exactly by equal sources |
| Clustering.ClusterMap | DrAnalysis.py:419-426 | every phase is mapped to the representative of its label |
| Clustering.Closer | DrAnalysis.py:465-471 | the members within the slack and not after the simpoint, in order |
| Clustering.Reduce | DrAnalysis.py:475-476 | the fold returns the last of the closest |
| Clustering.Earlier | DrAnalysis.py:454-478 | the closest member at or before the simpoint, and the earliest one whose distance exceeds the simpoint's by at most a twentieth of some member's distance; the list is never empty |
| Clustering.WithinSlack | DrAnalysis.py:459-461 | being within the computed slack is exceeding the simpoint's distance by at most a twentieth of the distance of some member of the cluster |
| Clustering.EarlierOrder | DrAnalysis.py:473-478 | earliest, closest and simpoint are in this order in one cluster; closest is the simpoint exactly when no earlier member is strictly closer |
| Clustering.ClosestUnique | DrAnalysis.py:473-476 | the closest member is determined by the distances, whatever the slack |
| Clustering.NotCaptured | DrAnalysis.py:490-496 | an entry already replaced is not captured by a later pair |
| Clustering.Relabel | DrAnalysis.py:490-513 | the sequential in-place relabelling is the simultaneous substitution |
| Scaling.ScalingFactors | DrAnalysis.py:530-537 | factor times the representative's instructions is the phase's instructions; fails exactly on an empty representative |
| Scaling.Accumulate | DrAnalysis.py:548-561 | a representative's multiplier times its instructions is what its phases executed; other entries stay 0 |
| Scaling.SortedAscending | DrAnalysis.py:580-580 | the points come in ascending order (the same points: Sorted keeps the multiset) |
| Scaling.Select | DrAnalysis.py:577-584 | the sorted points with their multipliers reconstruct the total instructions |
| Scaling.RoundingBound | DrAnalysis.py:592-597 | with four decimals the reconstruction is off by at most 0.00005 times the points' instructions |
| Scaling.RepresentsCluster | DrAnalysis.py:419-423 | in a relabelled map the phases a chosen point represents are exactly those SimPoint labelled with its cluster, so their instructions are the cluster's |
| Scaling.Analyse | DrAnalysis.py:413-663 | for each of the three selections, every cluster's multiplier times its point's instructions is the instructions of the phases with that cluster's label; the selection reconstructs the run exactly and up to rounding, or fails exactly when one of its points executed nothing; the earlier points are the closest and the earliest close enough |

## Left out

- DynamoRIO instrumentation, register handling, raw TLS buffers, symbol lookup and module events: foreign calls; the buffer is a sequence of addresses.
- align_synch_bb: it reads an iterator after erasing it and assumes every region exists, so there is no clean meaning to prove.
- The sort by thread id before writing: threads are numbered by their place in the list, and every statement holds for any order.
- save_ldv_hist: the same histograms printed for people.
- The instruction-count file's text: only the item lines are printed and parsed as text; its rows are passed on as numbers.
- ThreadDatas.ThreadData.AddBb: the source keeps 32-bit counts per block, here they are unbounded, as are all counters and time stamps.
- Addresses.LineTag: the client is built with masking on (dynamorio_client/CMakeLists.txt:11); without it the whole address is the tag, as with line size 1. A line size of 0 masks everything.
- LineFormat.RoundTrip: of the forms Python's int accepts, only digits with surrounding blanks are modelled; the client writes no others.
- ClientCallbacks.BarrierPointClient.EventThreadExit: the source copies the thread's data into the list, here the list holds the thread itself; a thread exits once.
- ReuseEngine.ReuseDistance.LookupDistance: nothing is said of the heap after a failed assertion, nor of a whole lookup on a skip list that skip_distance 1 has already broken, only of its walk (UnitLookupMisreads).
- Protocol.Step: a thread is named by its place in the order of creation, so an id the operating system uses again is a new thread; callbacks are atomic steps.
- ReuseDistance::total_refs, debug printing and validation dumps: never read by the program, or output for people.
- SimPoint, subprocesses, compression, paths, logging and configuration: SimPoint's output is an input with the stated well-formedness.
- Rounds.RunsAreAligned: a team grows only in a parallel round and not while a single construct's barrier is pending; a thread joining then would save at a barrier the others ignore.
- Clustering.ClusterMap: SimPoint's guarantees (distinct ids and simpoints, known labels, simpoints in their own clusters, distances not negative) are preconditions.
- Floating point: values are reals, so only the four-decimal rounding is accounted for.
- RunBenchmarks.py, errorEstimate.py and barrierpoint-libs: script generation, plotting and counter calls, which would add only easy members.
