# SGLang: a verified model of its caching, benchmarking and tooling logic

This project models, in Dafny, the parts of SGLang whose correctness is not visible from any single function, and
proves what they are relied on for.

- **The KV cache's prefix tree** (`RadixKeys`, `RadixTree`, `RadixState`, `RadixCaching`, `PagedTree`,
  `RequestCaching`, `RequestRuns`). The tree is given a meaning, the partial map from token prefixes to KV slots
  (`RadixTree.Slot`), and every operation is proved against it: looking up finds the longest cached prefix,
  splitting an edge changes nothing, inserting adds exactly the missing prefixes, evicting removes only what nobody
  holds. The counters kept beside the tree are proved to say what they claim. Over every run of any number of
  requests, with eviction at any time, no KV slot is leaked, used in two places or changed under a request that
  reads it. Keys as the code stores them, raw tokens read singly or as overlapping pairs and in pages, are proved to
  behave like the units of the tree: `PagedTree` walks, splits, inserts and deletes on raw edges and stands for the
  unit tree throughout.
- **The trace converter** (`SpanContainer`, `SpanLayout`, `LayoutSafety`, `LaneOptimality`, `LaneChoice`,
  `TraceLayout`, `LayoutOrder`, `SpanForest`, `SpanConvert`, `SpanGather`, `SpanLinks`, `TraceConversion`,
  `TraceArrows`, `GatherOrder`). Spans drawn on one lane never overlap, exactly as long as no zero-length span lands
  inside another; a request changes lanes only when it must; the gateway's spans use the fewest lanes any drawing
  could; arbitrary parent ids neither loop nor convert or write a span twice; correlation ids tell link targets
  apart exactly when the ids the input carries clash with none. `TraceConversion` runs the passes one after the
  other and says what that makes of a trace file.
- **The multi-turn load driver** (`Counting`, `MultiTurn`, `MultiTurnSafety`, `MultiTurnBarrier`,
  `MultiTurnProgress`, `MultiTurnExit`, `MultiTurnOrder`, `WorkloadGenerator`). Sender, request tasks and response
  handler are one transition system over arbitrary interleavings and failures; the class's methods are proved to
  take its steps.
- **The serving benchmark** (`Serving`, `ServingSafety`, `ServingResults`, `ServingOrder`, `ServingTurn`), with
  conversations that go round a bounded queue, and the filter that makes its input (`ChatFilter`).
- **The mixed-load user generator** (`UserGenerator`), whose queue insert is wrong on exactly one kind of input.
- **The line retrieval data set** (`Redirects`, `LineQuery`): redirect chains, rings, and the queries that stay
  answerable in a truncated context.
- **Answer extraction and wheel indexes** (`Strings`, `Boxed`, `Fracs`, `WheelIndex`).

Concurrent code is a state machine whose steps are the points between which the source can be interleaved; objects
that the source updates in place are classes. Tokenizer lengths, random draws, the clock, file hashes and server
responses are inputs. Integers are unbounded, as Python's are.

How the source's state is represented:

- Radix keys are sequences of units, a unit being one page of tokens (or of token pairs) with its `extra_key`; a KV
  slot stands for one page; `RadixKeys` proves that this is what the raw tokens give. Tree nodes live in a
  dictionary under their path from the root: a split creates a new object for the upper half, so no existing node's
  path ever changes.
- `RadixCache.holders` lists the nodes on which `inc_lock_ref` was called and `dec_lock_ref` not yet; a node's
  `lock_ref` is proved to be the number of these at or below it. `freed` lists what was given to the allocator.
- `graph[pid][line]` of the layout is one dictionary keyed by the pair, with the number of lanes beside it.
- In `bench_mix.py` the search in `push` computes `i` but the code inserts at `idx`; the model inserts at `idx`.
- `search_boxed` falls back to `\fbox` only after `\boxed` was found, so the fallback cannot run.

Where the code does not do what it is meant to, the model follows the code, a lemma at a concrete input shows the
failure, and an if-and-only-if says on which inputs it occurs:

- `RadixKeys.MatchExact` with `LoosePageWitness`: matching counts a page too many.
- `LayoutSafety.DisjointExactly` with `ZeroLengthWitness`: spans overlap on a lane.
- `SpanLinks.IdsExact` with `ClashWitness`: two link targets share an id.
- `RadixState.UnlockExplained` with `UnmatchedWitness`: giving back a lock that was not taken spoils the counts.
- `MultiTurnExit.HangsExactly` with `FailureWitness` and `NoRoomWitness`: the driver polls for ever after a failed
  response, or with no request allowed in flight.
- `MultiTurnExit.HandlerLeavesDone` with `LostResponseWitness`: the handler leaves a response unhandled.
- `ServingResults.FetchTotals` with `FetchWitness`: fewer turns are fetched than there are.
- `ChatFilter.StuckWithoutSurvivors` with `StuckWitness`: the filter never returns.
- `UserGenerator.InsertSortsExactly` with `InsertWitness`: the queue loses its order.
- `Boxed.ExtractorsAgree` with `PercentWitness` and `WordWitness`: the two extractors differ.

## Model

| member | source | states |
|---|---|---|
| RadixKeys.Match | python/sglang/srt/mem_cache/radix_cache.py:152-181 | the three loops compute the specified length; different namespaces are an error |
| RadixKeys.CountEqual | python/sglang/srt/mem_cache/radix_cache.py:159-173 | how many leading tokens two lists share |
| RadixKeys.ScanPages | python/sglang/srt/mem_cache/radix_cache.py:175-181 | the page loop counts the pages shared, and one more for two equal lists that do not fill their last page |
| RadixKeys.PairPages | python/sglang/srt/mem_cache/radix_cache.py:157-165 | counting equal raw tokens, less one and rounded down, counts the pages of pairs shared |
| RadixKeys.MatchExact | python/sglang/srt/mem_cache/radix_cache.py:152-181 | `match` is the shared pages, in units, if and only if the keys are not equal plain keys with a part of a page left over |
| RadixKeys.LoosePageWitness | python/sglang/srt/mem_cache/radix_cache.py:175-181 | a key of five tokens matches itself over eight in pages of four |
| RadixKeys.SliceUnits | python/sglang/srt/mem_cache/radix_cache.py:103-120 | slicing at a page boundary cuts the units there, for pairs too, although both parts keep the token at the boundary |
| RadixKeys.AlignedUnits | python/sglang/srt/mem_cache/radix_cache.py:126-130 | `page_aligned` loses no whole page, and an aligned key never meets the failing case of `match` |
| RadixKeys.ChildKeyIsUnit | python/sglang/srt/mem_cache/radix_cache.py:183-193 | two keys are looked up under one entry if and only if their first pages and namespaces agree |
| RadixKeys.WalkStep | python/sglang/srt/mem_cache/radix_cache.py:702-715 | for an edge of whole pages and a key of the same mode and namespace, the code takes a child whole, or splits it, where the unit model does, all cuts leave the units the model leaves, and every part is of whole pages again |
| RadixTree.ChildOnPath | python/sglang/srt/mem_cache/radix_cache.py:693-717 | in a well-linked tree a node below another is always reached through the child registered under its next unit |
| RadixTree.EdgeEmpty | python/sglang/srt/mem_cache/radix_cache.py:719-739 | no node's path ends strictly inside another node's edge |
| RadixTree.OwnerUnique | python/sglang/srt/mem_cache/radix_cache.py:693-717 | every prefix lies on the edge of at most one node, so the tree assigns it at most one slot |
| RadixTree.CachedExactly | python/sglang/srt/mem_cache/radix_cache.py:693-717 | a non-empty prefix has a slot if and only if some node's path extends it; cached prefixes are prefix-closed |
| RadixTree.SplitShape | python/sglang/srt/mem_cache/radix_cache.py:719-739 | splitting an edge anywhere inside keeps parents and child tables consistent |
| RadixTree.SplitSlot | python/sglang/srt/mem_cache/radix_cache.py:719-739 | splitting changes the slot of no prefix |
| RadixTree.GrowSlot | python/sglang/srt/mem_cache/radix_cache.py:788-800 | hanging a new leaf caches exactly the prefixes beyond its parent, each with its own slot, and changes no other |
| RadixTree.PruneSlot | python/sglang/srt/mem_cache/radix_cache.py:821-829 | deleting a leaf forgets exactly the prefixes on its edge |
| RadixTree.LockSlot | python/sglang/srt/mem_cache/radix_cache.py:637-671 | changing lock counts changes no slot |
| RadixTree.DeepestIsLongest | python/sglang/srt/mem_cache/radix_cache.py:693-717 | where the walk along a key stops is where its longest cached prefix ends: prefixes up to there are cached, longer ones are not |
| RadixState.SplitWeights | python/sglang/srt/mem_cache/radix_cache.py:719-739 | a split changes neither the evictable nor the protected total, nor how often any slot is stored |
| RadixState.SplitLocks | python/sglang/srt/mem_cache/radix_cache.py:727-727 | copying the child's lock count to the new node is right: whoever holds something below one holds something below the other |
| RadixState.LiftStep | python/sglang/srt/mem_cache/radix_cache.py:641-649 | climbing by `parent` passes exactly the nodes whose path is a prefix of the held one |
| RadixState.SizesCountPrefixes | python/sglang/srt/mem_cache/radix_cache.py:673-678 | evictable plus protected size counts every cached prefix exactly once |
| RadixState.LockMonotone | python/sglang/srt/mem_cache/radix_cache.py:637-650 | a node is locked at least as often as anything below it |
| RadixState.UnlockExplained | python/sglang/srt/mem_cache/radix_cache.py:652-671 | counting one lock less from a node up leaves counts that some set of outstanding locks explains if and only if a lock on that node was outstanding, or it is the root |
| RadixState.UnmatchedWitness | python/sglang/srt/mem_cache/radix_cache.py:658-670 | giving back a lock on a node nobody holds makes its count negative, which no locks explain |
| RadixState.LeafBelow | python/sglang/srt/mem_cache/radix_cache.py:831-844 | below every unlocked node there is an evictable leaf |
| RadixState.NoLeavesNothingFree | python/sglang/srt/mem_cache/radix_cache.py:620-620 | when `evictable_leaves` is empty the evictable size is zero |
| RadixCaching.CommonLength | python/sglang/srt/mem_cache/radix_cache.py:152-181 | the number of leading units two keys share, and that it is the largest |
| RadixCaching.PruneForgets | python/sglang/srt/mem_cache/radix_cache.py:608-635 | deleting an unlocked leaf changes no slot a holder can read |
| RadixCaching.PruneFrees | python/sglang/srt/mem_cache/radix_cache.py:623-625 | every slot that leaves the tree with a leaf is freed, as often as it was stored |
| RadixCaching.RadixCache.constructor | python/sglang/srt/mem_cache/radix_cache.py:385-396 | a reset cache is consistent and caches nothing |
| RadixCaching.RadixCache.UpdateLeafStatus | python/sglang/srt/mem_cache/radix_cache.py:831-844 | the node is listed as evictable leaf exactly when it is unlocked and childless |
| RadixCaching.RadixCache.SplitNode | python/sglang/srt/mem_cache/radix_cache.py:719-739 | performs the split, keeps the bookkeeping consistent and the tree's meaning unchanged |
| RadixCaching.RadixCache.Descend | python/sglang/srt/mem_cache/radix_cache.py:702-715 | one step of the walk ends at a node on the key, either the whole child or a new node at which the walk can go no further; the meaning is unchanged |
| RadixCaching.RadixCache.MatchPrefix | python/sglang/srt/mem_cache/radix_cache.py:398-466 | returns the slots of the longest cached prefix, in order, and the node that ends it; the tree's meaning, its nodes and its bookkeeping survive the possible split |
| RadixCaching.RadixCache.Insert | python/sglang/srt/mem_cache/radix_cache.py:749-801 | returns the length of the longest cached prefix; exactly the longer prefixes of the key become cached with the given slots; the evictable size grows by exactly their number |
| RadixCaching.RadixCache.AddLeaf | python/sglang/srt/mem_cache/radix_cache.py:788-800 | adds the leaf and re-establishes counters and leaf set |
| RadixCaching.RadixCache.DeleteLeaf | python/sglang/srt/mem_cache/radix_cache.py:821-829 | removes an evictable leaf and re-establishes counters and leaf set |
| RadixCaching.RadixCache.EvictLeaf | python/sglang/srt/mem_cache/radix_cache.py:621-629 | one round of eviction keeps the heap equal to the evictable leaves and frees exactly what it removes |
| RadixCaching.RadixCache.Evict | python/sglang/srt/mem_cache/radix_cache.py:608-635 | whatever order the heap yields: no slot changes, what disappears nobody holds, the slots freed are exactly those removed, the evictable size drops by the number evicted, fewer than asked are evicted only when nothing evictable is left, and without the last node removed it would have been fewer |
| RadixCaching.RadixCache.LockOne | python/sglang/srt/mem_cache/radix_cache.py:643-648 | locking one node moves its units between the counters exactly when it was unlocked |
| RadixCaching.RadixCache.UnlockOne | python/sglang/srt/mem_cache/radix_cache.py:661-666 | unlocking one node moves its units back exactly when this was the last lock, and keeps the two sizes right exactly when the node was not at zero (or holds nothing) |
| RadixCaching.RadixCache.IncLockRef | python/sglang/srt/mem_cache/radix_cache.py:637-650 | every node on the path to the held one gets one lock more; counters move by the returned delta; the meaning is unchanged |
| RadixCaching.RadixCache.DecLockRef | python/sglang/srt/mem_cache/radix_cache.py:652-671 | every node on the path gets one lock less, whether or not a lock is outstanding; the counts are those of some locks if and only if one was (or the node is the root), and then all bookkeeping stays right |
| PagedTree.LookUp | python/sglang/srt/mem_cache/radix_cache.py:183-193 | looking up what is left of a raw key finds the child that the unit tree lists under its first unit, or nothing when that lists nothing |
| PagedTree.SplitStands | python/sglang/srt/mem_cache/radix_cache.py:719-739 | a raw tree that stands for a unit tree stands for the split unit tree after the raw split |
| PagedTree.GrowStands | python/sglang/srt/mem_cache/radix_cache.py:789-795 | and for the grown unit tree after a raw leaf is added |
| PagedTree.PruneStands | python/sglang/srt/mem_cache/radix_cache.py:821-824 | and for the pruned unit tree after a raw leaf is deleted |
| PagedTree.StepDown | python/sglang/srt/mem_cache/radix_cache.py:702-715 | one round of the raw walk ends where the unit walk ends, without a namespace error |
| PagedTree.TokenTree.constructor | python/sglang/srt/mem_cache/radix_cache.py:385-396 | the empty raw tree stands for the empty unit tree |
| PagedTree.TokenTree.Descend | python/sglang/srt/mem_cache/radix_cache.py:702-715 | one round of the walk on raw tokens, splitting where the key leaves the edge |
| PagedTree.TokenTree.SplitNode | python/sglang/srt/mem_cache/radix_cache.py:719-739 | the raw split performs the unit split and changes no cached slot |
| PagedTree.TokenTree.Walk | python/sglang/srt/mem_cache/radix_cache.py:700-717 | the whole walk over raw edges ends at the deepest node along the key's units, having consumed exactly their tokens |
| PagedTree.TokenTree.MatchPrefix | python/sglang/srt/mem_cache/radix_cache.py:435-466 | on arbitrary raw tokens, read singly or as pairs and in any page size, the match is the longest cached prefix of the key's whole pages |
| PagedTree.TokenTree.Insert | python/sglang/srt/mem_cache/radix_cache.py:749-795 | inserting raw tokens returns the length that was cached and caches exactly the key's missing prefixes |
| PagedTree.TokenTree.DeleteLeaf | python/sglang/srt/mem_cache/radix_cache.py:821-824 | deleting a raw leaf deletes it in the unit tree |
| RequestCaching.ForgetsUndisturbed | python/sglang/srt/mem_cache/radix_cache.py:608-635 | eviction changes nothing along the path to a held node |
| RequestCaching.InsertUndisturbed | python/sglang/srt/mem_cache/radix_cache.py:749-801 | insertion changes nothing along the path to a held node |
| RequestCaching.HeldThroughout | python/sglang/srt/mem_cache/radix_cache.py:637-650 | over any run of operations that disturb no holder, the slots read along a node held throughout stay the same |
| RequestCaching.HeldIsCached | python/sglang/srt/mem_cache/radix_cache.py:562-566 | what a request holds is part of the longest cached prefix of its key, so the range of slots freed as duplicates is never negative |
| RequestCaching.NodeIsCached | python/sglang/srt/mem_cache/radix_cache.py:574-576 | a key that is a node's path is cached in full: the assertion after re-matching an inserted key holds |
| RequestCaching.Request.CacheUnfinished | python/sglang/srt/mem_cache/radix_cache.py:535-599 | the slots in the tree, freed and private to the request balance before and after, exactly the duplicates are freed, the request's row then reads its key's slots off the tree, its lock moves to the key, and no holder is disturbed |
| RequestCaching.Request.CacheFinished | python/sglang/srt/mem_cache/radix_cache.py:488-533 | with or without insertion every slot the request owned ends in the tree or is freed, once; its lock is given back and no other holder is disturbed |
| RequestCaching.EvictionIsOne | python/sglang/srt/mem_cache/radix_cache.py:608-635 | what `Evict` promises disturbs no holder and balances the slots |
| RequestCaching.Request.Start | python/sglang/srt/managers/schedule_batch.py:1007-1033 | admission holds exactly the longest cached prefix, and the request's row reads its slots off the tree, followed by the newly allocated ones |
| RequestRuns.StillReads | python/sglang/srt/mem_cache/radix_cache.py:637-650 | what a request reads along the node it holds survives any operation that disturbs no holder |
| RequestRuns.StepGood | python/sglang/srt/mem_cache/radix_cache.py:488-635 | admission, decoding, hand-over, the end of a request and eviction each keep the invariant of `RunGood` |
| RequestRuns.RunGood | python/sglang/srt/mem_cache/radix_cache.py:488-635 | in every run of any number of requests: the outstanding locks are exactly the requests' nodes, every request holds a prefix of its own tokens and its row reads that off the tree, every slot given out is stored, owned by one request or given back, and no slot is in two places |
| RequestRuns.OwnTokensRead | python/sglang/srt/mem_cache/radix_cache.py:535-599 | in every run a held place of a request's row is the slot the tree caches for the request's own tokens up to there |
| RequestRuns.NothingLeaks | python/sglang/srt/managers/scheduler_runtime_checker_mixin.py:371-434 | evictable plus protected size plus the requests' uncached slots is exactly what was given out and not given back: the scheduler's leak check passes |
| SpanContainer.BisectLeft | scripts/convert_otel_2_perfetto.py:59-59 | the position that splits the ordered list at the key |
| SpanContainer.Insort | scripts/convert_otel_2_perfetto.py:72-73 | inserting keeps the list ordered and adds exactly the interval |
| SpanContainer.NeighbourTestSound | scripts/convert_otel_2_perfetto.py:58-70 | a negative two-neighbour test means no stored interval overlaps, for every query and separated container |
| SpanContainer.NeighbourTestExact | scripts/convert_otel_2_perfetto.py:58-70 | on a separated lane the two-neighbour test equals scanning the whole lane, for queries that are not inverted over intervals of positive length |
| SpanContainer.InsertKeepsSeparated | scripts/convert_otel_2_perfetto.py:58-73 | an insert the test permits keeps the intervals separated |
| SpanLayout.FirstFit | scripts/convert_otel_2_perfetto.py:111-114 | the first lane in opening order with a negative test, if any |
| SpanLayout.FindLine | scripts/convert_otel_2_perfetto.py:95-120 | the lane returned tests negative or is the remembered lane of a zero-length span; at most one empty lane is added, and only when all lanes of the process are blocked |
| LayoutSafety.RunConserved | scripts/convert_otel_2_perfetto.py:273-304 | in every run lanes are 1..k with one slot record each, every lane holds exactly its spans, every span is drawn once and in order |
| LayoutSafety.ZeroLengthTest | scripts/convert_otel_2_perfetto.py:98-99 | for a zero-length span the test says exactly whether it lies inside another span |
| LayoutSafety.PlacedClear | scripts/convert_otel_2_perfetto.py:100-114 | a span put on a lane whose test is negative overlaps nothing drawn there before |
| LayoutSafety.StepDisjoint | scripts/convert_otel_2_perfetto.py:276-288 | a step leaves a clean drawing clean if and only if it buries no zero-length span |
| LayoutSafety.DisjointExactly | scripts/convert_otel_2_perfetto.py:264-304 | spans on one lane are disjoint at the end of a run if and only if no step buried a zero-length span |
| LayoutSafety.NoZeroLengthDisjoint | scripts/convert_otel_2_perfetto.py:264-304 | runs without zero-length spans are always drawn without overlap |
| LayoutSafety.ZeroLengthWitness | scripts/convert_otel_2_perfetto.py:98-99 | a run in which one zero-length span breaks the drawing |
| LaneChoice.TestIsFree | scripts/convert_otel_2_perfetto.py:58-70 | on the lanes of a run the overlap test says exactly whether something drawn there overlaps |
| LaneChoice.EveryLaneChosen | scripts/convert_otel_2_perfetto.py:95-120 | in every run whose spans of a process have positive length, a span gets the line of the request's previous span there if nothing drawn on it overlaps, and otherwise the lowest line on which nothing does |
| LaneChoice.StaysUnlessForced | scripts/convert_otel_2_perfetto.py:96-102 | a request's next span on a process stays on the line of its previous one if and only if nothing drawn there overlaps it |
| LaneChoice.StaysWitness | scripts/convert_otel_2_perfetto.py:96-102 | spans of one request at [0, 10], [5, 15] and [20, 30] are drawn on lines 1, 2 and 2 |
| LaneOptimality.DrawingNeedsPeak | scripts/convert_otel_2_perfetto.py:264-304 | any drawing without overlap needs as many lanes as spans are alive at one instant |
| LaneOptimality.OpeningCrowds | scripts/convert_otel_2_perfetto.py:116-120 | opening a lane proves that many spans are alive when the new span starts |
| LaneOptimality.LanesMatchPeak | scripts/convert_otel_2_perfetto.py:290-304 | spans of positive length placed in start order get exactly as many lanes as are alive at the busiest instant |
| LaneOptimality.GreedyOptimal | scripts/convert_otel_2_perfetto.py:290-304 | for spans of positive length placed in start order, no drawing of them without overlap uses fewer lanes |
| TraceLayout.SpanLayoutContainer.CheckOverlap | scripts/convert_otel_2_perfetto.py:58-70 | the method computes the two-neighbour test |
| TraceLayout.SpanLayoutContainer.InsertSpan | scripts/convert_otel_2_perfetto.py:72-73 | the container's list becomes the ordered list with the interval added |
| TraceLayout.Layout.OpenLine | scripts/convert_otel_2_perfetto.py:116-120 | one empty lane more, remembered, with one slot record |
| TraceLayout.Layout.FirstFree | scripts/convert_otel_2_perfetto.py:111-114 | the loop finds the first fitting lane |
| TraceLayout.Layout.FindLine | scripts/convert_otel_2_perfetto.py:95-120 | the in-place search takes the step of the specification |
| TraceLayout.Layout.PlaceSpan | scripts/convert_otel_2_perfetto.py:276-287 | one span is searched a lane for, inserted and drawn, as specified (the lane is written into the spans by `TraceConversion.WriteLanes`) |
| TraceLayout.Layout.PlaceAll | scripts/convert_otel_2_perfetto.py:274-288 | one request's loop, with a fresh memory, computes the specified run |
| TraceLayout.GenerateLayout | scripts/convert_otel_2_perfetto.py:264-304 | the whole layout is the run over the sorted requests and gateway spans; it fails, placing nothing, exactly when some request has no span |
| TraceLayout.SortKeeps | scripts/convert_otel_2_perfetto.py:290-290 | sorting puts spans in start order and is a permutation |
| LayoutOrder.SpansInOrder | scripts/convert_otel_2_perfetto.py:265-268 | a request's spans are taken in start order, and in the given order where they start together |
| LayoutOrder.RequestsInOrder | scripts/convert_otel_2_perfetto.py:270-272 | requests are taken in the order of their first spans' starts, and in file order where those start together |
| LayoutOrder.RequestLanes | scripts/convert_otel_2_perfetto.py:273-288 | a request begins with no memory of others, and each of its spans gets the line that `EveryLaneChosen` says, whatever was drawn before and comes after |
| LayoutOrder.TraceLanes | scripts/convert_otel_2_perfetto.py:264-288 | the same for every span of every request of a whole trace |
| TraceLayout.GatewayLanesMatchPeak | scripts/convert_otel_2_perfetto.py:290-304 | for any trace with gateway spans of positive length, listed in any order, the gateway gets exactly as many lanes as its busiest instant |
| SpanForest.RootedOnce | scripts/convert_otel_2_perfetto.py:179-185 | above the request a span hangs from there is nothing |
| SpanForest.RootedUnique | scripts/convert_otel_2_perfetto.py:179-185 | a span reaches a request at one height only |
| SpanForest.RootedBound | scripts/convert_otel_2_perfetto.py:172-195 | chains that reach a request are shorter than the input, whatever cycles the parent ids contain elsewhere |
| SpanForest.WalkMembers | scripts/convert_otel_2_perfetto.py:225-226 | the recursion visits exactly the span and everything below it |
| SpanForest.BelowOne | scripts/convert_otel_2_perfetto.py:179-185 | two spans at one height have nothing below them in common |
| SpanForest.WalkNoRepeat | scripts/convert_otel_2_perfetto.py:198-226 | the recursion visits no span twice, for arbitrary parent ids |
| SpanConvert.Trace.constructor | scripts/convert_otel_2_perfetto.py:172-195 | the child lists, roots and resolved links built are those of the file, in input order |
| SpanConvert.Trace.Convert | scripts/convert_otel_2_perfetto.py:198-226 | the recursion ends and converts exactly the span and what lies below it, once each |
| SpanConvert.Trace.ConvertRoot | scripts/convert_otel_2_perfetto.py:230-248 | one request's threads are converted with their own process ids, and their children collected in order |
| SpanConvert.Trace.GenerateSpans | scripts/convert_otel_2_perfetto.py:229-248 | every span ends with its final value, so no end time is shortened twice; each request's collected spans are its threads' children, in order |
| SpanConvert.FinalUnder | scripts/convert_otel_2_perfetto.py:246-248 | what is written below a thread span is determined by that thread and its request alone (field by field in `FinalFields`) |
| SpanConvert.FinalFields | scripts/convert_otel_2_perfetto.py:199-248 | a span two or more steps below a request ends with the process id of its thread, the request's id unless that is empty, an end 1000 ns earlier, and every other field as read |
| SpanConvert.FinalUntouched | scripts/convert_otel_2_perfetto.py:229-248 | every other span stays as it was read |
| SpanConvert.ConvertWitness | scripts/convert_otel_2_perfetto.py:199-248 | below a thread with process id 7 of request "r1", a span with process id 3 and no request id is written with 7 and "r1" |
| SpanConvert.Trace.SetTid | scripts/convert_otel_2_perfetto.py:257-261 | the recursion ends and writes the lane into exactly the span and what lies below it |
| SpanConvert.Trace.GatherOne | scripts/convert_otel_2_perfetto.py:391-402 | the recursion ends and gathers the span and what lies below it, in walking order |
| SpanGather.CollectedAll | scripts/convert_otel_2_perfetto.py:230-248 | the requests' `spans`, which `SpanConvert.Trace.GenerateSpans` builds, are exactly the spans two steps below a request, each once |
| SpanGather.EachWrittenOnce | scripts/convert_otel_2_perfetto.py:391-413 | for arbitrary parent ids the output holds every converted engine span once and no other |
| SpanLinks.IdsStable | scripts/convert_otel_2_perfetto.py:360-364 | a target that has an id keeps it |
| SpanLinks.IdsExact | scripts/convert_otel_2_perfetto.py:354-364 | correlation ids are injective over link targets if and only if the preset ids of linked spans differ from each other and are not below the number of linked spans without one |
| SpanLinks.FreshCount | scripts/convert_otel_2_perfetto.py:360-364 | the counter ends at the number of different link targets without a preset id |
| SpanLinks.ClashWitness | scripts/convert_otel_2_perfetto.py:360-364 | a preset id 0 clashes with the first id handed out |
| SpanLinks.FlowsPaired | scripts/convert_otel_2_perfetto.py:366-388 | each arrow is a start at its target and a finish at its source carrying one id |
| SpanLinks.GatewayArrow | scripts/convert_otel_2_perfetto.py:343-348 | a request that came through a converted gateway span gets an arrow between that span and its first one |
| SpanLinks.ArrowsExactly | scripts/convert_otel_2_perfetto.py:341-388 | there is an arrow between two spans if and only if the second was converted and the first is linked to it: the first span of a request that came through a gateway span to that alone, every other span to what its links name |
| SpanLinks.ArrowsOfInOrder | scripts/convert_otel_2_perfetto.py:353-388 | one span's links to converted spans are its arrows, each once and in order |
| SpanLinks.ArrowsConcat | scripts/convert_otel_2_perfetto.py:350-388 | the arrows of a list of spans are those of its parts, one after the other |
| SpanLinks.LinkGenerator.LinkSpan | scripts/convert_otel_2_perfetto.py:350-388 | one span's links give the specified ids and arrows |
| SpanLinks.LinkGenerator.LinkAll | scripts/convert_otel_2_perfetto.py:341-388 | the whole pass, with the gateway link replacing those of a request's first span, computes the specified ids and arrows |
| TraceConversion.FileDrawnClean | scripts/convert_otel_2_perfetto.py:198-304 | a file in which no span of a thread and no gateway span lasts exactly 1000 ns is drawn without overlap on any lane, whatever its parent ids |
| TraceConversion.FileGatewayLanes | scripts/convert_otel_2_perfetto.py:250-304 | gateway spans longer than 1000 ns get exactly as many lanes as are open at their busiest instant |
| TraceConversion.EmptyRequest | scripts/convert_otel_2_perfetto.py:270-272 | the layout pass fails exactly when some request has no span two steps below it |
| TraceConversion.PlacedExactly | scripts/convert_otel_2_perfetto.py:229-304 | placed are exactly the spans two steps below a request and the gateway spans, each once |
| TraceConversion.PlacedAreApart | scripts/convert_otel_2_perfetto.py:274-288 | no engine span is placed twice |
| TraceConversion.WriteLanes | scripts/convert_otel_2_perfetto.py:257-288 | every span ends with the lane of the placed span it is or lies below; all others keep 0 |
| TraceConversion.FileWrittenOnce | scripts/convert_otel_2_perfetto.py:405-413 | over the requests in file order and their spans in start order the output holds every converted engine span of the file once and no other |
| TraceConversion.ArrowsAreAnchored | scripts/convert_otel_2_perfetto.py:341-413 | every arrow written runs between two spans that are written |
| TraceArrows.DrawnFromFile | scripts/convert_otel_2_perfetto.py:229-304 | everything drawn is a gateway span, or a span two steps below a request in the process of its thread, 1000 ns shorter than in the file |
| TraceArrows.FileArrows | scripts/convert_otel_2_perfetto.py:341-388 | in terms of the file: there is an arrow from a span if and only if it is two steps below a request and its target is a converted span that its links name, or, if it leads a request that came through the gateway, that gateway span instead |
| TraceArrows.LeadsFirst | scripts/convert_otel_2_perfetto.py:265-268 | the span that leads a request starts no later than any other of it |
| GatherOrder.ParentsFirst | scripts/convert_otel_2_perfetto.py:391-402 | a span is written before every span below it |
| GatherOrder.SiblingsInOrder | scripts/convert_otel_2_perfetto.py:391-402 | of two spans with one parent, the one that comes first in the file is written first, with all that lies below it |
| GatherOrder.RequestsInTurn | scripts/convert_otel_2_perfetto.py:411-413 | requests are written in file order, the spans of each in start order |
| GatherOrder.SpansInTurn | scripts/convert_otel_2_perfetto.py:411-413 | each of those spans is written, with all that lies below it, before the next |
| TraceConversion.LinkUp | scripts/convert_otel_2_perfetto.py:341-388 | linking the sorted spans emits the specified ids and arrows between converted spans of the file |
| TraceConversion.GatherAll | scripts/convert_otel_2_perfetto.py:405-413 | the gathering loops write each request's spans in start order, each followed by what lies below it |
| TraceConversion.ConvertTrace | scripts/convert_otel_2_perfetto.py:440-453 | the passes in sequence: final spans, the specified layout, lanes, arrows and output, or failure exactly when some request has no span |
| Counting.SumByRounds | benchmark/hicache/bench_multiturn.py:263-267 | the clients per round add up to the total of the rounds per client |
| MultiTurn.ResolveRounds | benchmark/hicache/bench_multiturn.py:235-250 | the two limits chosen, or the error, for every combination of flags |
| MultiTurnSafety.StepSafe | benchmark/hicache/bench_multiturn.py:388-541 | every step of every thread keeps the safety invariant |
| MultiTurnSafety.RunSafe | benchmark/hicache/bench_multiturn.py:388-541 | in every interleaving with any failures a client with rounds left and no failure has exactly one outstanding request and nobody else has any; the question stack is never popped empty; sent minus completed is what is in flight or unhandled and respects the limit; every round is completed, still to be asked, failed or outstanding; a thread that has left found the progress bar full, and it stays full |
| MultiTurnSafety.FullExactly | benchmark/hicache/bench_multiturn.py:414-415 | the progress bar is full exactly when nothing is left to ask or answer and no request raised past it |
| MultiTurnBarrier.RunBarrier | benchmark/hicache/bench_multiturn.py:513-538 | in every run the barrier's counters are what they stand for |
| MultiTurnProgress.RoundsAreSeparated | benchmark/hicache/bench_multiturn.py:513-538 | with the barrier on, a request anywhere in the system is for the open round and all clients have finished all earlier ones |
| MultiTurnProgress.RestIs | benchmark/hicache/bench_multiturn.py:402-541 | when only polling is possible the driver has ended, both threads poll for ever, with nothing to send or with no request allowed in flight, or the sender is blocked by responses the handler left behind |
| MultiTurnProgress.RestMeansDone | benchmark/hicache/bench_multiturn.py:402-541 | when only polling is possible, every round of every client is complete if and only if no response failed or was left unhandled and one request may be in flight (or there is no client) |
| MultiTurnProgress.FailureBlocks | benchmark/hicache/bench_multiturn.py:444-447 | with the barrier on nobody gets past the round after the one a failed client stopped in |
| MultiTurnProgress.DoneTotals | benchmark/hicache/bench_multiturn.py:458-482 | a complete run recorded one response per client and round, and per round one per client that has it |
| MultiTurnProgress.StepWork | benchmark/hicache/bench_multiturn.py:402-541 | every step but polling uses up work |
| MultiTurnProgress.RunsAreBounded | benchmark/hicache/bench_multiturn.py:402-541 | no run does more than ten steps of work per round, six per client and two more |
| MultiTurnExit.ExitIsSafe | benchmark/hicache/bench_multiturn.py:414-415 | the exit test passes exactly when nothing is ready, held, being sent or in flight, every client has reached its last round and no request raised past the progress bar; it passes once every round is complete |
| MultiTurnExit.HandlerLeavesDone | benchmark/hicache/bench_multiturn.py:539-541 | a handler that has left has completed every round if and only if no response failed, is queued or is about to be put |
| MultiTurnExit.HangsExactly | benchmark/hicache/bench_multiturn.py:402-541 | for every setting: at rest the bar is full if and only if no request raised past it, every failed client failed in its last round (with the barrier, a client with the most rounds), and a request is allowed in flight at all or there is no client; otherwise both threads poll for ever; when it is full and no response is left unhandled the driver has ended, unless no request is allowed in flight, when the sender never gets to its exit test |
| MultiTurnExit.HungForever | benchmark/hicache/bench_multiturn.py:402-541 | a driver that hangs, for failures or for lack of room, does so whatever happens next |
| MultiTurnExit.FailureWitness | benchmark/hicache/bench_multiturn.py:444-447 | a client with two rounds whose first request fails: whatever happens next, the exit test never passes |
| MultiTurnExit.NoRoomWitness | benchmark/hicache/bench_multiturn.py:402-415 | with one client and `--max-parallel 0` nothing fails and the driver polls for ever |
| MultiTurnExit.LostResponseWitness | benchmark/hicache/bench_multiturn.py:388-394 | a handler that times out just before the last request is counted leaves before its response is put, and the sender waits for ever |
| MultiTurnOrder.FirstReadyFirstSent | benchmark/hicache/bench_multiturn.py:193-205 | with the "fifo" policy, in every run, requests leave the ready queue in the order they became ready |
| MultiTurnOrder.FirstHeldFirstReady | benchmark/hicache/bench_multiturn.py:513-536 | with the barrier requests become ready in the order they were held, in every run and with any policy |
| MultiTurnOrder.FirstPutFirstHandled | benchmark/hicache/bench_multiturn.py:388-400 | the handler gets responses in the order they were put |
| WorkloadGenerator.ReadyQueue.Append | benchmark/hicache/bench_multiturn.py:193-195 | the item is queued last |
| WorkloadGenerator.ReadyQueue.Pop | benchmark/hicache/bench_multiturn.py:197-208 | nothing from an empty queue under any policy; the first or the drawn item; an error for an unknown policy |
| WorkloadGenerator.Generator.constructor | benchmark/hicache/bench_multiturn.py:263-303 | the tables and the stack size, and the initial state of the transition system |
| WorkloadGenerator.Generator.SenderPoll | benchmark/hicache/bench_multiturn.py:404-412 | polling takes the polling step |
| WorkloadGenerator.Generator.SenderTake | benchmark/hicache/bench_multiturn.py:405-407 | the pop takes the sender's step, or raises under an unknown policy |
| WorkloadGenerator.Generator.SenderStartTask | benchmark/hicache/bench_multiturn.py:408-409 | starting the task and counting it takes the next step |
| WorkloadGenerator.Generator.RequestReturns | benchmark/hicache/bench_multiturn.py:391-394 | the request function returns, successful or not, and has updated the progress bar |
| WorkloadGenerator.Generator.PutResponse | benchmark/hicache/bench_multiturn.py:394-394 | putting the response is a step of its own |
| WorkloadGenerator.Generator.RequestRaises | benchmark/hicache/bench_multiturn.py:395-400 | an exception puts one failed response and leaves the progress bar alone |
| WorkloadGenerator.Generator.SenderTestBar | benchmark/hicache/bench_multiturn.py:414-415 | the sender's exit test takes its step |
| WorkloadGenerator.Generator.HandlerTimesOut | benchmark/hicache/bench_multiturn.py:441-443 | a timeout is possible exactly while no response is queued |
| WorkloadGenerator.Generator.HandlerTestBar | benchmark/hicache/bench_multiturn.py:539-541 | the handler's exit test takes its step |
| WorkloadGenerator.Generator.HandlerReceive | benchmark/hicache/bench_multiturn.py:439-443 | taking a response is the handler's first step |
| WorkloadGenerator.Generator.HandlerDrop | benchmark/hicache/bench_multiturn.py:444-447 | a failed response is counted and dropped |
| WorkloadGenerator.Generator.HandlerCount | benchmark/hicache/bench_multiturn.py:458-482 | recording a success takes its step; every table lookup succeeds |
| WorkloadGenerator.Generator.AskNext | benchmark/hicache/bench_multiturn.py:484-516 | the next question is asked exactly when the client has a round left, from a stack that is not empty |
| WorkloadGenerator.Generator.CountForBarrier | benchmark/hicache/bench_multiturn.py:520-526 | the barrier's counting takes its step |
| WorkloadGenerator.Generator.HandlerAskNext | benchmark/hicache/bench_multiturn.py:484-526 | asking and counting together are one step of the transition system |
| WorkloadGenerator.Generator.HandlerReleaseOne | benchmark/hicache/bench_multiturn.py:534-538 | one iteration of the release loop, or its end, is one step |
| WorkloadGenerator.CountAbove | benchmark/hicache/bench_multiturn.py:264-266 | the number of clients with more than r rounds |
| WorkloadGenerator.SumOf | benchmark/hicache/bench_multiturn.py:267-267 | the total of all clients' rounds |
| WorkloadGenerator.CountNeed | benchmark/hicache/bench_multiturn.py:292-292 | the number of follow-up questions all clients need |
| ServingSafety.TurnExists | benchmark/hicache/bench_serving.py:97-99 | the current turn exists for every conversation that is not over |
| ServingSafety.AnsweredConsistent | benchmark/hicache/bench_serving.py:170-188 | a successful answer extends the dialogue by one exchange with its real lengths |
| ServingSafety.RunInv | benchmark/hicache/bench_serving.py:458-491 | in every run a conversation is in exactly one place, its dialogue alternates in order and the stored lengths are the real ones |
| ServingResults.SpentIsContext | benchmark/hicache/bench_serving.py:100-104 | the prompt length computed is the real length of all earlier exchanges plus the input |
| ServingResults.RunLog | benchmark/hicache/bench_serving.py:97-188 | in every run each conversation's turns are sent once each, in order, with those prompt lengths |
| ServingResults.PutBackNeverBlocks | benchmark/hicache/bench_serving.py:184-188 | the bounded queue always has room for a conversation that comes back |
| ServingResults.FetchesBounded | benchmark/hicache/bench_serving.py:266-273 | no run fetches more than the number of turns |
| ServingResults.FetchTotals | benchmark/hicache/bench_serving.py:261-281 | at rest exactly as many turns as exist were fetched if and only if failures hit last turns only |
| ServingResults.FetchWitness | benchmark/hicache/bench_serving.py:266-273 | a conversation of two turns that fails in the first is at rest after one fetch |
| ServingResults.RunsAreBounded | benchmark/hicache/bench_serving.py:261-281 | every run ends, within four steps per turn |
| ServingOrder.FirstQueuedFirstFetched | benchmark/hicache/bench_serving.py:184-188 | in every run conversations are fetched in the order they entered the queue: input order, then the order they were put back |
| ServingOrder.LimitKept | benchmark/hicache/bench_serving.py:394-410 | in every run no more requests are running, or waiting to be put back, than the concurrency limit allows |
| ServingTurn.RequestFuncInput.BeginTurn | benchmark/hicache/bench_serving.py:97-114 | the message is appended and the prompt length is the real context plus the input |
| ServingTurn.RequestFuncInput.FinishTurn | benchmark/hicache/bench_serving.py:170-188 | the answer and its real length are stored; says whether the conversation is put back |
| ChatFilter.FilterTurns | benchmark/hicache/data_processing.py:56-84 | the method computes the kept turns, which `KeptTurns` says by position and field, and their token counts |
| ChatFilter.KeptTurns | benchmark/hicache/data_processing.py:56-84 | kept are exactly the turns within every limit that is set, in order, each with its prompt, the prompt's tokens, and the fixed output length or that of its completion |
| ChatFilter.TotalsAreSums | benchmark/hicache/data_processing.py:82-83 | the two token counts are the sums of the input and of the output lengths |
| ChatFilter.AllTotalsAreSums | benchmark/hicache/data_processing.py:82-90 | and so are the totals over all conversations |
| ChatFilter.SurvivorsInOrder | benchmark/hicache/data_processing.py:85-87 | the conversations with a turn left, in order |
| ChatFilter.KeepWitness | benchmark/hicache/data_processing.py:56-84 | a turn of 3 prompt and 7 completion tokens is kept as 3 and 7 |
| ChatFilter.OneRound | benchmark/hicache/data_processing.py:53-87 | one pass computes the specified one: the surviving conversations are appended in order, up to the target |
| ChatFilter.CommonFilterChat | benchmark/hicache/data_processing.py:37-91 | the result is the first `num_requests` of the survivors repeated cyclically, with their token totals; it is what some number of passes collects |
| ChatFilter.StuckWithoutSurvivors | benchmark/hicache/data_processing.py:52-87 | some number of passes over the dataset collects enough if and only if nothing is asked for or some conversation of it survives |
| ChatFilter.PassLength | benchmark/hicache/data_processing.py:53-87 | a pass adds every survivor, or as many as are missing |
| ChatFilter.StuckWitness | benchmark/hicache/data_processing.py:52-87 | one conversation whose only prompt is too long: asking for one never ends |
| ChatFilter.FilteredIsServable | benchmark/hicache/data_processing.py:85-91 | every conversation returned has a turn, as the serving benchmark needs |
| UserGenerator.IntendedInsertSorts | benchmark/hicache/bench_mix.py:262-266 | inserting at the position searched for keeps the queue sorted by start time |
| UserGenerator.InsertSortsExactly | benchmark/hicache/bench_mix.py:259-267 | the insert as written keeps a sorted queue sorted if and only if the queue is empty or the new user does not start after everyone queued |
| UserGenerator.InsertWitness | benchmark/hicache/bench_mix.py:259-267 | two pushes that leave the queue in the wrong order |
| UserGenerator.TurnsConserved | benchmark/hicache/bench_mix.py:195-276 | every answered round led to a next round or to the end of its user |
| UserGenerator.Generator.TablesConserved | benchmark/hicache/bench_mix.py:211-267 | in every state the answers counted for a round are the requests counted for the next plus the users that ended, who were counted when generated |
| UserGenerator.Generator.DrawRounds | benchmark/hicache/bench_mix.py:200-207 | the first ratio above the drawn number, else all rounds |
| UserGenerator.Generator.Gen | benchmark/hicache/bench_mix.py:195-227 | a new user with the drawn number of rounds; the tables stay the tallies of all users |
| UserGenerator.Generator.Push | benchmark/hicache/bench_mix.py:230-267 | counts the answered round; an unfinished user starts its next round and is queued where the code puts it |
| UserGenerator.Generator.FindPlace | benchmark/hicache/bench_mix.py:262-267 | where the loop variable ends up |
| UserGenerator.Generator.Pop | benchmark/hicache/bench_mix.py:270-276 | the head of the queue if it is due, else a new user |
| Redirects.RepeatIsRing | benchmark/line_retrieval/gen_data.py:71-74 | coming back to a visited line means the chain never ends |
| Redirects.ChainNoRepeat | benchmark/line_retrieval/gen_data.py:66-74 | a chain that ends visits no line twice |
| Redirects.EndsOnce | benchmark/line_retrieval/gen_data.py:66-69 | a chain that ends has one terminal |
| Redirects.ResolveLine | benchmark/line_retrieval/gen_data.py:59-76 | finds the ring or the chain and terminal, within as many steps as there are lines |
| Redirects.ResolveAll | benchmark/line_retrieval/gen_data.py:56-76 | every resolved line ends with its terminal's original value although values are overwritten while being read, and exactly the lines that run into a ring are marked |
| LineQuery.GroupByHoops | benchmark/line_retrieval/gen_data.py:78-83 | each group holds exactly the lines of that many hops that meet no ring, in order |
| LineQuery.FilterQueries | benchmark/line_retrieval/bench_sglang.py:41-46 | exactly the queries inside the truncated context are kept, in order |
| LineQuery.FilteredInOrder | benchmark/line_retrieval/bench_sglang.py:42-46 | the queries kept stay in the group's order |
| LineQuery.KeptExactly | benchmark/line_retrieval/bench_sglang.py:42-46 | a query is kept if and only if it lies before the source line, runs into no ring, and no line on its way lies after the source line |
| LineQuery.PositionInside | benchmark/line_retrieval/bench_sglang.py:47-49 | the position is valid if and only if some query is left |
| LineQuery.PositionExactly | benchmark/line_retrieval/bench_sglang.py:47-49 | a percentage below 1 picks the entry that far into the list, rounded down; from 1 on, the last |
| LineQuery.SelectQuery | benchmark/line_retrieval/bench_sglang.py:41-50 | a query kept by the filter; an error for an unknown number of hops, or exactly when none is kept |
| LineQuery.KeptIsAnswerable | benchmark/line_retrieval/bench_sglang.py:42-52 | a kept query's chain and terminal lie in the truncated context, and resolving it there gives the recorded value |
| LineQuery.SplitBody | benchmark/line_retrieval/bench_sglang.py:52-62 | the four parts concatenate to the context |
| Strings.SplitJoin | benchmark/reasoning_benchmark/answer_extraction.py:9-9 | splitting a join of separator-free parts gives the parts back |
| Strings.JoinSplit | benchmark/reasoning_benchmark/answer_extraction.py:9-9 | joining a split gives the string back, and no part contains the separator |
| Strings.SplitConcat | benchmark/reasoning_benchmark/answer_extraction.py:9-9 | splitting around a separator gives what its two sides split into |
| Boxed.UnmatchedExactly | benchmark/reasoning_benchmark/answer_extraction.py:185-191 | the scan stops at a brace if and only if the text before it is balanced |
| Boxed.ClosingBrace | benchmark/gsm8k/eval_sglang.py:54-62 | the loop finds the first brace closing as many as were opened |
| Boxed.SearchBoxed | benchmark/gsm8k/eval_sglang.py:41-69 | the method computes the specified answer |
| Boxed.SearchComplete | benchmark/gsm8k/eval_sglang.py:41-69 | a balanced text enclosed in the last box is returned |
| Boxed.SearchSound | benchmark/gsm8k/eval_sglang.py:41-69 | whatever is returned is balanced and enclosed by the last box and its brace |
| Boxed.ScanPiece | benchmark/reasoning_benchmark/answer_extraction.py:185-196 | the inner loop finds the first unmatched brace |
| Boxed.ExtractBoxedAnswers | benchmark/reasoning_benchmark/answer_extraction.py:182-197 | one answer for each piece with an unmatched brace, in order |
| Boxed.ExtractorsAgree | benchmark/reasoning_benchmark/answer_extraction.py:182-197 | on every text: the two extractors agree if and only if the text that the last `\boxed{` encloses is also that of the last `boxed{` closed before the next one, with no percent sign after it there, or there is neither |
| Boxed.LastIsTaken | benchmark/reasoning_benchmark/answer_extraction.py:182-197 | the last answer of the second extractor is that of the last `boxed{` closed before the next one, with its brace before a percent sign |
| Boxed.LastBoxAgrees | benchmark/reasoning_benchmark/answer_extraction.py:182-197 | on a text without a further `boxed{` inside or after its last box they agree if and only if no percent sign follows the box |
| Boxed.PercentWitness | benchmark/reasoning_benchmark/answer_extraction.py:192-195 | after a box followed by a percent sign the second extractor keeps the brace |
| Boxed.WordWitness | benchmark/reasoning_benchmark/answer_extraction.py:182-197 | after a box followed by `boxed{6}` without a backslash the second extractor takes 6 |
| Fracs.FixFracsLoop | benchmark/reasoning_benchmark/answer_extraction.py:8-37 | the loop with its early return computes the specified string, which the rows below describe |
| Fracs.LeftAlone | benchmark/reasoning_benchmark/answer_extraction.py:18-22 | if some `\frac` has neither a brace nor two characters before the next one, the text is left alone |
| Fracs.EveryFracBraced | benchmark/reasoning_benchmark/answer_extraction.py:13-36 | otherwise every `\frac` of the result is followed by a brace |
| Fracs.AfterBrace | benchmark/reasoning_benchmark/answer_extraction.py:15-16 | a `\frac` followed by a brace stays |
| Fracs.AfterTwo | benchmark/reasoning_benchmark/answer_extraction.py:23-29 | two characters that are not opening braces become two arguments in braces |
| Fracs.AfterOne | benchmark/reasoning_benchmark/answer_extraction.py:30-35 | a character before an opening brace becomes an argument in braces |
| Fracs.BeforeFrac | benchmark/reasoning_benchmark/answer_extraction.py:9-14 | what comes before a `\frac` is fixed on its own |
| Fracs.FreeStays | benchmark/reasoning_benchmark/answer_extraction.py:9-11 | a text without `\frac` stays as it is |
| Fracs.FracWitness | benchmark/reasoning_benchmark/answer_extraction.py:8-37 | `\frac12` becomes `\frac{1}{2}` |
| Fracs.FixedPiece | benchmark/reasoning_benchmark/answer_extraction.py:15-35 | bracing makes no new fraction and needs no further bracing |
| Fracs.FixIdempotent | benchmark/reasoning_benchmark/answer_extraction.py:8-37 | fixing twice is fixing once, for every string |
| Fracs.FixAddsBracesOnly | benchmark/reasoning_benchmark/answer_extraction.py:8-37 | apart from braces the string is unchanged |
| WheelIndex.LinkNamesWheel | scripts/update_nightly_whl_index.py:96-118 | a link made for a wheel is recognised under exactly that wheel's name |
| WheelIndex.LinkLeadsToUrl | scripts/update_nightly_whl_index.py:94-96 | the text between the first two quotes of a made link is the URL |
| WheelIndex.NameExactly | scripts/update_nightly_whl_index.py:116-118 | a line has a wheel name if and only if one stands in it as a link text; of several, it is the first |
| WheelIndex.DedupFirst | scripts/update_nightly_whl_index.py:111-121 | deduplication keeps exactly one link per name, the first |
| WheelIndex.DedupInOrder | scripts/update_nightly_whl_index.py:111-121 | deduplication keeps the first link of each name, in order |
| WheelIndex.DedupTail | scripts/update_nightly_whl_index.py:108-121 | deduplicating the older links beforehand changes nothing |
| WheelIndex.DedupRepeat | scripts/update_nightly_whl_index.py:108-121 | adding a batch of links again changes nothing |
| WheelIndex.ReadLinks | scripts/update_nightly_whl_index.py:81-85 | exactly the link lines of the file, in order |
| WheelIndex.UpdateWheelIndex | scripts/update_nightly_whl_index.py:77-150 | the file written is the specified one; unchanged when there is no new wheel |
| WheelIndex.ReadBack | scripts/update_pr_whl_index.py:66-125 | the next run reads exactly the links this run wrote, which follow the two heading lines of the file |
| WheelIndex.UpdateLinks | scripts/update_nightly_whl_index.py:108-150 | after one update the file holds the deduplication of new and old links |
| WheelIndex.HistoryLinks | scripts/update_nightly_whl_index.py:77-150 | after any sequence of runs the file is the deduplication of all batches, newest first |
| WheelIndex.EveryWheelOnce | scripts/update_pr_whl_index.py:66-125 | starting from no file, every wheel ever published is listed exactly once, with its latest link, and nothing else is |
| WheelIndex.UpdateTwice | scripts/update_nightly_whl_index.py:77-150 | running one update twice writes the same file |
| WheelIndex.MadeLinksAreGood | scripts/update_nightly_whl_index.py:94-98 | the links the scripts make are lines they recognise |

## Left out

- Radix cache: the disabled mode, access times, hit counts and priorities (eviction is proved for every order the
  strategies could choose), page hashes and cache events, host-memory copies, the tensor device, the fallback of
  `insert` without values, `pretty_print` and the flattening helpers.
- RadixCaching.RadixCache.LockOne: requires a count that is not negative, as it is while every lock given back was taken.
- RequestCaching.Request.CacheUnfinished: requires that the key extends what the request holds and that its row
  reads the held slots, which the preceding match and lock establish; rewriting `prefix_indices` is the same row.
- RequestRuns.RunGood: the allocator is only assumed to hand out slots that are in use nowhere; matching and locking
  at admission are one step, as no eviction comes between them; retraction and sessions are not modelled.
- RadixKeys.Match: the comparison of keys of which only one is a pair view is computed but not specified further.
- RadixKeys.WalkStep: requires an edge of whole pages and one mode for all keys, as `page_aligned` and the cache's
  `is_eagle` flag provide.
- PagedTree.TokenTree.Insert: the slots are those of the unit tree it stands for, one for each page; sizes, locks and
  leaves are kept by `RadixCaching` alone.
- SpanLinks.LinkGenerator.LinkAll: requires that every request has a span, without which the layout pass before it
  has already failed.
- The rest of the serving engine (scheduling policy, allocators, sliding-window, Mamba and hierarchical caches, kernels,
  gateway, storage backends).
- Trace converter: loading and classifying the input, event and metadata records, scaling to microseconds,
  `host_id` and `bootstrap_room`, thread names and writing the file; gateway spans have no children here.
- TraceConversion.ConvertTrace: lanes are written into the spans after all are placed rather than one by one, which no
  lane search can tell; requires that no span read carries a process id of the output yet, which only the converter
  assigns.
- SpanConvert.Trace.GenerateSpans: missing `rid` or `pid` attributes, a KeyError in the source, are not modelled.
- Multi-turn driver: prompts, payloads and histories, sleeping, the heartbeat and the final statistics.
- WorkloadGenerator.Generator.HandlerCount: requires the invariant of `MultiTurnSafety.RunSafe`, proved for every
  reachable state, from which the table lookups are shown to succeed.
- WorkloadGenerator.Generator.AskNext: requires the same invariant.
- Serving benchmark: the HTTP exchange, the warm-up request, the profiler and the metrics; conversations have at
  least one turn, as `ChatFilter.FilteredIsServable` guarantees.
- ChatFilter.CommonFilterChat: its precondition is the condition under which the source returns at all.
- Mixed-load benchmark: the sender and handler threads and the texts.
- Line retrieval: drawing the lines, the few-shot suffix, scoring; the value of a line that runs into a ring is
  left unspecified.
- Answer extraction: the other string normalisers and regular expressions.
- Wheel indexes: the root index, hashing, newline translation; wheel names and URLs hold no angle bracket
  or newline.
