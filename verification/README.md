# mnemo: a verified model

mnemo is a memory service: it ingests conversation episodes into a temporal knowledge graph, searches that
graph, personalizes embeddings, and synchronizes several nodes without a leader. This project models the parts
whose correctness is a statement about whole runs or about every input, and proves it.

| files | component |
|---|---|
| `NodeIds`, `HybridClock`, `Causality`, `HlcRuns`, `VectorClocks` | hybrid logical clocks and vector clocks over every causal history |
| `Slots`, `Crdts`, `Gossip` | the replicated data types, and every gossip run of any number of nodes with loss, duplication and reordering |
| `Merkle` | the bucketed anti-entropy digest |
| `KnowledgeGraph`, `StoredWalks`, `BreadthFirst`, `ShortestPath`, `Traversal`, `Communities` | graph search, subgraph extraction, community detection |
| `FairBatch`, `Supersession`, `SleepDigest` | the ingest worker: batch selection, fact supersession, idle-time digests |
| `JsonText`, `JsonRepair`, `ArrayObjects` | recovery of truncated model output |
| `LoraMath`, `Lora` | the embedding adapter over the reals |
| `Chunker`, `Quantizer` | fixed-size chunking and int8 quantization |

`dafny verify dfyconfig.toml` checks everything.

How the model reads the code:

- Objects that the code updates in place are classes; their methods are specified by functions on values, and the
  run theorems are about those functions. Loops stay loops. Hash-map iteration is an arbitrary choice.
- What an operation computes is also stated in plain terms, without the functions that its proof goes through: the
  searches are held against walks over stored edges (`StoredWalks`), a stored fact against the fields of its edge, a
  batch against the pending list, labels against counts of edges.
- Clock readings, fresh ids, the outcome of calls that can fail, the hash function, the square root, lower-casing and
  white space are parameters. The hash is required to be injective only where a lemma says so; the square root is
  given by its defining equation.
- Counters, wall times and lengths are unbounded integers; `CounterFitsInU32` shows when the 32-bit clock counter
  cannot overflow. 32-bit floats are reals. Positions in texts count characters.
- The store behaves like the in-memory one used with the graph engine, or like the one in Redis where the two differ
  in the conflicting edges they list. Any call of the ingest pipeline that can fail may fail.

Where the code and its documentation differ, the model follows the code:

- `ORSet` is described as a conflict-free observed-remove set, but its merge is a plain union without tombstones;
  `RemovalSurvivesIff` gives the exact condition under which a removal survives a merge, and `RemovalSurvivesRunIff`
  a run.
- `MerkleDigest` promises the prefixes that differ. The root covers hashes but not keys, and the code compares buckets
  only if the roots differ. So the diff names the differing prefixes exactly if the hash sequences differ or no bucket
  does (`DiffNamesTheDifferencesIff`), and an empty diff means equal roots exactly if equal buckets mean equal hash
  sequences (`EmptyDiffMeansEqualRootsIff`). For lists grouped by prefix the second always holds, and the first exactly
  if the hash sequences differ or the prefixes agree item by item (`DiffIsExact`). All of this needs hashes of one
  length that is at least two and not five, which is exactly when roots decide hash sequences (`RootsDecideIff`).
- `find_shortest_path` silently loses the steps of a found path whose entity does not load (`DanglingEdgeLosesSteps`);
  `KeepsStepsIff` gives the exact condition.
- The strict order of vector clocks compares clocks structurally, so a stored zero, which no run produces but a received
  clock may hold, can mislead it (`ZeroSlotBreaksTheOrder`); `OrderIsPointwiseIff` and `PositiveIffOrdered` say when.
- The ingest worker ignores some failing calls, and then a superseded belief can stay valid beside the new fact;
  `StoredIsNewestIff` gives the exact condition for one fact, and `ProcessAll` carries it over whole runs.
- `complete_json_prefix` does not close a text that ends in the middle of an escape (`ClosedIffNotMidEscape`), and
  only then completing again adds more (`CompletionIsIdempotent`).
- `chunk_fixed` does not end for every size and overlap; `AlwaysEndsIff` gives the exact condition.
- `quantize_int8` is documented as mapping to -128..127; the code uses the levels 0..255.

## Model

| member | source | states |
|---|---|---|
| `HybridLogicalClock.CmpIsTotalOrder` | crates/mnemo-core/src/sync.rs:107-114 | timestamps compare equal only if identical, and comparison is antisymmetric: a fully deterministic order |
| `HybridLogicalClock.CmpIsTransitive` | crates/mnemo-core/src/sync.rs:107-114 | the timestamp order is transitive |
| `HybridLogicalClock.CmpIsLexicographic` | crates/mnemo-core/src/sync.rs:107-114 | wall time decides, on a tie the counter, on a tie the node id: a proper prefix comes first, otherwise the smaller first differing character |
| `HybridLogicalClock.Tick` | crates/mnemo-core/src/sync.rs:134-147 | the clock after `now` is strictly later, whatever the reading |
| `HybridLogicalClock.Absorb` | crates/mnemo-core/src/sync.rs:151-173 | the clock after `receive` is strictly later than both the local clock and the remote stamp |
| `HybridLogicalClock.HybridClock.Now` | crates/mnemo-core/src/sync.rs:134-147 | new state and stamp; stamps grow even if the wall clock goes backward |
| `HybridLogicalClock.HybridClock.Receive` | crates/mnemo-core/src/sync.rs:151-173 | the four branches yield the latest of three wall times and a counter above every source that shows it; the stamp is after the remote one |
| `HlcRuns.HappensBeforeImpliesSmallerStamp` | crates/mnemo-core/src/sync.rs:134-173 | in every run, for any readings, happens-before implies a smaller timestamp |
| `HlcRuns.StampsAreUnique` | crates/mnemo-core/src/sync.rs:134-173 | no two events of a run, at one node or several, get the same timestamp |
| `HlcRuns.WallIsLargestReadingInPast` | crates/mnemo-core/src/sync.rs:134-173 | the wall part is exactly the largest reading in the event's causal past |
| `HlcRuns.CounterIsLongestChain` | crates/mnemo-core/src/sync.rs:134-173 | the counter is exactly one less than the longest causal chain of events with the same wall part that ends at the event; for wall part zero it is exactly that length |
| `HlcRuns.CounterFitsInU32` | crates/mnemo-core/src/sync.rs:134-173 | in runs of fewer than 2^32 events the counter does not overflow |
| `Slots.MergeInto` | crates/mnemo-core/src/sync.rs:207-212 | the merge loop, in any visiting order, computes the point-wise maximum |
| `Slots.IsLeq` | crates/mnemo-core/src/sync.rs:215-222 | the early-exit loop decides the point-wise order |
| `Slots.JoinIsLeastUpperBound` | crates/mnemo-core/src/sync.rs:207-212 | merging yields the least upper bound |
| `Slots.JoinIsSemilattice` | crates/mnemo-core/src/sync.rs:277-282 | merging is commutative, associative and idempotent |
| `VectorClocks.VectorClock.Increment` | crates/mnemo-core/src/sync.rs:195-199 | one slot grows by one, and its new value is returned |
| `VectorClocks.VectorClock.Merge` | crates/mnemo-core/src/sync.rs:207-212 | point-wise maximum of both clocks |
| `VectorClocks.VectorClock.IsStrictlyBefore` | crates/mnemo-core/src/sync.rs:225-227 | point-wise at most and structurally different |
| `VectorClocks.VectorClock.IsConcurrentWith` | crates/mnemo-core/src/sync.rs:230-232 | neither clock is at most the other |
| `VectorClocks.ReachableClocksArePositive` | crates/mnemo-core/src/sync.rs:195-212 | no clock of a run ever stores a zero slot |
| `VectorClocks.StructuralOrderIsPointwise` | crates/mnemo-core/src/sync.rs:225-227 | on clocks without zero slots the structural strict order is the point-wise one |
| `VectorClocks.OrderIsPointwiseIff` | crates/mnemo-core/src/sync.rs:225-227 | for any two clocks, received ones included, the structural strict order is the point-wise one iff the clocks are identical or some reading differs |
| `VectorClocks.PositiveIffOrdered` | crates/mnemo-core/src/sync.rs:225-227 | a clock is ordered point-wise against every clock without zero slots iff it has no zero slot itself |
| `VectorClocks.ZeroSlotBreaksTheOrder` | crates/mnemo-core/src/sync.rs:225-227 | witness for both: with a stored zero, two clocks that read alike are each strictly before the other |
| `VectorClocks.ClocksCaptureCausality` | crates/mnemo-core/src/sync.rs:195-232 | in every run event i happens before j iff i's clock is strictly before j's, and concurrent clocks mean neither is in the other's past |
| `VectorClocks.SlotCountsPast` | crates/mnemo-core/src/sync.rs:195-222 | a slot of an event's clock is the number of that node's events in its causal past, the event itself included |
| `Crdts.LWWMap.Set` | crates/mnemo-core/src/sync.rs:456-470 | applied iff no entry with the same or a later stamp is held; whole new state |
| `Crdts.LWWMap.Remove` | crates/mnemo-core/src/sync.rs:473-487 | the same for a tombstone |
| `Crdts.LWWMap.Merge` | crates/mnemo-core/src/sync.rs:512-523 | per key the later stamp wins, the local entry on a tie |
| `Crdts.MergeMapsCommutesIff` | crates/mnemo-core/src/sync.rs:512-523 | merging commutes exactly when equal stamps mean equal entries |
| `Crdts.LWWRegister.Set` | crates/mnemo-core/src/sync.rs:301-309 | only a strictly later stamp replaces, so the register holds the later of the two |
| `Crdts.LWWRegister.Merge` | crates/mnemo-core/src/sync.rs:312-317 | the later of the two registers, on a tie the local one |
| `Crdts.GCounter.IncrementBy` | crates/mnemo-core/src/sync.rs:261-264 | one slot and the value grow by the amount |
| `Crdts.GCounter.Value` | crates/mnemo-core/src/sync.rs:267-269 | the sum of all slots, in any visiting order |
| `Crdts.GCounter.Merge` | crates/mnemo-core/src/sync.rs:277-282 | point-wise maximum |
| `Crdts.SumDependsOnReadings` | crates/mnemo-core/src/sync.rs:267-274 | counters that read alike for every node have the same value, zero slots or not |
| `Crdts.ORSet.Add` | crates/mnemo-core/src/sync.rs:358-375 | a tag with the node's next sequence number is added to the element's tags |
| `Crdts.ORSet.Remove` | crates/mnemo-core/src/sync.rs:379-381 | the element and all its observed tags go; sequence numbers stay |
| `Crdts.ORSet.Merge` | crates/mnemo-core/src/sync.rs:412-424 | union of all element and tag pairs, point-wise maximum of sequence numbers |
| `Crdts.UnionIsSemilattice` | crates/mnemo-core/src/sync.rs:412-424 | set merging is commutative, associative and idempotent |
| `Crdts.RemovalSurvivesIff` | crates/mnemo-core/src/sync.rs:379-424 | after a merge a removed element is absent iff the other side does not hold it |
| `Gossip.EveryRunIsGood` | crates/mnemo-core/src/sync.rs:134-523 | the invariant that ties every copy of every replica to the changes that reached it holds in every gossip run |
| `Gossip.StepIsLogged` | crates/mnemo-core/src/sync.rs:358-523 | what each local operation writes, adds or inserts is logged as such, by the node it happens at |
| `Gossip.StepReaches` | crates/mnemo-core/src/sync.rs:134-523 | a local change reaches its own node, a delivery brings exactly what the delivered copy knew, and no other node changes |
| `Gossip.StampsAndTagsAreUnique` | crates/mnemo-core/src/sync.rs:358-375 | over a run no two writes share a stamp and no two set insertions a tag |
| `Gossip.TagsCountInserts` | crates/mnemo-core/src/sync.rs:368-375 | a node's k-th insertion carries that node's tag k |
| `Gossip.EntryIsLatestKnownWrite` | crates/mnemo-core/src/sync.rs:456-523 | each entry, tombstones included, is the received write of its key with the greatest stamp |
| `Gossip.SameWritesSameMap` | crates/mnemo-core/src/sync.rs:456-523 | strong eventual consistency: copies that received the same writes hold equal maps |
| `Gossip.SameWritesSameEntry` | crates/mnemo-core/src/sync.rs:456-523 | key by key: copies that received the same writes of a key agree on it |
| `Gossip.KeyIsRegister` | crates/mnemo-core/src/sync.rs:290-321 | in every run a key that is only set evolves like a register: sets and deliveries keep the later stamp |
| `Gossip.RegisterIsLatestKnownSet` | crates/mnemo-core/src/sync.rs:290-321 | in every run a register holds the received set with the greatest stamp |
| `Gossip.SameSetsSameRegister` | crates/mnemo-core/src/sync.rs:290-321 | registers that received the same sets are equal |
| `Gossip.MergeCommutesInEveryRun` | crates/mnemo-core/src/sync.rs:512-523 | any two copies of a run merge commutatively although ties keep the local entry |
| `Gossip.OwnerDominates` | crates/mnemo-core/src/sync.rs:255-282 | no copy holds a larger slot for a node than the node itself |
| `Gossip.CounterIsExact` | crates/mnemo-core/src/sync.rs:255-282 | a counter's value is the sum of the increments that reached it, each counted once |
| `Gossip.CounterNeverOvercounts` | crates/mnemo-core/src/sync.rs:255-282 | no copy exceeds the sum of the amounts that the steps of the run add, and one that received every increment equals it |
| `Gossip.MembersAreTheKnownInserts` | crates/mnemo-core/src/sync.rs:368-424 | in a run that never removes an element, its tags are exactly the insertions of it that reached the copy |
| `Gossip.RemovalSurvivesDeliveryIff` | crates/mnemo-core/src/sync.rs:379-424 | after the next delivery a removed element is absent iff the delivered copy does not hold it |
| `Gossip.RemovalSurvivesRunIff` | crates/mnemo-core/src/sync.rs:368-424 | over any later run without another removal of it there, a node that lacks an element ends up holding it iff it inserted it or heard a copy that held it at that point |
| `Gossip.OwnEchoBringsBack` | crates/mnemo-core/src/sync.rs:379-424 | a run in which a node removes an element, hears its own earlier state, and holds the element again |
| `Merkle.FromItems` | crates/mnemo-core/src/sync.rs:634-704 | root over all hashes, item count, and one summary node per prefix in order with the bucket's hash and size |
| `Merkle.FillBuckets` | crates/mnemo-core/src/sync.rs:669-681 | the bucket loop yields exactly the non-empty buckets, hashes in item order |
| `Merkle.BucketHoldsItsItems` | crates/mnemo-core/src/sync.rs:669-681 | a bucket holds, in order, the hashes of exactly the items whose key starts with its character, those without a key lying under '?' |
| `Merkle.RootOfFew` | crates/mnemo-core/src/sync.rs:639-666 | the root of no, one and two items, in plain terms |
| `Merkle.FlatOfJoin` | crates/mnemo-core/src/sync.rs:660-666 | hashes are concatenated in order |
| `Merkle.DiffPrefixes` | crates/mnemo-core/src/sync.rs:707-740 | nothing if the roots agree, otherwise the sorted prefixes whose recorded hashes differ or are missing on one side |
| `Merkle.CountsSumToTotal` | crates/mnemo-core/src/sync.rs:634-704 | bucket counts sum to the number of items |
| `Merkle.RootsAgreeIff` | crates/mnemo-core/src/sync.rs:660-666 | roots agree iff the hash sequences are equal |
| `Merkle.DiffNamesTheDifferencesIff` | crates/mnemo-core/src/sync.rs:707-740 | lists in any order: the diff is exactly the prefixes whose hash sequences differ, iff the whole hash sequences differ or no bucket does |
| `Merkle.EmptyDiffMeansEqualRootsIff` | crates/mnemo-core/src/sync.rs:707-740 | lists in any order: empty diff and equal roots coincide, iff the hash sequences agree or some bucket differs |
| `Merkle.DiffIsExact` | crates/mnemo-core/src/sync.rs:634-740 | grouped items: the diff is empty iff the roots are equal iff the hash sequences are; and it names exactly the differing prefixes iff the hash sequences differ or the prefixes agree item by item |
| `Merkle.SortedKeysAreGrouped` | crates/mnemo-core/src/sync.rs:669-681 | sorting by non-empty key groups the items |
| `Merkle.RootsDecideIff` | crates/mnemo-core/src/sync.rs:639-666 | for an injective hash function, equal roots mean equal hash sequences over all lists of one hash length, iff that length is at least two and not five |
| `Merkle.ShortHashesForgeEmpty` | crates/mnemo-core/src/sync.rs:639-648 | witnesses for lengths one and five: lists that meet the root of an empty list |
| `Merkle.EmptyHashesHideItems` | crates/mnemo-core/src/sync.rs:639-666 | witness for length zero: one item and two with the same root |
| `Merkle.UngroupedItemsHideADifference` | crates/mnemo-core/src/sync.rs:707-740 | witness for `EmptyDiffMeansEqualRootsIff`: different roots and yet no differing prefix |
| `Merkle.MovedKeyGoesUnnoticed` | crates/mnemo-core/src/sync.rs:707-710 | witness for `DiffNamesTheDifferencesIff`: an item moved to another prefix leaves the diff empty |
| `BreadthFirst.Settled` | crates/mnemo-graph/src/lib.rs:93-191 | in any state of the search, whatever lies within the open layer has been met at its distance |
| `ShortestPath.Search` | crates/mnemo-graph/src/lib.rs:263-346 | the search ends; the target is met at its true distance, or exactly the ids within max_depth were met |
| `ShortestPath.WalkBack` | crates/mnemo-graph/src/lib.rs:358-368 | the parent walk ends and yields a path from source to target of the target's depth |
| `ShortestPath.ResolveSteps` | crates/mnemo-graph/src/lib.rs:370-389 | the legs whose entity loads for the user, numbered by their place |
| `ShortestPath.FindShortestPath` | crates/mnemo-graph/src/lib.rs:228-396 | found iff a walk of at most max_depth stored edges leads there, in either direction of each, all of them of the user and, if asked, not invalidated, and none but the last id being another user's entity; the steps list, in order and with their places and edges, the loadable ids of a walk that no walk is shorter than |
| `ShortestPath.KeepsStepsIff` | crates/mnemo-graph/src/lib.rs:358-396 | no shortest path loses a step, iff every admitted edge that a search can go along, self-loops aside, joins two entities that load |
| `ShortestPath.StepsAreTheShortestPath` | crates/mnemo-graph/src/lib.rs:358-396 | under that condition, which referential integrity implies (`IntegrityLoadsEnds`), the steps lead from source to target, each edge joins its neighbours, and their number is the distance plus one |
| `ShortestPath.DanglingEdgeLosesSteps` | crates/mnemo-graph/src/lib.rs:370-389 | witness for `KeepsStepsIff`: a path is found whose steps are all lost |
| `Traversal.TraverseBfs` | crates/mnemo-graph/src/lib.rs:93-191 | returned nodes are distinct stored entities of the user at their true walk distances, nearest first, at most max_nodes, each with exactly its stored edges that are of the user and, if asked, not invalidated; what is missing is no nearer, and nothing is missing below the cap; the returned edges are exactly those at returned nodes, one for each id |
| `BreadthFirst.HopsAreWalks` | crates/mnemo-graph/src/lib.rs:93-346 | hops of either search are walks in the stored graph, said edge by edge |
| `BreadthFirst.ValidOnlyIsDeletion` | crates/mnemo-graph/src/lib.rs:142-310 | searching for valid edges only is searching the graph without its invalidated edges |
| `BreadthFirst.OneUserIsDeletion` | crates/mnemo-graph/src/lib.rs:112-346 | searching for one user is searching that user's part of the graph; for the path search, provided that the user's edges end at no other user's entity |
| `Traversal.Deduplicate` | crates/mnemo-graph/src/lib.rs:182-184 | keeps the first edge of each id, in order |
| `Traversal.DeduplicatedIsExact` | crates/mnemo-graph/src/lib.rs:182-184 | no id twice, no id lost, nothing invented |
| `Traversal.DeduplicatedKeepsFirst` | crates/mnemo-graph/src/lib.rs:182-184 | the kept edges are the first of their ids, in order |
| `Traversal.EdgesAreExactlyIncident` | crates/mnemo-graph/src/lib.rs:132-184 | with unique edge ids an edge is returned, once, iff it is stored, of the user, if asked not invalidated, and starts or ends at a returned node |
| `Traversal.DepthIsPathLength` | crates/mnemo-graph/src/lib.rs:93-396 | if the edges the path search can go along join entities that load, a returned node's depth, the seed's included, is the length of the path the path search reports |
| `Communities.DetectCommunities` | crates/mnemo-graph/src/lib.rs:407-476 | labels start as the entities' own ids; passes run until one changes nothing or the limit is reached; labels stay in their components; if the last pass changed nothing, no label is carried by more edge ends at an entity than the entity's own |
| `Communities.RunIsSafe` | crates/mnemo-graph/src/lib.rs:444-473 | after any number of passes every label is an entity of the same connected component |
| `Communities.SharedLabelMeansConnected` | crates/mnemo-graph/src/lib.rs:444-473 | disconnected entities never share a label |
| `Communities.IsolatedKeepsItsLabel` | crates/mnemo-graph/src/lib.rs:446-450 | an entity without listed neighbours keeps its own label |
| `Communities.UnchangedPassIsStable` | crates/mnemo-graph/src/lib.rs:444-473 | a pass that changes nothing means that no label is carried by more edge ends at an entity than the entity's own |
| `Communities.TallyCountsBallots` | crates/mnemo-graph/src/lib.rs:452-458 | a label's tally is the number of edge ends at the entity that lead to an entity carrying it |
| `FairBatch.Group` | crates/mnemo-ingest/src/lib.rs:890-914 | each queue holds exactly its user's episodes, higher priority first, earlier arrival first among equals; the users in order of first arrival |
| `FairBatch.QueueIsOrdered` | crates/mnemo-ingest/src/lib.rs:900-914 | a queue is in strictly descending priority, earlier arrival first |
| `FairBatch.QueueHoldsExactly` | crates/mnemo-ingest/src/lib.rs:890-914 | a queue holds exactly the user's pending episodes |
| `FairBatch.SelectBatch` | crates/mnemo-ingest/src/lib.rs:878-931 | the batch has the smaller of batch size and pending count, no duplicates, and of each user the episodes of highest priority, earlier arrivals first among equals, in that order; while a user waits nobody got more than one beyond it and users who arrived later no more than it |
| `Supersession.Worker.ResolveName` | crates/mnemo-ingest/src/lib.rs:1059-1092 | a name resolves to an entity of that name ignoring case; at most that one entity is added, only if there was none |
| `Supersession.Worker.Retire` | crates/mnemo-ingest/src/lib.rs:1107-1178 | conflicts, and other beliefs as far as ignored failures allow, are invalidated by this episode; edges outside the slot stay as they were |
| `Supersession.Worker.Relate` | crates/mnemo-ingest/src/lib.rs:1097-1219 | a fact is stored in full, as `StoredIsNewestIff` analyses it, or not at all; no edge outside its slot changes |
| `Supersession.Worker.ProcessEpisode` | crates/mnemo-ingest/src/lib.rs:1054-1219 | every state on the way is sound; the edges added are, in order, those of the relationships between extracted names, up to where the episode is abandoned, each between the user's entities that bear its names, with its label and fact; each was stored as a valid edge; it completes if no call fails that matters |
| `Supersession.Worker.ProcessAll` | crates/mnemo-ingest/src/lib.rs:1054-1219 | over any run, aborted and retried episodes included, names stay unique ignoring case and nothing is deleted; at most one edge is valid per user, source and relation at every point iff no stored fact overlooked another belief, which never happens if no ignored call fails |
| `Supersession.HistoryOnlyGrows` | crates/mnemo-core/src/models/edge.rs:383-389 | no edge or entity is ever deleted, no edge changes its content, and an invalidated edge never becomes valid again; who invalidated it and when stays too if the store lists only valid edges as conflicting |
| `Supersession.SlotIsFreeIff` | crates/mnemo-ingest/src/lib.rs:1107-1178 | the slot of the new fact is free in time iff no ignored failure makes the worker overlook another belief; unique names make every belief whose target is read recognizable |
| `Supersession.StoredIsNewestIff` | crates/mnemo-ingest/src/lib.rs:1107-1190 | the fact becomes the newest and only valid one of its slot, and the graph stays single-valued, iff nothing is overlooked |
| `Supersession.StoredPlainly` | crates/mnemo-ingest/src/lib.rs:1107-1190 | storing a fact appends one valid edge of the user with the relationship's label and fact between the entities of its names, stamps exactly the conflicts and the beliefs that are not overlooked as invalidated by this episode now, and changes nothing else |
| `Supersession.OverlookedBeliefStaysValid` | crates/mnemo-ingest/src/lib.rs:1137-1163 | witness: with an unreadable edge list, an unread name or an unwritten update, two facts of one slot stay valid |
| `Supersession.StampsAreKeptIff` | crates/mnemo-storage/src/redis_store.rs:882-900 | storing facts never overwrites who invalidated an edge and when, iff the store lists only valid edges as conflicting |
| `Supersession.StoringIsSafeIff` | crates/mnemo-ingest/src/lib.rs:1180-1190 | storing a fact keeps the graph single-valued iff its slot was freed before |
| `SleepDigest.SleepWorker.RecordUserActivity` | crates/mnemo-ingest/src/lib.rs:518-533 | activity is recorded and both marks are cleared |
| `SleepDigest.SleepWorker.Attempt` | crates/mnemo-ingest/src/lib.rs:593-620 | persist first, then cache and mark; any failure changes nothing |
| `SleepDigest.SleepWorker.Consolidate` | crates/mnemo-ingest/src/lib.rs:537-645 | whole new state after one check, each user judged at its own instant; in milliseconds: only unmarked users quiet for 30 s and for the idle window get a digest or are re-ranked, and do unless that fails; exactly those active within 24 h stay tracked; a user whose digest failed and who is still tracked is due again |
| `SleepDigest.SleepWorker.Run` | crates/mnemo-ingest/src/lib.rs:495-645 | in every run at most one digest is saved per user between two activities, marked users have a persisted digest, and the cache agrees with what is persisted |
| `JsonRepair.CompleteJsonPrefix` | crates/mnemo-llm/src/openai_compat.rs:281-322 | the scanner appends a quote if a string is open, then the closers of all open brackets, innermost first |
| `JsonRepair.ClosedIffNotMidEscape` | crates/mnemo-llm/src/openai_compat.rs:281-322 | the output extends the input and closes everything iff the input does not end mid-escape |
| `JsonRepair.CompletionIsShortest` | crates/mnemo-llm/src/openai_compat.rs:281-322 | no shorter extension closes everything, and outside escapes no other one of the same length |
| `JsonRepair.WellBracketedIff` | crates/mnemo-llm/src/openai_compat.rs:281-322 | a text is well bracketed iff the scanner meets no mismatch and ends outside strings with nothing open |
| `JsonRepair.CompletionIsIdempotent` | crates/mnemo-llm/src/openai_compat.rs:281-322 | a closed text is left alone; completing twice equals completing once iff the input does not end mid-escape |
| `JsonRepair.CompletedIsWellBracketed` | crates/mnemo-llm/src/openai_compat.rs:281-322 | a prefix of a well-bracketed text, strings as in section 7 of RFC 8259, completes to a well-bracketed text iff it does not end mid-escape |
| `JsonRepair.CompletedIsWellBracketedIff` | crates/mnemo-llm/src/openai_compat.rs:281-322 | any input completes to a well-bracketed text iff it begins some well-bracketed text and does not end mid-escape |
| `ArrayObjects.CollectArrayObjects` | crates/mnemo-llm/src/openai_compat.rs:324-371 | the index-based scanner collects the objects that a character-by-character reader of the keyed array would |
| `ArrayObjects.TruncationRecovery` | crates/mnemo-llm/src/openai_compat.rs:324-371 | for every list of balanced objects laid out as a keyed array and every cut, the result is exactly the objects wholly before the cut, in order |
| `LoraMath.MatVec` | crates/mnemo-lora/src/math.rs:19-50 | accumulator loops compute the matrix-vector product |
| `LoraMath.ProductOfUnit` | crates/mnemo-lora/src/math.rs:19-50 | the product takes the k-th unit vector to the k-th column: entry (i, k) lies at i·cols + k |
| `LoraMath.IdentityKeeps` | crates/mnemo-lora/src/math.rs:19-50 | an identity matrix leaves every vector as it is |
| `LoraMath.DotOfUnit` | crates/mnemo-lora/src/math.rs:19-50 | with linearity (`DotIsLinear`) this determines the product: each component counts with weight one |
| `LoraMath.SumSquaresIsDot` | crates/mnemo-lora/src/math.rs:112-120 | the squared norm is the product of a vector with itself |
| `LoraMath.OuterAdd` | crates/mnemo-lora/src/math.rs:98-108 | every row grows by its multiple of the second vector, in place |
| `LoraMath.OuterAddedAt` | crates/mnemo-lora/src/math.rs:98-108 | entry (i, k) grows by lr times u_i times v_k |
| `LoraMath.ClampFrobenius` | crates/mnemo-lora/src/math.rs:112-120 | only a matrix above the bound is scaled, uniformly |
| `LoraMath.ClampBoundsTheNorm` | crates/mnemo-lora/src/math.rs:112-120 | after clamping the norm is at most the bound, exactly the bound if it was above |
| `LoraMath.ClampScalesUniformly` | crates/mnemo-lora/src/math.rs:112-120 | every entry is scaled by bound over norm if the norm is above the bound, and stays otherwise |
| `Lora.LoraAdapter.Apply` | crates/mnemo-lora/src/lib.rs:83-86 | the adapted vector is v + scale times B times A times v |
| `Lora.LoraAdapter.UpdateWithRating` | crates/mnemo-lora/src/lib.rs:122-158 | a zero rating changes nothing; otherwise B becomes the clamped nudged matrix and the count grows |
| `Lora.AdaptedPlainly` | crates/mnemo-lora/src/lib.rs:83-86 | component i is v_i plus scale times row i of B applied to A times v |
| `Lora.NudgedAt` | crates/mnemo-lora/src/lib.rs:122-158 | entry (i, k) of B grows by rating · 0.005 · (query_i - adapted_i) · (A·item)_k, for ratings of either sign |
| `Lora.ResidualIsScaled` | crates/mnemo-lora/src/lib.rs:122-158 | before clamping, one update multiplies every component of query minus adapted item by exactly 1 - rating · 0.005 · scale · ‖A·item‖², which is above one for negative ratings |
| `Lora.LoraAdapter.Train` | crates/mnemo-lora/src/lib.rs:122-158 | after any run of ratings from a fresh adapter the Frobenius norm of B is at most 10 |
| `Lora.FreshAdapterIsIdentity` | crates/mnemo-lora/src/lib.rs:77-86 | an adapter that was never updated returns its input |
| `Chunker.FindEnd` | crates/mnemo-llm/src/pdf_parser.rs:173-187 | the backward search ends the window after the last break of its last fifth, or at full size |
| `Chunker.WindowEndsAtBreak` | crates/mnemo-llm/src/pdf_parser.rs:173-187 | a window short of the end of the text ends behind the last '.', '!', '?' or newline of its last fifth, and is full if there is none |
| `Chunker.ChunkFixed` | crates/mnemo-llm/src/pdf_parser.rs:162-213 | on every text on which the loop ends, the chunks are the trimmed non-blank windows with their offsets, numbered in order |
| `Chunker.ChunksAreNumbered` | crates/mnemo-llm/src/pdf_parser.rs:189-206 | the chunks are, numbered in order and with their offsets, those of exactly the windows that are not blank |
| `Chunker.TrimDropsSpace` | crates/mnemo-llm/src/pdf_parser.rs:189-190 | trimming drops only white space, at both ends, and all of it there |
| `Chunker.WindowsAreExact` | crates/mnemo-llm/src/pdf_parser.rs:171-210 | windows of at most chunk_size cover the text without gaps, neighbours share exactly `overlap` characters, and joining them without overlaps rebuilds the text |
| `Chunker.AlwaysAdvancesIff` | crates/mnemo-llm/src/pdf_parser.rs:171-210 | the loop advances on every text iff overlap ≤ chunk_size - chunk_size/5 (or overlap < chunk_size for sizes below five) |
| `Chunker.AlwaysEndsIff` | crates/mnemo-llm/src/pdf_parser.rs:171-210 | the loop ends on every text iff the same condition holds |
| `Chunker.TrapHolds` | crates/mnemo-llm/src/pdf_parser.rs:171-210 | otherwise a concrete text keeps the loop at its start |
| `Quantizer.ErrorIsBounded` | crates/mnemo-retrieval/src/compression.rs:159-177 | no component moves by more than range/510 |
| `Quantizer.ErrorIsBoundedPlainly` | crates/mnemo-retrieval/src/compression.rs:159-177 | with lo the least and hi the greatest component: at most (hi - lo)/510 if hi - lo is at least 2^-23, and at most 2^-23/510 otherwise |
| `Quantizer.ValuesAreLevels` | crates/mnemo-retrieval/src/compression.rs:159-177 | every value is lo + k·(hi - lo)/255 for some k from 0 to 255 |
| `Quantizer.OrderIsKept` | crates/mnemo-retrieval/src/compression.rs:159-177 | the order of components is preserved |
| `Quantizer.FewDistinctValues` | crates/mnemo-retrieval/src/compression.rs:159-177 | all values lie on a grid of at most 256 |
| `Quantizer.QuantizingTwice` | crates/mnemo-retrieval/src/compression.rs:159-177 | quantizing twice equals quantizing once |

## Left out

- `HlcTimestamp::now`, which bypasses the clock, and the conversion of a negative wall time to unsigned.
- 64-bit overflow of counters and sequence numbers, and 32-bit float rounding.
- Delta envelopes, sync status and serialization: plain data.
- Converging removal from an `ORSet`: the code does not provide it.
- Batching limits of the stores (1000 adjacent edges, 10000 entities, 100000 edges): the searches see what the store returns.
- Mention counts, summaries, belief-change records, webhooks, spans and embeddings of the ingest pipeline, and concurrent processing of episodes.
- The keyword scores behind an episode's priority, and the claim and retry protocol: constant tables and code outside these files.
- Chunk page estimates and byte counts, structural chunking and heading heuristics.
- The random initialization of the adapter's first matrix (any matrix is allowed) and the adapter cache.
- Half-precision and binary quantization and the choice of a compression tier: easy members.
- Encryption, the graph neural network, HTTP and MCP layers, model clients, SDKs and evaluation scripts.
