# Verified model of the OdinVector/PipeANN index

PipeANN keeps a proximity graph of vectors on an SSD and answers nearest-neighbour queries while points are inserted and
deleted. This project models its stateful core in Dafny 4.11 and proves what that core promises. Vectors are abstract
coordinates with an abstract non-negative distance, floats are reals, files are maps from places to records or bytes.

Check everything with `dafny verify dfyconfig.toml`.

| file | what it covers |
|---|---|
| `PageLayout`, `PageAllocator` | address arithmetic, the free-page queue, slot allocation |
| `InsertBuffers`, `SsdIndex` | the out-of-place insert, and the frame theorem over runs of inserts |
| `Pruning` | alpha-pruning of neighbour lists, as used by insert, merge and consolidation |
| `CuckooIndex`, `CuckooTable`, `CuckooPath`, `CuckooMap` | the concurrent cuckoo table with lazy doubling |
| `RobinHash` | the robin-hood table |
| `NeighborPool`, `CandidatePool`, `BestFirstSearch`, `BeamSearch` | the bounded pool and the two synchronous searches |
| `PipeIo`, `PipeSearch` | the pipelined search as a machine driven by I/O completions |
| `MergeWriter`, `DeleteMerge` | delete-merge and its sliding write buffer |
| `MemLinks`, `Compaction`, `MemIndex` | linking new points, lazy deletes, consolidation and compaction of the in-memory index |
| `WalCodec`, `TagIndex` | the tag index with its write-ahead log |
| `PageCache`, `LockOrder` | the write-back page cache and the lock protocol |
| `ShardMerge` | dealing points out to shards and merging the shard graphs |
| `ProductQuantizer` | chunk split, distance tables, encoding |
| `Counting`, `Wrappers` | cardinality facts and optional values shared by the others |

The build that is modelled is the one CMakeLists.txt:30-51 gives by itself, without additional definitions: `BG_IO_THREAD`,
`OVERLAP_INIT` and `DYN_PIPE_WIDTH` on, `DELTA_PRUNING`, `IN_PLACE_RECORD_UPDATE`, `IDENTITY_MAPPING_ONLY`, `NO_MAPPING`,
`NO_POLLUTE_ORIGINAL` and `DIRECT_READ_CC` off. build.sh:1 adds `DELTA_PRUNING`, whose variant of the insert is not modelled.

Where an outcome depends on scheduling, hashing order or randomness, the model leaves the choice open and the theorem
holds for every choice: the order in which threads draw new ids, the iteration order of hash sets, the shuffle of merged
lists, what other threads do to the cuckoo table between two locked moves, what other clients of the page cache do between
a miss and the put that follows it, and the order of I/O completions.

Seven places where the code does less than it seems to promise are stated as theorems with their exact condition and a
concrete input:

- `CuckooPath.CodesFitExactly`: the static assertion admits nine slots per bucket, the path code only fits up to eight.
- `MemIndexModel.StartKeptExactly`: compaction neither renumbers the start node nor replaces a deleted one by a live one, so
  the start survives exactly if it is the frozen point or no location up to it is deleted (`LoseStart`, `AbortOnStart`). An
  index built in memory has the frozen point as its start; another one comes from the header of a full index file.
- `TagIndex.MergeWithoutReload`: a tag removed before a merge comes back in the running process (`ResurfacingExample`).
- `WalCodec.RestartReliable`: a record cut short is applied with whatever is in memory and swallows the next one, so
  restarts are reliable exactly for logs that end at the end of a record (`TornExample`).
- `DeleteMerge.NewMedoid`: a deleted entry point without kept neighbours is read out of bounds (`MedoidLost`).
- `LockOrder.ExclusiveExactly`: an insert releases its target's vector lock twice, so a lock excludes in every run if and
  only if it is not the vector lock of an insert's target; `VectorLockShared` is the run, for every target. `SortAscends`
  gives the condition under which the one lock sequence that is not deduplicated still ascends.
- `PageCacheModel.LatestExactly`: no page lock is held by a reader between its miss and its put, and the put overwrites what
  is cached by then, so reads of a page give its latest content in every run if and only if the page is never written while
  someone fetches it (`LostWrite` is the run with two inserts).

## Model

| member | source | states |
|---|---|---|
| PageLayout.LocAddress | include/ssd_index.h:115-122 | page and slot of a location are 1 + loc / n and loc % n |
| PageLayout.LocRoundTrip | include/ssd_index.h:120-126 | location to page and slot and back is the identity |
| PageLayout.SectorAddress | include/ssd_index.h:124-126 | the location of a page's slot is the arithmetic formula |
| PageLayout.LocInjective | include/ssd_index.h:120-126 | two locations with the same page and slot are equal |
| PageLayout.SectorMonotone | include/ssd_index.h:120-122 | page numbers follow locations |
| PageAllocator.AllocEmptyPage | include/ssd_index.h:579-593 | a queued page is taken slot by slot, its slots were all free, so the "not empty" abort is out of reach |
| PageAllocator.DrainEmptyPages | include/ssd_index.h:572-597 | pages popped off the queue are used up and the queue keeps listing exactly the free pages |
| PageAllocator.AllocHintPage | include/ssd_index.h:606-632 | a hinted page is used if and only if at least half of its slots are free, only its holes are taken, and it is marked for reading exactly if something is stored on it |
| PageAllocator.UseHintPages | include/ssd_index.h:599-637 | hinted pages are looked at in order, all of them unless enough locations are reached; exactly those with enough holes are used, and used up; the slots taken are distinct and were free |
| PageAllocator.AllocFresh | include/ssd_index.h:639-652 | new locations are consecutive from the old end on, which is rounded up to a page boundary; known pages stay; the invariant survives |
| PageAllocator.SetLoc2Id | include/ssd_index.h:508-525 | one slot is bound, a page never seen starts with free slots |
| PageAllocator.EraseLoc2Id | include/ssd_index.h:527-548 | one slot is freed; the page joins the queue exactly if that empties it, and occurs there once |
| PageAllocator.EraseAndSetLoc | include/ssd_index.h:552-561 | new locations hold their ids, old ones are free, all others are unchanged, and the queue still lists exactly the free pages |
| Pruning.RaiseExceeds | src/utils/prune_neighbors.cpp:81-89 | a raised occlusion factor exceeds a bound exactly if the old one did or the candidate is more than that many times farther, also for zero distances |
| Pruning.OcclusionPass | src/utils/prune_neighbors.cpp:70-91 | the loops of one pass compute the pass function, whatever the settings |
| Pruning.OccludeCovers | src/utils/prune_neighbors.cpp:60-97 | kept positions are distinct and mutually unoccluded, at most `range`, and each was the first choice when it was kept; unless they fill the list, every other candidate is occluded by an earlier kept one at the last level, which is within a factor 1.2 of alpha |
| Pruning.OccludeGreedy | src/utils/prune_neighbors.cpp:60-97 | each kept candidate is the nearest one that the lowest level with anything left to keep has left |
| Pruning.OccludeListPq | src/utils/prune_neighbors.cpp:60-97 | the multi-pass loop computes that occlusion, as a sorted set |
| Pruning.OccludeList | src/index.cpp:709-740 | the in-memory variant computes the occlusion as a list, in the order of keeping |
| Pruning.KeptCovers | src/index.cpp:709-740 | the list variant lists the kept candidates in the order of keeping, and what it leaves out is covered in the same sense |
| Pruning.PruneNeighborsPq | src/utils/prune_neighbors.cpp:100-125 | the loops compute the pruned list |
| Pruning.PrunedFacts | src/utils/prune_neighbors.cpp:100-125 | at most `range` distinct ids from the pool; with alpha above 1 it is only shorter if everything is in it |
| Pruning.PrunedDiversified | src/utils/prune_neighbors.cpp:100-125 | the pruned list begins with what the occlusion kept, nearest first, so its coverage carries over; with alpha above 1 it goes on with the nearest candidate that is missing, again and again, and otherwise it ends there |
| Pruning.TopUpTail | src/utils/prune_neighbors.cpp:118-124 | topping up a list from a sorted pool always takes the nearest candidate that the list does not have |
| Pruning.ChooseNeighbors | src/utils/prune_neighbors.cpp:204-234 | the loops compute a new point's list |
| Pruning.ChosenFacts | src/utils/prune_neighbors.cpp:204-234 | at most `range` distinct ids of the candidates, with alpha above 1 fewer only if all are chosen |
| Pruning.ChosenCovers | src/utils/prune_neighbors.cpp:204-234 | a new point's list begins with what the occlusion kept, nearest first, without the entry point exactly if that comes behind three quarters of it, and goes on with the nearest candidates that are missing; what is left out is covered |
| InsertBuffers.PagesOf | src/update/direct_insert.cpp:124-133 | the pages to rewrite are the pages of the new locations, ascending, once each |
| InsertBuffers.LoadBuffers | src/update/direct_insert.cpp:139-166 | every page gets a buffer of its own, a page to be rewritten its write buffer; pages that are read hold the file's content |
| InsertBuffers.CoalesceWrites | src/update/direct_insert.cpp:168-189 | the write requests are the maximal runs of consecutive pages and cover them exactly |
| InsertBuffers.WritePages | src/update/direct_insert.cpp:324-325 | after the coalesced writes the file holds the buffers of all rewritten pages and nothing else changed |
| InsertBuffers.Relink | src/update/direct_insert.cpp:235-290 | a neighbour's list gets the new id appended, and is pruned in distance order if it then exceeds `range` |
| InsertBuffers.RelinkFacts | src/update/direct_insert.cpp:235-290 | a relinked list has at most `range` entries out of the old list and the new id, without repetition, and all of them if they fit |
| InsertBuffers.RelinkCovers | src/update/direct_insert.cpp:260-290 | a pruned list is the occlusion's choice, nearest first, and then the nearest ids that are missing; every edge that relinking drops is made redundant by a nearer neighbour in the list, unless the occlusion alone filled it |
| SsdIndexModel.UpdateRecords | src/update/direct_insert.cpp:205-322 | the new record and the moved neighbour records land in the buffers of their new slots, all other slots of the buffers keep their content |
| SsdIndexModel.RewritePages | src/update/direct_insert.cpp:124-325 | after the page writes, new slots hold the new records and every stored record elsewhere is as before, although pages were overwritten unread |
| SsdIndexModel.Remap | src/update/direct_insert.cpp:336-346 | the id map sends the target and the neighbours to their new locations and leaves the rest |
| SsdIndexModel.RemapInverse | src/update/direct_insert.cpp:333-354 | id-to-location and location-to-id are inverse again after an insert |
| SsdIndexModel.SsdIndex.Load | src/search/page_search.cpp:94-123 | loading under the equal mapping establishes the whole invariant |
| SsdIndexModel.SsdIndex.AllocLoc | include/ssd_index.h:564-653 | returns n distinct slots that were free, marks them allocated and nothing else, and asks for reading exactly the pages that store something; it goes past the end only with no page queued and every hinted page that had enough holes used up |
| SsdIndexModel.SsdIndex.InsertInPlace | src/update/direct_insert.cpp:122-355 | the invariant is kept; the new id reads back its point and list, each neighbour its coordinates and its relinked list, every other id its old record |
| SsdIndexModel.SsdIndex.Insert | src/update/direct_insert.cpp:91-355 | the same with the neighbours chosen by pruning the candidates that the search found |
| SsdIndexModel.InsertCovers | src/update/direct_insert.cpp:235-290 | after an insert a full neighbour's list goes from near to far, then on with the nearest ids that are missing; every edge it lost is made redundant by one it kept or gained, unless the occlusion alone filled it |
| SsdIndexModel.InsertRunKeeps | src/update/direct_insert.cpp:122-355 | over any run of inserts, ids stay live with their coordinates, edges are old ones or lead to added ids, records never chosen as neighbour are untouched |
| CuckooIndex.AltInvolution | include/libcuckoo/cuckoohash_map.hh:789-800 | the alternate index of the alternate index is the index |
| CuckooIndex.PartialBits | include/libcuckoo/cuckoohash_map.hh:772-781 | each bit of the partial key is the parity of the bits at that place in the eight bytes of the hash |
| CuckooIndex.AltDiffers | include/libcuckoo/cuckoohash_map.hh:795-800 | the alternate index is the index itself exactly if the tag is a multiple of the number of buckets |
| CuckooIndex.TwoBuckets | include/libcuckoo/cuckoohash_map.hh:783-800 | with more than 256 buckets the two buckets of every key differ |
| CuckooIndex.IndexDoubling | include/libcuckoo/cuckoohash_map.hh:785-787 | doubling adds one bit on top of the first index |
| CuckooIndex.AltDoubling | include/libcuckoo/cuckoohash_map.hh:768-800 | doubling adds one bit on top of the alternate index |
| CuckooIndex.NewHomeIsCand | include/libcuckoo/cuckoohash_map.hh:1776-1793 | the bucket migration chooses is a candidate bucket of the key in the doubled table |
| CuckooIndex.SameLock | include/libcuckoo/cuckoohash_map.hh:955-976 | an old bucket and its upper twin are under the same lock |
| CuckooTable.Relocate | include/libcuckoo/cuckoohash_map.hh:1758-1802 | moving an item to a vacant slot of a candidate bucket keeps the stored map and the table invariant |
| CuckooTable.MoveBucket | include/libcuckoo/cuckoohash_map.hh:1758-1802 | migrating a bucket keeps the map; moved items fill the new bucket from the front without colliding |
| CuckooTable.RehashLock | include/libcuckoo/cuckoohash_map.hh:955-976 | migrating a lock keeps the map, empties its old buckets and touches no bucket of another lock |
| CuckooTable.FastDouble | include/libcuckoo/cuckoohash_map.hh:1677-1755 | doubling keeps the map; a small table is moved at once and nothing is pending, a large one leaves every bucket pending under its lock |
| CuckooTable.LockTwo | include/libcuckoo/cuckoohash_map.hh:1004-1021 | after taking both locks nothing of the two buckets is pending, and the map is the same |
| CuckooTable.KeyIsThere | include/libcuckoo/cuckoohash_map.hh:1145-1160 | with both candidate buckets migrated, a stored key is in one of them and nowhere else |
| CuckooTable.LockAndFind | include/libcuckoo/cuckoohash_map.hh:1071-1160 | finds the slot of a key exactly if the map has it |
| CuckooTable.AddKeeps | include/libcuckoo/cuckoohash_map.hh:1293-1302 | adding a new key in a vacant slot of a candidate bucket adds exactly that binding |
| CuckooTable.RemoveKeeps | include/libcuckoo/cuckoohash_map.hh:1980-1986 | deleting a slot removes exactly that binding |
| CuckooTable.EvictKeeps | include/libcuckoo/cuckoohash_map.hh:1530-1537 | an eviction between the two locked buckets of a key keeps the map |
| CuckooPath.Decode | include/libcuckoo/cuckoohash_map.hh:1425-1429 | the digits read from a path code are the slots and the start that were encoded |
| CuckooPath.CodesFitExactly | include/libcuckoo/cuckoohash_map.hh:1554-1581 | all codes fit 16 bits if and only if a bucket has at most eight slots |
| CuckooPath.QueueCapacity | include/libcuckoo/cuckoohash_map.hh:1583-1626 | the search tree fits the queue |
| CuckooPath.SlotSearch | include/libcuckoo/cuckoohash_map.hh:1634-1671 | whatever the reads find, the queue does not overflow; a result codes a path of at most five slots, each bucket the partner of the item read before, the last slot read vacant; no result means every bucket of the search tree was read full; a path found while nothing changes visits no bucket twice |
| CuckooPath.ExhaustedFull | include/libcuckoo/cuckoohash_map.hh:1634-1671 | without a result every slot of every bucket in the tree was occupied and its partner bucket searched, down to the depth limit |
| CuckooPath.DirectPath | include/libcuckoo/cuckoohash_map.hh:1634-1671 | a shortest path to a vacant slot visits no bucket twice, so its moves do not get in each other's way |
| CuckooPath.CuckooPathSearch | include/libcuckoo/cuckoohash_map.hh:1418-1469 | the decoded path starts in one of the two buckets, each step goes to the alternate bucket of the recorded key, the recorded hashes are those read, and it ends early only at a slot read vacant |
| CuckooPath.MoveStep | include/libcuckoo/cuckoohash_map.hh:1500-1543 | a locked move happens exactly if the key recorded is still there and its place is free, and then moves that item and nothing else; map and invariant survive either way |
| CuckooPath.CuckooPathMove | include/libcuckoo/cuckoohash_map.hh:1480-1545 | with arbitrary lawful changes by others before every lock, also of the hash power, the invariant holds; the map is the one those changes leave, one after the other; on success the first slot is free under both locks; an undisturbed move along a current path succeeds |
| CuckooPath.SearchAlone | include/libcuckoo/cuckoohash_map.hh:1418-1469 | a search that nobody disturbs yields a path whose moves succeed once its buckets are migrated, or a full search tree |
| CuckooMapModel.CuckooMap.constructor | include/libcuckoo/cuckoohash_map.hh:104-117 | a new table stores nothing |
| CuckooMapModel.CuckooMap.Size | include/libcuckoo/cuckoohash_map.hh:334-344 | the sum of the per-lock counters is the number of keys, although evictions move keys without touching counters |
| CuckooMapModel.CuckooMap.Find | include/libcuckoo/cuckoohash_map.hh:465-475 | returns the stored value exactly if the key is stored |
| CuckooMapModel.CuckooMap.Erase | include/libcuckoo/cuckoohash_map.hh:512-524 | removes exactly the key |
| CuckooMapModel.CuckooMap.Double | include/libcuckoo/cuckoohash_map.hh:1677-1755 | doubling keeps map and counter sum |
| CuckooMapModel.InsertWith | include/libcuckoo/cuckoohash_map.hh:1238-1291 | one round among other threads: the key is looked for again after the moves, so the pair is stored only if the map the others left does not have the key; it gives up only for a new key with both buckets full, for want of a path or with a path that others disturbed or that was stale |
| CuckooMapModel.CuckooMap.InsertRound | include/libcuckoo/cuckoohash_map.hh:1238-1291 | one round without other threads inserts the pair, reports a duplicate exactly for a stored key, a full table only without a path, a retry only for a path that was not ready; the map and the counters change by the insertion only |
| RobinHash.Probe | include/tsl/robin_hash.h:1055-1070 | the early-stopping probe finds a key exactly if it is stored and otherwise stops where it can be inserted; it terminates |
| RobinHash.InsertValue | include/tsl/robin_hash.h:1154-1182 | displacement down the table adds exactly the pair and keeps the distance invariant; it reports exactly the displacements at 128 or more probes |
| RobinHash.PutNew | include/tsl/robin_hash.h:1128-1138 | a new pair ends in an empty bucket or displaces, with the same effect on the map |
| RobinHash.InsertOnRehash | include/tsl/robin_hash.h:1205-1223 | reinsertion adds exactly the pair |
| RobinHash.EraseFromBucket | include/tsl/robin_hash.h:1073-1097 | backward shift removes exactly the key and restores the distance invariant |
| RobinHash.Rehash | include/tsl/robin_hash.h:1184-1203 | the new table stores the same map |
| RobinHash.RobinMap.constructor | include/tsl/robin_hash.h:485-520 | an empty table with a clamped load factor |
| RobinHash.RobinMap.Find | include/tsl/robin_hash.h:1055-1070 | exact look-up |
| RobinHash.RobinMap.Erase | include/tsl/robin_hash.h:821-835 | removes exactly the key and says whether it was there |
| RobinHash.RobinMap.RehashImpl | include/tsl/robin_hash.h:1184-1203 | keeps the map for any bucket count with room |
| RobinHash.Threshold | include/tsl/robin_hash.h:981-984 | the load threshold is the largest count within the load factor, and below the number of buckets |
| RobinHash.RobinMap.RehashTo | include/tsl/robin_hash.h:986-989 | keeps the map; the bucket count is the larger of the one asked for and the fewest the load factor allows, rounded up to a power of two |
| RobinHash.BucketsLeast | include/tsl/robin_hash.h:986-989 | one bucket less than the count computed from the load factor would not hold the elements |
| RobinHash.RobinMap.TryEmplace | include/tsl/robin_hash.h:1100-1144 | inserts exactly if the key is new, and grows exactly if it inserts at the load threshold or was told to; it tells the next insert to grow exactly if a value was displaced by another than the new one at 128 or more probes while the load was at least 0.15; there is always an empty bucket |
| NeighborPool.SearchPos | include/neighbor.h:140-147 | the binary search ends at the insert position, and entries at the same distance lie before it or at it |
| NeighborPool.HasEqualId | include/neighbor.h:148-157 | the scan finds an equal id at the same distance |
| NeighborPool.InsertIntoPool | include/neighbor.h:128-161 | the array becomes the sorted insertion at the returned position, or is unchanged because the id is there |
| NeighborPool.PoolInsertSorted | include/neighbor.h:128-161 | insertion keeps the pool sorted |
| CandidatePool.OfferKeepsNearest | src/index.cpp:645-655 | offering a newly discovered id keeps the pool the L nearest of all discovered ids |
| CandidatePool.AbsorbKeeps | src/index.cpp:637-657 | absorbing a list discovers exactly that list, keeps the pool the L nearest, moves nothing below the lowest changed position and adds only fresh entries |
| CandidatePool.AbsorbFirst | src/index.cpp:637-657 | the lowest changed position that is reported holds a newly discovered entry |
| CandidatePool.AbsorbInPlace | src/index.cpp:637-657 | the loop over the array computes that absorption |
| BestFirstSearch.CopyList | src/index.cpp:625-635 | the wrong-id abort fires exactly for a list with an id outside the graph |
| BestFirstSearch.ExpandKeeps | src/index.cpp:613-657 | expanding a chosen node keeps the search invariant: nearest pool, flags, and discovered = start points and lists of expanded nodes |
| BestFirstSearch.SettledAfter | src/index.cpp:659-664 | after the k/nk update everything before k is expanded |
| BestFirstSearch.AllDoneFixed | src/index.cpp:606-668 | a pool whose members are all expanded is a fixed point: a neighbour of a member is in the pool or no nearer than any entry |
| BestFirstSearch.IterateToFixedPoint | src/index.cpp:576-668 | the loop terminates at a fixed point over exactly the discovered ids, lists every expanded node once, and aborts only on an ill-formed graph |
| BeamSearch.GatherFrontier | src/search/beam_search.cpp:122-132 | the frontier is the first unexpanded entries from k on, as many as fit the beam, none expanded before |
| BeamSearch.ExpandFrontier | src/search/beam_search.cpp:168-254 | absorbing all lists of the frontier keeps the search invariant |
| BeamSearch.Round | src/search/beam_search.cpp:113-263 | a round either discovers something or moves on by one position |
| BeamSearch.DoBeamSearch | src/search/beam_search.cpp:76-263 | with a beam of at least one it ends at the same kind of fixed point; an empty beam expands nothing |
| PipeIo.SlotsFree | src/search/pipe_search.cpp:195-215 | no request slot is shared by requests in flight, and the next slot is free |
| PipeIo.OnePhase | src/search/pipe_search.cpp:195-280 | every pool entry is in exactly one of unsent, in flight, read, visited |
| PipeIo.FilterThenOffer | src/search/pipe_search.cpp:107-147 | filtering a list first and offering the rest equals deciding id by id |
| PipeIo.PushNbrs | src/search/pipe_search.cpp:107-147 | the two loops compute the absorption of the list |
| PipeIo.SendIo | src/search/pipe_search.cpp:195-215 | sending a request keeps the I/O invariant; the id was never requested before |
| PipeIo.PopIo | src/search/pipe_search.cpp:222-229 | taking a completed request keeps the I/O invariant |
| PipeIo.VisitKeeps | src/search/pipe_search.cpp:257-267 | visiting a read entry keeps both invariants |
| PipeSearchModel.PipeSearch.constructor | src/search/pipe_search.cpp:149-322 | after the first reads, the rescoring and the sort, the whole invariant holds |
| PipeSearchModel.PipeSearch.SendReadReq | src/search/pipe_search.cpp:195-215 | the new request's slot differs from all in flight, and its id was never sent |
| PipeSearchModel.PipeSearch.SendBest | src/search/pipe_search.cpp:233-251 | requests the nearest unsent entries, as many as allowed: everything before a cut is sent, nothing after it has changed |
| PipeSearchModel.PipeSearch.PollAll | src/search/pipe_search.cpp:218-231 | takes exactly the completed requests at the head of the queue, whatever completed; their ids, and no others, become readable |
| PipeSearchModel.PipeSearch.Tune | src/search/pipe_search.cpp:335-352 | reads are counted from the fifth position on; the width grows by one, to at least four and at most the beam width, exactly if at most a tenth of the counted reads were wasted |
| PipeSearchModel.PipeSearch.Visit | src/search/pipe_search.cpp:258-266 | an entry is visited once and its list absorbed |
| PipeSearchModel.PipeSearch.CalcBest | src/search/pipe_search.cpp:253-280 | visits exactly the first entry that has been read and not visited, and returns the first unsent one |
| PipeSearchModel.PipeSearch.Turn | src/search/pipe_search.cpp:328-365 | each turn makes progress unless the device has left the oldest request incomplete or an empty beam has stopped sending; only arrived records are used |
| PipeSearchModel.PipeSearch.Run | src/search/pipe_search.cpp:328-365 | for every completion schedule: each id is read at most once, and used only after its request completed; when it ends, every entry is visited and the pool is a fixed point; all but 3n turns stall, each on an oldest request left incomplete |
| PipeSearchModel.EndsInTime | src/search/pipe_search.cpp:328-365 | if the device completes every slot within any d turns, the loop ends in less than (3 n + 1) d turns |
| MergeWriter.PutLossless | src/update/delete_merge.cpp:187-196 | a record placed modulo the buffer size hits no waiting record |
| MergeWriter.FlushLossless | src/update/delete_merge.cpp:109-121 | writing one half moves exactly its records to the file |
| MergeWriter.SlidingWriter.Put | src/update/delete_merge.cpp:187-197 | adds one record to what the writer holds |
| MergeWriter.SlidingWriter.WriteBack | src/update/delete_merge.cpp:109-121 | writes one half or the filled rest and loses nothing |
| MergeWriter.SlidingWriter.Drain | src/update/delete_merge.cpp:209-211 | writes everything that is left |
| DeleteMerge.Populate | src/update/delete_merge.cpp:58-98 | the first pass numbers the live points step by step in any order within a step, and keeps the filtered, sampled lists of the deleted ones |
| DeleteMerge.NumberingBijective | src/update/delete_merge.cpp:66-82 | the numbering is a bijection from the live ids onto 0 .. n - 1 |
| DeleteMerge.CutExists | src/update/delete_merge.cpp:125-211 | the new ids of a merge step form one contiguous range |
| DeleteMerge.CutGap | src/update/delete_merge.cpp:125-211 | that range is no longer than the step's locations, so it fits the window |
| DeleteMerge.SampleIs | src/update/delete_merge.cpp:86-98 | the kept list of a deleted point holds exactly its first live neighbours, as many as are sampled |
| DeleteMerge.LookupsSucceed | src/update/delete_merge.cpp:148-188 | every look-up of the second pass succeeds |
| DeleteMerge.RepairedIs | src/update/delete_merge.cpp:148-160 | the repaired set of a point holds exactly the other live points that are its neighbours, or among the first sampled live neighbours of a deleted neighbour |
| DeleteMerge.RepairList | src/update/delete_merge.cpp:148-180 | the repaired list is the repaired set if it fits, otherwise the pruning of its nearest candidates |
| DeleteMerge.RepairedPaths | src/update/delete_merge.cpp:148-160 | so every repaired edge is an old edge or a two-step path through one deleted point to another live point |
| DeleteMerge.CutCovers | src/update/delete_merge.cpp:161-180 | a repaired set that does not fit is cut to its nearest `maxc` ids; the list is the occlusion's choice of them, then the nearest that are missing, and covers them |
| DeleteMerge.MergeLoc | src/update/delete_merge.cpp:133-201 | one live location yields its new id and a good record |
| DeleteMerge.MergeStep | src/update/delete_merge.cpp:125-207 | a step keeps less than half of the buffer waiting, whatever the order of its locations |
| DeleteMerge.FileComplete | src/update/delete_merge.cpp:209-211 | after draining, the file holds the record of every new id |
| DeleteMerge.MergeDeletes | src/update/delete_merge.cpp:27-211 | the whole merge: bijective renumbering, and for every new id the record computed for its point |
| DeleteMerge.MergedEdges | src/update/delete_merge.cpp:146-196 | an edge of the new graph stands for an edge to repair of the old one and leads to another live point, lists are distinct and at most `range` |
| DeleteMerge.MergedComplete | src/update/delete_merge.cpp:146-196 | if the edges to repair, as read off the old lists, fit, the new list holds exactly them |
| DeleteMerge.MergedCovers | src/update/delete_merge.cpp:161-180 | if they do not fit, the new list is the pruning of the nearest `maxc` of them in new ids: the occlusion's choice, then the nearest that are missing; each one left out is made redundant by a nearer neighbour, unless the occlusion alone filled the list |
| DeleteMerge.NewMedoid | src/update/delete_merge.cpp:214-219 | the new entry point is the old one if that is live and otherwise its first live neighbour; the look-up is out of bounds exactly if the old one is deleted and no neighbour was kept |
| DeleteMerge.MedoidLost | src/update/delete_merge.cpp:214-219 | a concrete index with a live point on which the look-up is out of bounds |
| Compaction.OrderIndependent | src/index.cpp:1389-1434 | consolidation gives the same graph for every processing order |
| Compaction.CandsAre | src/index.cpp:1402-1414 | the candidates of a list are exactly the surviving neighbours and the surviving neighbours of deleted neighbours |
| Compaction.ConsolidateGraph | src/index.cpp:1389-1434 | in-place processing in any order computes that graph, each list rebuilt by the occlusion of its candidates |
| Compaction.NoEdgeToDeleted | src/index.cpp:1400-1428 | no surviving list leads to a deleted point; rebuilt lists do not lead to the point itself and are at most `range` |
| Compaction.RebuiltCovers | src/index.cpp:1416-1428 | a rebuilt list is the occlusion of exactly those candidates, in the order of keeping and without the point itself; if it is not full it covers every one of them |
| Compaction.NewLocations | src/index.cpp:1499-1508 | new locations are the ranks among the survivors |
| Compaction.RenumberList | src/index.cpp:1537-1555 | the abort fires exactly for a list that leads to a point that is gone |
| Compaction.MoveAll | src/index.cpp:1533-1571 | the swap loop puts every survivor at its rank with a renumbered list, clears the rest, and aborts exactly if a surviving list leads to a point that is gone |
| MemIndexModel.RebuildTags | src/index.cpp:1578-1581 | each tag goes to the new location of its point |
| MemIndexModel.InvertTags | src/index.cpp:1582-1585 | the two tag maps are inverse |
| MemIndexModel.ReplaceStart | src/index.cpp:1513-1529 | the replacement is the first deleted neighbour of a deleted start, and there is an abort if there is none |
| MemIndexModel.ReplaceableIs | src/index.cpp:1513-1529 | the abort does not happen exactly if the start is not deleted or its first deleted neighbour is another node, which then replaces it |
| MemIndexModel.StartKeptExactly | src/index.cpp:1499-1529 | after a compaction the start is the node it was before if and only if it is the frozen point, or live with no deleted location before it |
| MemIndexModel.LoseStart | src/index.cpp:1484-1598 | a loaded index whose start is at a location without a point after one delete and a consolidation |
| MemIndexModel.AbortOnStart | src/index.cpp:1513-1529 | a loaded index that aborts when its start is deleted, although the start's neighbour is live |
| MemIndexModel.MovedIsomorphic | src/index.cpp:1533-1585 | moving the survivors is a graph isomorphism |
| MemIndexModel.EdgesFollow | src/index.cpp:1533-1585 | an edge to a point with some tag becomes one to the new location of that tag, and an edge to the frozen point stays one |
| MemIndexModel.MemIndex.Load | src/index.cpp:300-360 | a saved index is loaded with the frozen point moved to the end; the start is that point, but of a full index the one in the file's header |
| MemIndexModel.MemIndex.AddPoint | src/index.cpp:1694-1797 | a point takes the next location, a used tag is deleted lazily first, its pruned list and the reverse edges are linked; -1 if there is no location |
| MemLinks.MemPrune | src/index.cpp:743-781 | the loops compute the pruned list of a location out of its candidates |
| MemLinks.MemPrunedIs | src/index.cpp:743-781 | that list is what the occlusion keeps, in its order, and in a saturated graph then the nearest candidates that are missing; a candidate left out is made redundant by a nearer one in the list, unless the occlusion alone filled it |
| MemLinks.BackLink | src/index.cpp:797-842 | a neighbour's list gets the new point while there is slack and is pruned otherwise |
| MemLinks.BackLinkedFacts | src/index.cpp:797-842 | a reverse link adds only the new point, loses nothing below the slack, and grows no list beyond slack and `range` |
| MemLinks.BackLinkCovers | src/index.cpp:808-842 | a list without slack is pruned with the new point among its candidates, and what it leaves out is covered |
| MemLinks.InterInsert | src/index.cpp:788-843 | all reverse edges of a new point are added in order |
| MemLinks.BackLinksFacts | src/index.cpp:788-843 | reverse edges are the only edges added, and only the lists of the new neighbours change |
| MemLinks.BackLinksEach | src/index.cpp:788-843 | each of distinct new neighbours is linked back once, from the list it had |
| MemLinks.LinkedBothWays | src/index.cpp:1765-1797 | a new point's neighbours with slack lead back to it and keep their edges; one without slack leads to it or to a neighbour that makes that edge redundant, unless the occlusion alone filled its list |
| MemIndexModel.MemIndex.LazyDelete | src/index.cpp:1799-1831 | the tag disappears from both maps and its location joins the delete set; -1 for an unknown tag |
| MemIndexModel.MemIndex.ConsolidateDeletes | src/index.cpp:1369-1449 | the consolidated graph, with the survivors' lists closed and their number in nd |
| MemIndexModel.MemIndex.CompactData | src/index.cpp:1484-1598 | no abort for an edge to a deleted point, an abort for a deleted start exactly if it has no deleted neighbour; live locations are exactly 0 .. nd - 1, the result is isomorphic, and the start is kept exactly if it was safe |
| MemIndexModel.MemIndex.Consolidate | src/index.cpp:1451-1455 | consolidation and compaction together: every surviving tag keeps its vector and its consolidated list under new names, and the start survives exactly if it was safe |
| WalCodec.ReadOne | tests/InvertedIndex.cpp:282-303 | every turn of the recovery loop consumes bytes |
| WalCodec.ReadInsert | tests/InvertedIndex.cpp:250-262 | an appended insert record reads back as it was, whatever follows |
| WalCodec.ReadRemove | tests/InvertedIndex.cpp:264-270 | an appended remove record reads back as it was |
| WalCodec.WalRoundTrip | tests/InvertedIndex.cpp:250-306 | parsing the appended records gives the operations |
| WalCodec.RecoverWhole | tests/InvertedIndex.cpp:272-306 | whole records are recovered as they are, whatever follows them |
| WalCodec.TornIs | tests/InvertedIndex.cpp:281-303 | a record cut short is applied with the bytes that are there, missing bytes of its id and count as they were in memory, and missing tags as zeros |
| WalCodec.RestartReliable | tests/InvertedIndex.cpp:234-306 | the next restart recovers what this one did and what was appended since, for everything appended and whatever is in memory, if and only if the log ended at the end of a record |
| WalCodec.TornExample | tests/InvertedIndex.cpp:264-306 | a concrete torn log on which a removal logged later is read as that of another id |
| TagIndex.Query | tests/InvertedIndex.cpp:155-192 | an id answers exactly if it is not dead and is universal or carries all tags of a non-empty list |
| TagIndex.ReplayIs | tests/InvertedIndex.cpp:207-229 | after any history an id has a tag exactly if some insert gave it, is universal exactly if some insert marked it, and is dead exactly if the last operation on it was a removal |
| TagIndex.AnswerIs | tests/InvertedIndex.cpp:155-229 | so it answers a query exactly if that operation was no removal, and it is marked or carries every tag of a non-empty list by the file or by the history |
| TagIndex.Compact | tests/InvertedIndex.cpp:324-352 | the merged layer holds both layers without the dead ids and no empty tag |
| TagIndex.CompactConsistent | tests/InvertedIndex.cpp:324-386 | the merged index answers as the live layers, with an empty log and with the full log replayed on top |
| TagIndex.CrashConsistent | tests/InvertedIndex.cpp:207-386 | live state, old index and log, merged index and full log, merged index and empty log all answer alike |
| TagIndex.LaterMergeCrash | tests/InvertedIndex.cpp:324-386 | a crash in any later merge, between writing the index and emptying the log, changes no answer |
| TagIndex.MergeWithoutReload | tests/InvertedIndex.cpp:324-386 | after a merge without reload, live and restarted index agree on every query if and only if no re-inserted id had a tag that its re-insertion leaves out |
| TagIndex.ResurfacingExample | tests/InvertedIndex.cpp:207-229 | a concrete history on which they disagree |
| TagIndex.RestartAgrees | tests/InvertedIndex.cpp:272-386 | the same condition for a restart at any point of any history |
| TagIndex.InvertedIndexSearcher.constructor | tests/InvertedIndex.cpp:101-136 | load and recovery give the replay of what the log recovers to, for every log |
| TagIndex.InvertedIndexSearcher.Recover | tests/InvertedIndex.cpp:272-306 | the recovery loop replays the operations read in order, and then the one made of a record cut short |
| TagIndex.ReplayLog | tests/InvertedIndex.cpp:281-303 | the loop itself, for every log |
| TagIndex.InvertedIndexSearcher.Insert | tests/InvertedIndex.cpp:311-314 | logs, then applies: the id answers exactly the lists of its tags, new and old, and every list if it is universal; the other ids answer as before |
| TagIndex.InvertedIndexSearcher.Remove | tests/InvertedIndex.cpp:316-319 | logs, then applies: the id answers nothing, the other ids answer as before |
| TagIndex.InvertedIndexSearcher.Merge | tests/InvertedIndex.cpp:324-386 | the written index answers as the live one and an open log is emptied |
| PageCacheModel.CachedFile.Get | include/v2/page_cache.h:28-36 | a hit returns the content and adds a reference |
| PageCacheModel.CachedFile.Put | include/v2/page_cache.h:38-48 | stores the content and adds a reference |
| PageCacheModel.CachedFile.Deref | include/v2/page_cache.h:50-64 | drops one reference and the page with the last one |
| PageCacheModel.CachedFile.ReadAlloc | src/utils/linux_aligned_file_reader.cpp:526-557 | a call that nobody interrupts returns cached content or the file's, leaves one reference per request, changes no content |
| PageCacheModel.CachedFile.WbcWrite | include/aligned_file_reader.h:42-57 | the cache holds the new pages with a reference each |
| PageCacheModel.CachedFile.DerefAll | include/aligned_file_reader.h:58-67 | gives back one reference per page listed |
| PageCacheModel.ReadsLatest | src/utils/linux_aligned_file_reader.cpp:526-557 | every read of a page that is not written while it is fetched returns the latest content, and a page stale in the file is cached |
| PageCacheModel.NextKeeps | src/update/direct_insert.cpp:376-422 | every step of a client, and every single step of its reads, keeps coherence |
| PageCacheModel.AlwaysCoherent | src/update/direct_insert.cpp:376-422 | in every state of every run a page is cached exactly if referenced and counts are exact; contents are the latest on all pages that are not written while someone fetches them |
| PageCacheModel.LatestExactly | src/utils/linux_aligned_file_reader.cpp:526-557 | reads of a page give its latest content in every run if and only if it is never written while someone fetches it |
| PageCacheModel.LostWrite | include/v2/page_cache.h:28-48 | a run in which the put of one insert's read replaces what another insert has written |
| PageCacheModel.DerefAllowed | src/update/direct_insert.cpp:376-422 | the counts always suffice for a client to give back what it holds |
| LockOrder.UniqueMembers | include/ssd_index.h:377-388 | sorting and deduplicating keeps exactly the requested keys |
| LockOrder.SortAscends | include/ssd_index.h:355-366 | without deduplication the sequence ascends if and only if the ids are distinct |
| LockOrder.InsertTakes | src/update/direct_insert.cpp:134-356 | an insert locks exclusively the pages it writes, the vectors and mappings of the target and its neighbours, and the pages of the mapping, and nothing else |
| LockOrder.InsertAscends | src/update/direct_insert.cpp:134-356 | an insert takes page, vector, mapping and mapping-page locks in one ascending sequence |
| LockOrder.SearchTakes | include/ssd_index.h:392-403 | a search round locks exactly the mappings of its frontier, shared |
| LockOrder.SearchAscends | include/ssd_index.h:392-403 | a search round takes its locks ascending |
| LockOrder.RunOrdered | include/linux_aligned_file_reader.h:52-71 | in every state of every run each operation's sequence ascends, the tables hold exactly what was granted and not released, at most that for the vector locks of targets, and no two operations hold any other lock in conflict |
| LockOrder.InsertReleasesAll | src/update/direct_insert.cpp:350-419 | the releases of an insert cover all its locks in every table, each once except the target's vector lock, which the list names twice |
| LockOrder.VectorLockShared | src/update/direct_insert.cpp:350-356 | for every target k, a run in which inserts of targets m and n, not below k, hold the vector lock of k exclusively at once, because the second release dropped another insert's hold |
| LockOrder.ExclusiveExactly | src/update/direct_insert.cpp:350-356 | a lock of any table excludes in every run if and only if it is not the vector lock of an insert's target |
| LockOrder.DeadlockFree | include/ssd_index.h:355-447 | whenever an operation waits, some operation can step |
| LockOrder.SparseLockTable.TryRdLock | include/v2/lock_table.h:24-37 | succeeds exactly without a writer; there is an entry exactly for locked keys |
| LockOrder.SparseLockTable.TryWrLock | include/v2/lock_table.h:39-52 | succeeds exactly on a free key |
| LockOrder.SparseLockTable.Unlock | include/v2/lock_table.h:67-82 | releases one holder, removes the entry with the last one, and never traps |
| ShardMerge.AssignedIs | src/utils/partition_and_pq.cpp:646-654 | a shard's id map is strictly increasing and holds exactly the points assigned to it |
| ShardMerge.DealOut | src/utils/partition_and_pq.cpp:635-679 | buffering writes exactly those id maps |
| ShardMerge.DealtOut | src/utils/partition_and_pq.cpp:646-654 | a point with a shard is covered |
| ShardMerge.DealtShardsOk | src/utils/partition_and_pq.cpp:635-679 | the id maps dealt out are what the merge requires as soon as every point has a shard |
| ShardMerge.BytesJoin | src/utils/aux_utils.cpp:306-310 | a record takes four bytes for its count and four for each id |
| ShardMerge.InvertMaps | src/utils/aux_utils.cpp:222-235 | the pairs of node and shard, sorted and complete |
| ShardMerge.ReadsOwnList | src/utils/aux_utils.cpp:320-323 | each sequential read of a shard is the list of the node being merged |
| ShardMerge.NextNode | src/utils/aux_utils.cpp:300-319 | because every node is covered, the node after the current one is its successor |
| ShardMerge.MergeShards | src/utils/aux_utils.cpp:199-343 | record j is the list of node j: distinct neighbours from the shards, at most the maximum degree, all of them if fewer; the size field is the size of the file; the entry points are the shards' under their names in the whole graph |
| ShardMerge.CountNodes | src/utils/aux_utils.cpp:211-220 | the largest id plus one is the number of points |
| ProductQuantizer.FillBins | src/utils/partition_and_pq.cpp:225-252 | a bin is always found and each bin is a run of consecutive dimensions |
| ProductQuantizer.Chunks | src/utils/partition_and_pq.cpp:254-266 | the chunk offsets run from 0 to dim in balanced steps, and the order of the dimensions is unchanged |
| ProductQuantizer.SegOne | include/pq_table.h:137-152 | a distance over one more dimension grows by the square of the difference |
| ProductQuantizer.PopulateChunkDistances | include/pq_table.h:137-152 | the table holds every centre's squared distance to the query's chunk |
| ProductQuantizer.ChunkSumIs | include/ssd_index.h:46-65 | a sum over chunks is the squared distance to the decoded vector |
| ProductQuantizer.PqDistLookup | include/ssd_index.h:46-65 | the table sum of a code is the squared distance between the query and the decoded vector |
| ProductQuantizer.ResidualDistance | include/pq_table.h:143-149 | subtracting the centroid does not change distances |
| ProductQuantizer.Deflate | include/pq_table.h:199-216 | every chunk gets a nearest centre |
| ProductQuantizer.DeflateOptimal | include/pq_table.h:199-216 | no code of the 256^chunks decodes to a nearer vector |
| ProductQuantizer.AllToAll | include/pq_table.h:187-195 | the sum of the flat table's entries is the squared distance between the two decoded vectors, for every destination code |
| ProductQuantizer.FillAllToAll | include/pq_table.h:109-122 | the flat table holds the distance of every two centres in every chunk at its index |

## Left out

- I/O submission, O_DIRECT, prefetching, SIMD kernels, timers, logging and the Python bindings are foreign calls or plumbing.
- k-means training, sampling and recall are statistical and not decided by this code.
- The delta-pruning variant of the insert (`DELTA_PRUNING`, on in build.sh:1) is not modelled; the insert prunes as without it.
- Loading a partition file is not modelled; an index is loaded under the equal mapping.
- The product-quantised codes written by an insert, and the codes and tags copied by delete-merge, would only add easy members.
- Inserts are modelled one at a time; what several inserters share is covered by the lock protocol and the page cache.
- The hidden costs of pipelined search at exit are not modelled: reads of evicted entries may still be in flight, and data buffers are reused after 512 sends, so records are taken to stay readable once read.
- Dynamic list sizes, the filtered beam search, the time limit of a beam search, page search and the coroutine search are not modelled.
- Searches during a merge, and the streaming variant of delete-merge, are not modelled.
- Machine integer widths are unbounded here except where they decide something: path codes, log fields, request slots.
- Float rounding, and a distance that reaches the largest float, are not modelled.
- CuckooMapModel.CuckooMap.InsertRound: one round of the insert loop; the loop around it only repeats rounds and doublings, and its end depends on the other threads.
- SsdIndexModel.SsdIndex.Insert: takes the candidates that the search found as given, live and each id at one distance.
- PageCacheModel.CachedFile.ReadAlloc: is stated for a call that nobody interrupts; a read with other clients between its miss, its disk read and its put is the steps of `PageCacheModel.Run`.
- CuckooTable.MoveBucket: an old slot counts as vacated once its item has moved, where the code leaves moved-from storage behind.
- RobinHash.RobinMap.Erase: erases single keys; erasing ranges is not modelled, and stored distances are unbounded instead of 16 bits.
- MemIndexModel.MemIndex.AddPoint: takes the candidates of the search as given and not empty (the code aborts on none); growing a full index, eager deletes, and inserts between consolidation and compaction are not modelled, and one frozen start point is assumed.
- MemLinks.MemPrune: its callers take the location itself out of the candidates, so the filter for it is left out.
- TagIndex.RestartAgrees: covers restarts from logs of whole records; what a torn record does is `WalCodec.RestartReliable`. Running out of memory on a garbage count is not modelled.
- TagIndex.Compact: treats the index file as a value; the serialised bitmap format is that of a foreign library.
- ShardMerge.MergeShards: shard files are given as lists in file order with their entry point; the header fields for the width and the frozen points are not modelled.
