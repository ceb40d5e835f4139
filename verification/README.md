# Sum: a verified model of the cluster, the node store and the oracle plumbing

Sum is a database for vectors. Nodes keep records in memory and on disk; a master spreads records over its nodes,
moves them to level the load, answers queries by asking every node in parallel, and ships patched oracle code to
the nodes and merges what comes back. This project models that logic in Dafny and proves what it guarantees.

How the model is laid out:

- `Records`, `Paging`, `Storage`, `MetaIndex`: a node. Records are values; a store is a map from id to record. The
  in-memory index, the data files, the next id, the index of meta values and the paged listing.
- `Nodes`, `NodeLists`, `Balance`, `Cluster`: the master's state (what each node holds, the cached count and next id
  of each node, the master's next id) and every handler as a function from one state to the next. The outcome of
  every RPC is a parameter, so a theorem over all parameters is a theorem over every pattern of failures.
- `ClusterSteps`, `Batches`, `FailedBatches`, `Deletes`, `Drain`, `DrainCounts`, `ClusterRuns`, `AccurateRuns`,
  `ContentRuns`: what the handlers keep, add and remove, step by step and over whole runs. `HandlerEffects`: what each
  handler leaves in every field of the state, told without its specification function.
- `Service`: the master as objects updated in place. Each method is proved to take the state where the corresponding
  function of `Cluster` says.
- `FanOut`, `Queries`: the goroutines, channels and wait groups of the fan-out as an interleaving step system, and
  read, update, delete and the existence query on top of it with their cancellation.
- `Patcher`, `Merger`, `Similarity`: rewriting oracle source, merging results, cosine similarity over the reals.

Conventions. A create RPC can be stored, stored although reported as failed, not stored, or rolled back by the node
(which then erases every id of the batch). A single update or delete RPC is answered, or fails or is cancelled with the
node having acted or not. Counts and ids are natural numbers; the subtractions on counters and the page arithmetic wrap
at 2^64 as the code's do. `Contents` is the union of the node maps. A flush writes its file completely or not at all,
and reading a file back gives the record that was written. The walker that visits an oracle's syntax tree is not part of
this model: it is taken to visit the children of a node in source order (`WellNested`). A record is taken to serialise to
text that ends in a brace.

Where a natural guarantee does not hold, the code is kept as it is and the exact condition is proved:

- `FindByNeverMisses` needs updates that carry new meta values to be flushed: a failed flush changes the record in
  memory but not the index (`UpdateCoversIff`, example `FailedFlushIsMissed`).
- `CreateRecord` keeps the invariant exactly when a failed RPC was not applied (`CreateRecordInvIff`). A new master
  hands out ids from 1 on, whatever its nodes hold: its first creates are right exactly when no node holds one of the
  ids they get (`NewMasterUniqueIff`, example `NewMasterRepeatsIds`).
- A failed batch restores a node exactly when none of its ids was already stored (`FailedBatchRestoresIff`).
- Merging does not depend on delivery order exactly when both or neither order starts with a null
  (`OrderDoesNotMatterIff`).
- Patching lookups in an order other than the source's: on every source in which the collected spans read as lookups,
  every splice is right exactly when at each one the replacements already made further right have not changed the
  length (`PatchIsRightIff`). `BackwardVisitGoesWrong` is a function of two parameters that comes out mangled.
- A drain with failing transfers keeps the survivors' counts right exactly when the leaving node had no record, or at
  least one for each survivor, or none of the transfers that should move a record failed, or none that should move
  nothing was carried out: a request for no records is raised to one (`LeaveAccurateIff`, example
  `FailedDrainBreaksCounts`).
- With failing transfers a node leaves with records the survivors do not have, unless it had none, or one or more for
  each survivor and every transfer was carried out, or fewer and at least as many transfers were (`LeaveKeepsAllIff`).
- A failed batch leaves the union as it was exactly when no node is left with records of the batch, or some node accepted
  and the cleanup reaches each node that is: if none accepts there is no cleanup (`FailedBatchUnionIff`).
- `FindBy` equals a scan as long as the index stays exact. A create or batch spoils that exactly when it stores an id
  that is filed already, as that of a deleted record with meta values is; an update does when it supplies meta values
  for a record that had some, or fails to flush other ones than it had. What follows is a stale or doubled entry
  (`ApplyExactIff`).
- A single delete keeps the counts right exactly when no node removed the record without answering
  (`DeleteRecordAccurateIff`).
- A node's creates all succeed exactly when none of the ids ahead of its next id is stored (`CreatesSucceedIff`). Storing
  the next id explicitly blocks every create until that record is removed (`BlockedIff`, `CreateBlocked`).
- A page is answered rightly exactly when its end stays below 2^64 or its wrapped start is past the last record
  (`ListRecords`, example `WrappedPageRepeats`).
- Removing a record from the index of meta values removes nothing (`MetaIndexRemove`), so deleted ids stay in their
  buckets; `FindBy` skips them.

## Model

| member | source | states |
|---|---|---|
| `Nodes.TransferLosesNoId` | master/balancer.go:10-59 | for every combination of list, create and delete outcomes, every id on one of the two nodes is still on one of them and none appears |
| `Nodes.TransferKeepsRecords` | master/balancer.go:10-59 | for every combination of outcomes, agreeing nodes together hold exactly the same records after a transfer |
| `Nodes.TransferDisjointIff` | master/balancer.go:21-58 | disjoint nodes stay disjoint if and only if nothing was listed or a create was applied exactly when the delete was |
| `Nodes.TransferMoves` | master/balancer.go:21-58 | with accurate counts a successful transfer moves exactly the number asked for and both counters stay accurate |
| `Nodes.TransferMovesLowest` | master/balancer.go:21-58 | a transfer that is carried out moves the donor's lowest ids, and raises the receiver's cached next id to the least one above them that does not lower it |
| `Service.TransferRecords` | master/balancer.go:10-59 | the in-place transfer does to both nodes what the transfer function says, counters and next id included |
| `Balance.TargetsAddUp` | master/balancer.go:75-87 | the targets add up to the total |
| `Balance.TargetsLevel` | master/balancer.go:75-87 | any two targets differ by at most one |
| `Balance.DeltasSumToZero` | master/balancer.go:83-88 | the deltas always sum to zero |
| `Balance.GreedySettles` | master/balancer.go:102-128 | from any point of the two nested loops the remaining moves are feasible, end with every delta zero and number fewer than the unsettled deltas |
| `Balance.PlanSettles` | master/balancer.go:102-134 | the whole matching leaves every delta zero in at most one transfer fewer than there are nodes |
| `Balance.PlanInOrder` | master/balancer.go:102-128 | receivers are served in order, each by the donors in order, and every transfer is as large as donor and receiver allow |
| `Balance.BalanceLosesNoId` | master/balancer.go:62-135 | for every pattern of failures, no id is lost by a balance |
| `Balance.BalanceKeepsRecords` | master/balancer.go:62-135 | for every pattern of failures, agreeing nodes still agree and the union of records is unchanged |
| `Balance.BalanceKeepsDisjoint` | master/balancer.go:62-135 | nodes stay disjoint when failed creates were not applied and deletes were |
| `Balance.BalanceStaysBelow` | master/balancer.go:41-47 | stored ids and cached next ids stay below any bound they were below, and nodes keep their identity |
| `Balance.BalanceNeverUnderflows` | master/balancer.go:58-128 | for every pattern of failures no donor's counter drops below its target, so no subtraction wraps, and the cached total is unchanged |
| `Balance.BalanceIsExact` | master/balancer.go:75-128 | with accurate counts and successful transfers a triggered balance leaves every node at its target |
| `Balance.UntriggeredIsLevel` | master/balancer.go:90-98 | an untriggered balance means no node is more than 5% of the even share below its target, and hence none more than that times the number of other nodes above it |
| `Balance.BalanceHysteresis` | master/balancer.go:75-128 | while no node is more than 5% of the even share below its share a balance moves nothing, whatever the RPCs would do; once one is, with accurate counts and successful transfers every node ends at its share |
| `Balance.BalanceLevels` | master/balancer.go:62-135 | with accurate counts and successful transfers no node is more than 5% of the even share short after a balance |
| `Service.Master.ComputeDeltas` | master/balancer.go:75-98 | computes the deltas and detects exactly the triggered states |
| `Service.Master.ServeReceiver` | master/balancer.go:103-127 | the inner loop, on live deltas, stays on the planned course |
| `Service.Master.CarryOut` | master/balancer.go:102-128 | the outer loop reaches the planned end state with every delta zero |
| `Service.CountUnsettled` | master/balancer.go:130-134 | the closing loop warns once per non-zero delta |
| `Service.Master.BalanceLoad` | master/balancer.go:62-135 | the in-place balance reaches the specified state and never warns |
| `Service.Master.SetNextIdIfHigher` | master/mux_records.go:13-19 | raises the next id past the given id and never lowers it |
| `Cluster.LeastLoaded` | master/mux_records.go:21-34 | the first node with the fewest cached records |
| `Service.Master.FindLessLoadedNode` | master/mux_records.go:21-34 | the loop finds that node, or reports that there is none |
| `Service.Master.CreateRecord` | master/mux_records.go:44-69 | the handler takes the state where the specification says, for every RPC outcome |
| `HandlerEffects.CreateRecordPlaces` | master/mux_records.go:21-69 | for every outcome: the record goes to the first node with the fewest cached records, under the next id; which counters and next ids change, and that nothing else does |
| `ClusterRuns.CreateRecordNeverCollides` | master/mux_records.go:44-69 | under the invariant an applied create succeeds, under an id nobody holds, and adds exactly that record to the union |
| `ClusterRuns.CreateRecordInvIff` | master/mux_records.go:60-66 | the invariant is kept if and only if a failed create was not applied |
| `ClusterRuns.CreateRecordUniqueIff` | master/mux_records.go:44-69 | on disjoint nodes, without the invariant: an applied create succeeds and keeps ids unique if and only if nobody holds the next id |
| `ClusterRuns.CreatesUniqueIff` | master/mux_records.go:44-69 | any number of creates succeed and keep ids unique if and only if nobody holds one of the ids they get; then exactly these ids are added |
| `ClusterRuns.NewMasterUniqueIff` | master/mux_service.go:54-72 | the first creates of a new master, after its balance, are right if and only if no node holds one of the ids 1, 2, ... they get |
| `ClusterRuns.NewMasterRepeatsIds` | master/mux_service.go:54-72 | a new master over a node that holds record 1 stores a second record 1 |
| `Service.Master.constructor` | master/mux_service.go:54-72 | a new master starts at id 1, numbers nodes after those given and balances |
| `Service.Master.CreateRecordWithId` | master/mux_records.go:324-366 | the handler takes the state where the specification says, for every set of answering nodes and RPC outcome |
| `HandlerEffects.CreateRecordWithIdPlaces` | master/mux_records.go:324-366 | the same for a record with its own id, and no change when a node reports the id |
| `ClusterRuns.CreateRecordWithIdSucceeds` | master/mux_records.go:324-366 | with every node answering, success if and only if nobody holds the id, a node exists and applies the create; then exactly that record is added |
| `ClusterRuns.CreateRecordWithIdInvIff` | master/mux_records.go:338-364 | the exact condition, on answers, outcome and id, under which the invariant is kept |
| `Queries.ExistenceQuery` | master/mux_records.go:338-349 | for every interleaving, failure and cancellation the existence query finds the id if and only if a node that answered holds it; if it finds nothing, every node that did not fail has answered |
| `ClusterRuns.CreateWithIdOverFanOut` | master/mux_records.go:324-366 | with no failing node, under every interleaving and cancellation: success if and only if nobody holds the id, a node exists and applies the create |
| `Service.Master.Creator` | master/mux_records.go:380-406 | one slice on one node, with its effect on counters and next ids |
| `HandlerEffects.CreatorCounts` | master/mux_records.go:380-406 | the exact counters and next ids after an accepted slice |
| `Service.Master.SpreadOver` | master/mux_records.go:408-424 | the splitting loop reaches the specified progress |
| `Service.Master.CreateRecordsWithId` | master/mux_records.go:369-451 | split, fallback, rollback and balance take the state where the specification says |
| `HandlerEffects.BatchLevels` | master/mux_records.go:408-450 | with accurate counts, clean creates and successful transfers, no node is more than 5% of the even share short after a successful batch |
| `Batches.SplitConcatenates` | master/mux_records.go:377-450 | for every pattern of create outcomes, applied-but-failed ones included: on success the accepted slices concatenate to the batch; success if and only if some node accepts and its share ends the batch or the fallback accepts |
| `Batches.SplitAddsBatch` | master/mux_records.go:377-450 | for every pattern of create and transfer outcomes, on success the union is the old records plus the batch |
| `Batches.SplitPlacesAll` | master/mux_records.go:377-450 | when failed creates are not applied, success leaves each record of the batch on one node; if no node accepts nothing changes |
| `Batches.RollbackRestores` | master/mux_records.go:430-446 | when some node accepted, the call fails and the cleanup deletes are applied, the union is what it was, whatever every create did and however the balance inside failed |
| `FailedBatches.FailedBatchUnionIff` | master/mux_records.go:408-450 | for every pattern of create, delete and transfer outcomes, the exact condition under which a failed call with new ids leaves the union as it was |
| `Service.Master.PurgeNodes` | master/mux_records.go:468-473 | deletes on every node, refreshes each status and raises the next id |
| `Deletes.PurgeInAnyOrder` | master/mux_records.go:468-473 | however the workers interleave, the nodes and the next id end as after one pass in order |
| `Service.Master.DeleteRecords` | master/mux_records.go:453-487 | the handler takes the state where the specification says and judges success by the totals |
| `HandlerEffects.DeleteRecordsVerdict` | master/mux_records.go:461-485 | success if and only if, in 64-bit arithmetic, the new total and the number of ids add up to the old total |
| `HandlerEffects.DeleteRecordsRaises` | master/mux_records.go:468-473 | the next id becomes the least one not below what it was and above every next id then cached |
| `HandlerEffects.DeleteRecordsLevels` | master/mux_records.go:475 | no node is more than 5% of the even share short afterwards |
| `Deletes.PurgeLowersTotal` | master/mux_records.go:461-479 | the total drops by the number of given ids that were stored |
| `Deletes.DeleteRecordsSuccess` | master/mux_records.go:453-487 | with disjoint accurate nodes, success if and only if the ids are distinct and all stored, however the balance in between fails |
| `Deletes.DeleteRecordsRemoves` | master/mux_records.go:465-475 | exactly the given ids leave the union, however the balance fails |
| `Deletes.DeleteRecordRemoves` | master/mux_records.go:242-286 | for every outcome of every RPC, the record leaves the union of agreeing nodes if and only if every holder acted, and nothing else changes |
| `Deletes.UpdateRecordUpdates` | master/mux_records.go:72-104 | for every outcome of every RPC, the union of disjoint nodes is updated if and only if the holder acted |
| `HandlerEffects.UpdateRecordOverlays` | node/storage/record_driver.go:30-45 | an update that reached its holder replaces in the union exactly the fields it carries, keeps the id and leaves other records alone |
| `Service.NodeInfo.UpdateStatus` | master/node.go:29-43 | the cached status becomes what the node reports, or stays if it does not answer |
| `Service.Master.UpdateNodes` | master/mux_service.go:100-108 | refreshes every cached status |
| `HandlerEffects.UpdateNodesRefreshes` | master/node.go:29-43 | a node that answers is counted right afterwards, whatever was cached; the others keep what was cached |
| `Service.Master.AddNode` | master/mux_nodes.go:10-32 | a reachable node joins under the next node id, the next id is raised and the load levelled; an unreachable one changes nothing |
| `HandlerEffects.AddNodeNumbers` | master/mux_nodes.go:19-24 | the new node is last, under the next node id; the next id is raised past the one it reports |
| `HandlerEffects.AddNodeLevels` | master/mux_nodes.go:28 | no node is more than 5% of the even share short afterwards |
| `ClusterRuns.JoiningInv` | master/mux_nodes.go:19-24 | the invariant survives if and only if the new node's ids are new and below the raised next id |
| `Service.Master.DeleteNode` | master/mux_nodes.go:51-94 | swap-remove and drain take the state where the specification says; no nodes at all is a panic |
| `HandlerEffects.DeleteNodeVerdict` | master/mux_nodes.go:51-73 | a panic exactly without nodes, nothing exactly when no node has the id; otherwise that node leaves, the last takes its place and the other ids stay |
| `Drain.DrainEmpties` | master/mux_nodes.go:75-91 | with accurate counts and successful RPCs the leaving node ends empty and each survivor gains exactly its share, also with fewer records than survivors |
| `Drain.DeleteNodeKeepsRecords` | master/mux_nodes.go:51-94 | for every pattern of failures survivors and leaving node together hold the same records; with accurate counts and successful RPCs the survivors alone do |
| `ContentRuns.LeaveKeepsAllIff` | master/mux_nodes.go:51-94 | for every pattern of clean failures, the exact condition, on the leaving node's count, the number of survivors and the RPC outcomes, under which the survivors alone hold everything |
| `DrainCounts.LeaveAccurateIff` | master/mux_nodes.go:51-94 | for every pattern of clean failures, the exact condition, on the leaving node's count, the number of survivors and the RPC outcomes, under which the survivors' counts stay right |
| `ClusterRuns.ApplyKeepsInv` | master/mux_records.go:13-487 | every admissible handler call, with any outcome of its single update and delete RPCs, keeps ids disjoint and below the next id, and node ids distinct |
| `ClusterRuns.InvOverRuns` | master/mux_records.go:13-487 | in every state an admissible run reaches the invariant holds and an applied create succeeds under an unused id |
| `ClusterRuns.QueryKeepsInv` | master/mux_records.go:72-286 | a read, update or delete keeps the invariant under every interleaving, failure and cancellation of its fan-out |
| `ContentRuns.ApplyHas` | master/mux_records.go:44-487 | what each handler call does to the union of records |
| `ContentRuns.ContentsOverRuns` | master/mux_records.go:44-487 | after every settled run, with nodes joining, leaving and being balanced and any clean failures, the union is the fold of the calls' effects |
| `AccurateRuns.ApplyStaysAccurate` | master/balancer.go:39-58 | every sound handler call keeps cached counts equal to what nodes hold, failed transfers of balances and of drains included |
| `AccurateRuns.AccurateOverRuns` | master/mux_records.go:44-487 | over every sound run the invariant and the counts hold |
| `AccurateRuns.DeleteAfterRun` | master/mux_records.go:453-487 | after any sound run from an empty master a bulk delete succeeds exactly for distinct stored ids and removes exactly those |
| `AccurateRuns.DeleteRecordAccurateIff` | master/mux_records.go:258-273 | a single delete keeps the counts right if and only if no node removed the record without answering |
| `DrainCounts.FailedDrainBreaksCounts` | master/mux_nodes.go:82-90 | one record, two survivors: when only the transfer that should move it fails, a count is wrong |
| `FanOut.StepInv` | master/paralleliser.go:19-59 | every step of every goroutine keeps the control invariant and accounts for everything owed |
| `FanOut.DoParallelDelivers` | master/paralleliser.go:9-60 | for every interleaving and all finite scripts with panics: no send meets a closed channel, no state before return is stuck, and on return the lists are as multisets exactly what was sent, panic errors included |
| `FanOut.RunsEnd` | master/paralleliser.go:9-60 | every run is finite, bounded by the scripts |
| `Queries.NeverFalselyMissing` | master/mux_records.go:72-141 | for every interleaving, failure pattern and cancellation: success only for a record some node held, a read returning what such a node holds, and not found only for a record no node held |
| `Queries.QueryNeverStuck` | master/paralleliser.go:19-59 | a query in any reachable state that has not returned can take a step |
| `Queries.ActsOnUnion` | master/mux_records.go:72-286 | with disjoint nodes and no genuine failure, for every interleaving and cancellation point, read, update and delete answer as lookup in the union, and only the holder changes |
| `Queries.RunIsSpecified` | master/mux_records.go:72-286 | whatever fails, is cancelled or interleaves, the nodes end as the cluster handler leaves them for some outcomes of its RPCs |
| `Queries.ServedIsSpecified` | master/mux_records.go:242-286 | when every node answers, the state the fan-out reaches is the one the cluster handlers are specified by |
| `Storage.Index.Load` | node/storage/index.go:72-102 | loads the files in any listed order |
| `Storage.Index.CreateRecord` | node/storage/index.go:154-172 | create under the next id, or fail and change nothing |
| `Storage.Index.CreateRecordWithId` | node/storage/index.go:174-188 | create under the given id without advancing the next id, or fail and change nothing |
| `Storage.Index.CreateManyWithId` | node/storage/index.go:190-218 | store the batch, or at the first failing flush erase every id of it |
| `Storage.Index.UpdateRecord` | node/storage/index.go:223-235 | the record changes in memory, and on disk if flushed |
| `Storage.UpdateOverlays` | node/storage/record_driver.go:30-45 | the update replaces exactly the fields it carries, in memory, and on disk if it is flushed |
| `Storage.FailureChangesNothing` | node/storage/index.go:154-235 | a create fails exactly when its id is stored or its flush fails, and then changes nothing; nor does an update of a missing record |
| `Storage.Index.DeleteRecord` | node/storage/index.go:253-267 | the record leaves memory and disk and is returned |
| `Storage.Index.DeleteRecords` | node/storage/index.go:270-287 | every given id leaves memory and disk, and the removed records are returned |
| `Storage.RemovedRestores` | node/storage/index.go:270-287 | a bulk delete returns exactly the stored records with a given id, each once; storing them again undoes it |
| `Storage.UpdateSyncedIff` | node/storage/index.go:223-235 | memory and disk stay equal if and only if the update is flushed, finds nothing or changes nothing |
| `Storage.RunSynced` | node/storage/index.go:154-287 | memory and disk agree after every run with any failing flushes of creates |
| `Storage.ReloadAfterRun` | node/storage/index.go:72-102 | after any such run a fresh load, in any file order, has the same records and the smallest next id above them |
| `Storage.FailedBatchRestoresIff` | node/storage/index.go:190-218 | a failed batch leaves the store unchanged if and only if none of its ids was stored |
| `Storage.OutcomesMatch` | node/storage/index.go:174-218 | the node outcomes assumed of RPCs are those the index produces |
| `Storage.CreatesSucceedIff` | node/storage/index.go:154-172 | any sequence of flushed creates succeeds if and only if none of the ids ahead of the next id is stored; then it stores exactly its records under consecutive ids and leaves the others alone |
| `Storage.BlockedIff` | node/storage/index.go:154-287 | once the next id is stored, an operation makes a create possible again if and only if it removes that record |
| `Storage.CreateBlocked` | node/storage/index.go:160-188 | storing the next id explicitly makes every create fail along every run that does not remove that record |
| `MetaIndex.RecordStore.constructor` | node/storage/records.go:20-35 | loading and indexing a folder |
| `MetaIndex.RecordStore.MetaIndexCreate` | node/storage/records.go:37-48 | files the id under each pair, whatever the order of the pairs |
| `MetaIndex.CutFirst` | node/storage/records.go:73-80 | the search of a bucket cuts out the first occurrence of the id, if there is one |
| `MetaIndex.RecordStore.MetaIndexRemove` | node/storage/records.go:67-83 | with the search and the write of the code, the index stays as it was and the write to a nil map is never reached |
| `MetaIndex.RecordStore.Find` | node/storage/records.go:103-123 | the stored records of the bucket, in order |
| `MetaIndex.StoredInOrder` | node/storage/records.go:112-120 | results come in the order of the bucket |
| `MetaIndex.KnownKeys` | node/storage/records.go:107-110 | there is an answer, also an empty one, exactly for a key something was filed under |
| `MetaIndex.RecordStore.Create` | node/storage/records.go:125-137 | create, then index on success |
| `MetaIndex.CreatedAs` | node/storage/records.go:125-137 | a missing shape becomes one dimension as long as the data; the rest is stored as given under the next id |
| `MetaIndex.RecordStore.CreateWithId` | node/storage/records.go:139-145 | create, then index on success |
| `MetaIndex.RecordStore.CreateManyWithId` | node/storage/records.go:147-165 | create the batch, then index it on success |
| `MetaIndex.RecordStore.Update` | node/storage/records.go:167-174 | update, then index on success |
| `MetaIndex.RecordStore.Delete` | node/storage/records.go:178-186 | delete and return the record, leaving the buckets alone; no panic |
| `MetaIndex.RecordStore.DeleteMany` | node/storage/records.go:188-207 | delete many and return what was removed, leaving the buckets alone; no panic |
| `MetaIndex.UpdateCoversIff` | node/storage/records.go:167-174 | the index stays complete if and only if the update is flushed, finds nothing or carries only filed pairs |
| `MetaIndex.FindByNeverMisses` | node/storage/records.go:103-123 | over every run whose updates are filed, each stored record with the pair is found and every result is stored |
| `MetaIndex.FailedFlushIsMissed` | node/storage/index.go:228-234 | an update whose flush fails is not found under its new value and still found under its old one |
| `MetaIndex.ApplyExactIff` | node/storage/records.go:37-207 | for each operation the exact condition under which every bucket still lists each stored id with its pair once |
| `MetaIndex.FindByIsScan` | node/storage/records.go:103-207 | over every run of such operations, FindBy returns exactly what a scan would, each record once |
| `MetaIndex.LoadedIsExact` | node/storage/records.go:26-32 | a freshly loaded store, indexed in any order, starts such a run |
| `Paging.ListRecords` | node/service/records.go:66-114 | in 64-bit arithmetic: the whole response, a panic included; it is the right page if and only if the page's end stays below 2^64 or the wrapped start is past the last record |
| `Paging.WrappedAnswer` | node/service/records.go:78-112 | for every page: when the handler panics, and which records it lists from the wrapped start |
| `Paging.PagesPartition` | node/service/records.go:66-114 | pages 1 to the page count concatenate to all records in strictly increasing id order, none of them is empty, later ones are |
| `Paging.WrappedPageRepeats` | node/service/records.go:78-88 | page 2^63 + 1 of two records each is answered with the records of page 1, although nothing is on it |
| `Paging.FirstPage` | node/service/records.go:70-88 | page 1 has the first records by id, at least one being asked for |
| `Paging.SortIsSortedRecords` | node/service/records.go:96-99 | sorting any enumeration of the map gives the one increasing listing |
| `Patcher.AstRaccoon.constructor` | master/ast_raccoon.go:34-49 | collects the lookups of the function body, and marks exactly the parameters that occur in one, each name at its first position |
| `Patcher.AstRaccoon.Enter` | master/ast_raccoon.go:158-203 | collects a node exactly if it is a lookup of a parameter, marks the first parameter of that name, and stops there |
| `Patcher.LookupsInOrder` | master/ast_raccoon.go:158-203 | on a well-nested tree the collected lookups are disjoint and in source order |
| `Patcher.LookupsAre` | master/ast_raccoon.go:158-203 | the walk collects exactly the calls of records.Find, up to white space, with one argument that is a parameter, which are not inside another such call |
| `Patcher.AstRaccoon.PatchCode` | master/ast_raccoon.go:94-148 | computes the splices of all selected lookups with the running shift; no patch if a needed record cannot be serialised |
| `Patcher.EditsAre` | master/ast_raccoon.go:94-145 | an edit is made exactly for each lookup of a resolved parameter, at its place, with the record's text or null for a missing one; none if and only if a needed record cannot be serialised |
| `Patcher.EditsInOrder` | master/ast_raccoon.go:118-145 | edits come parameter by parameter, and for each in source order |
| `Patcher.SplicePanicsIff` | master/ast_raccoon.go:138-143 | a splice panics exactly when one of its ends lies outside the text |
| `Patcher.RunningShiftIsSubstitution` | master/ast_raccoon.go:118-145 | for disjoint spans in increasing order, in bounds, equal to replacing all spans at once |
| `Patcher.OutsideUnchanged` | master/ast_raccoon.go:138-143 | text outside the spans is unchanged, moved by the growth before it |
| `Patcher.AnyOrderIsSubstitution` | master/ast_raccoon.go:118-145 | for disjoint spans in any order, equal to replacing all at once as long as replacements further right have kept the length |
| `Patcher.RightOrderIff` | master/ast_raccoon.go:118-145 | for spans visited in any order, every splice is right on all sources of that length if and only if at each one the replacements further right have kept the length |
| `Patcher.OffTargetLookup` | master/ast_raccoon.go:118-145 | on every source in which it replaces a lookup by a serialised record, a splice goes wrong when the replacements further right have changed the length, in either direction |
| `Patcher.CallReadsAsLookup` | master/ast_raccoon.go:165-184 | a call of records.Find, written with any white space, on one identifier reads as a lookup |
| `Patcher.PatchIsRightIff` | master/ast_raccoon.go:94-203 | for distinct parameters, any well-nested tree and any one source in which its lookups read as such: every splice is right if and only if at each one the replacements further right have kept the length |
| `Patcher.BackwardVisitGoesWrong` | master/ast_raccoon.go:94-148 | a function of a and b that looks up b and then a, both missing: the text that comes out, next to the right one |
| `Patcher.OneParameterPatch` | master/ast_raccoon.go:94-203 | with one looked-up parameter, on every well-nested tree, all its lookups are replaced at once |
| `Merger.DefaultMerger` | master/mux_runner.go:195-232 | fails exactly on differing types, a repeated key or an unsupported type; otherwise the union of maps or the concatenation of lists; a leading null panics |
| `Merger.MergeMeans` | master/mux_runner.go:195-232 | maps without a common key give all their entries and no others, lists all their items in order, nothing gives null, a leading null panics, anything else fails |
| `Merger.OrderDoesNotMatterIff` | master/mux_runner.go:195-232 | two orders of the same results merge alike, lists as multisets, if and only if both or neither start with a null |
| `Similarity.Dot` | node/backend/naive.go:29-36 | the dot product over the first vector's length |
| `Similarity.DotLinear` | node/backend/naive.go:29-36 | the dot product is linear |
| `Similarity.DotUnit` | node/backend/naive.go:29-36 | the dot product with a unit vector is that component |
| `Similarity.CauchySchwarz` | node/backend/naive.go:29-36 | the square of a dot product is at most the product of the self products |
| `Similarity.Cosine` | node/wrapper/record.go:92-103 | the cosine lies in [-1, 1] and times both magnitudes is the dot product, also when the second vector is longer |
| `Similarity.CosineLaws` | node/wrapper/record.go:92-103 | the cosine is symmetric, bounded, 0 when either vector is zero and 1 of a non-zero vector with itself |

## Left out

- gRPC, TLS, contexts and timeouts, logging, configuration files, commands and generated code: an RPC is a step with an outcome.
- The JavaScript engine and parser, JSON, gzip, protobuf and blas32: syntax trees with their spans and the JSON text of a record are given; what patched JavaScript means is not modelled.
- Master `ListRecords`, `FindRecords` and `ListNodes`: the first asks every node for its own first page, so there is no page law to state; the others only collect.
- Oracle create, read, update and delete, oracle stealing, the compiled cache, the VM pool, custom merge functions and `Info`: bookkeeping without state shared between nodes.
- Masters used as nodes of other masters: nodes are leaves.
- Lock order and races between handlers: a handler is one step; interleaving is modelled inside the fan-out.
- Service.Master.PurgeNodes: the workers of the fan-out are taken one node after the other; `PurgeInAnyOrder` proves that every interleaving ends in the same state.
- Service.Master.CreateRecordWithId: its existence query is the set of nodes that answer; `ExistenceQuery` proves that every run of the fan-out is described by such a set.
- Service.Master.AddNode: the oracles stolen from a new node are not modelled.
- Similarity.Cosine: floating-point rounding is not modelled; the square root is any exact non-negative root.
- Storage.Index.Load: an unreadable file, a failing removal of a file and a half-written file are not modelled.
- Counters and ids above 2^63, and the wrap-around of sums of counters.
- Jaccard similarity and the ranged variants of dot and cosine: variations of what is modelled.
- Patcher.PatchIsRightIff: parameters that share a name are not covered; the code then replaces a lookup of it twice.
- Aliasing of records: a stored record is a value, so a later change to the object a caller passed in is not seen.
