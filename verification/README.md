# Verification of pullrun's core

A Dafny model of the parts of pullrun whose correctness is easiest to get wrong, with proofs of what
they keep. `dafny verify dfyconfig.toml` checks the whole project. Code that changes state step by
step is modelled by classes and loops proved equal to specification functions; the laws are then
proved of those functions, for all inputs and over all runs.

| component | files |
|---|---|
| garbage collection of the content-addressed store | `StoreLayout`, `StoreFiles`, `StoredBytes`, `Graph`, `MmapStore`, `Enumeration`, `Collection`, `Marking`, `SizeGuard`, `Sweep`, `SweepOutcome`, `EmptyDirs`, `GarbageCollector`, `ConcurrentSweep`, `StoreExamples` |
| IP address management | `Cidr`, `CasAllocator`, `SubnetPools` |
| start order of compose services | `ServiceOrder` |
| detach keys in attached terminals | `DetachFilter`, `DetachChunks` |
| index and checkpoints of the Kubernetes runtime shim | `CriIndex`, `CriPods`, `CriServer` |
| scheduling and checkpoints of the control plane | `Placement`, `PlacementStore` |
| names in DNS messages | `DnsName`, `Utf8` |

`Wrappers` holds the shared result types.

**Garbage collection.** A store is a map from paths to files; nodes form a graph through the edges in
their archives. A collection enumerates, walks from the roots and unlinks what it did not meet. It is
proved to remove exactly the garbage, to fail if and only if the file system refuses to give up some
of it, to lose no live node wherever it stops, and to compose over any sequence of complete and
interrupted collections.

**Addresses.** The lock-free counter is a state machine of loads and exchanges by any number of
threads; every call is proved to get the next address or to find all of them granted. Keyed subnets
and the host addresses in them are proved disjoint over every sequence of calls, and a search to
succeed if and only if one of the next 64 subnets can be had.

**Shim and control plane.** Each is a state machine over its calls, restarts and crashes, with memory
and checkpoint files as its state. The class methods are proved to take the steps of the machine.

## Where the code and its promises differ

The model follows the code. Each difference below is a theorem with its exact condition and, beside
it, an input or a run on which the promise fails. Where arithmetic wraps, the model is that of a build
without overflow checks, which is what the release profile makes; a build with them stops instead.

- The size guard of a collection is described as weighing the garbage against the store
  (`runtime/pullrun-gc/src/lib.rs:137-140`). It weighs it against the bytes the process has cached
  (`SizeGuard.GuardProtectsIff`): the nodes cached before, the live nodes and the cached blobs, or, if
  the nodes do not fit the cache, about its limit, 256 MiB by default, and the blobs
  (`SizeGuard.GuardIff`). So a fresh process lets a collection through that frees all but a byte of
  200 MiB, which a process that has cached the garbage refuses (`StoreExamples.GuardLetsThrough`);
  it refuses one that frees less than half of 210 MiB (`StoreExamples.GuardRefusesHalf`); and it
  refuses to free 300 MiB of any tidy store with a gigabyte or more of live data in nodes of at most
  1 MiB, which a process with 80 MiB of cached blobs lets go (`SizeGuard.LargeStoreIsRefused`).
- A node file at a path that is not its digest's own is listed too. The counts of a report add up, and
  a listing is exact, only without such files: `Marking.CountsAddUpIffNoStrayCopy`,
  `StoreFiles.ListingIsExactIffTidy`, `StoreExamples.CopyUpsetsCounts`.
- A collection that stops between a node and its blob leaves a blob no later collection removes:
  `ConcurrentSweep.OrphanBlobIff`, `StoreExamples.StoppedSweepLeavesBlob`.
- A child of a node put during a sweep can be swept: `ConcurrentSweep.ChildSurvivesIff`,
  `StoreExamples.ParentLosesChild`.
- The prefix length 0 makes the shift wrap and yields a block of one address: `Cidr.CidrContainsIff`.
- The end test of the subnet allocator wraps every 2^24 subnets and offers the subnet before the range:
  `SubnetPools.SubnetsInsideIff`, `SubnetPools.AssignedInsideIffBefore`, and for every range a run that
  gets there, `SubnetPools.OutsideRun`.
- `sortServices` copies its result over the requested names, so a dependency that was not requested
  pushes out the service that needs it: `ServiceOrder.ReorderingIff`, `ServiceOrder.SingleNameIsLost`.
- An empty chunk releases a withheld Ctrl-P, which can hide a detach pair:
  `DetachChunks.ChunksDoNotMatterIff`, `DetachFilter.EmptyChunkHidesPair`. The pump never passes one on.
- Reconciliation at startup corrects memory but not the checkpoints: `CriIndex.ReportSurvivesIff`,
  `CriIndex.PodReportSurvivesIff`, `CriPods.PhantomContainer`, `CriPods.PhantomReadyPod`.
- Stopping a pod is not written to its checkpoint, so a restart without a listing makes it ready again:
  `CriPods.SleepsThroughIff`, `CriPods.RestartForgetsStop`.
- The bridge of a pod is described as named by a hash of its id (`cri/pullrun-cri/runtime_service.go:63-65`).
  It is named by the end of the id, so pods whose ids end alike share it: `CriIndex.BridgeNamesAgreeIff`.
- A score that leaves 64 bits wraps: `Placement.ScoreIsTrueIff`, `Placement.LargestCountWins`.
- A crash while a node checkpoint is written loses the node under its workloads:
  `PlacementStore.CrashIsHarmlessIff`, `PlacementStore.TornHeartbeatLosesNode`.
- DNS names with a dot inside a label, an empty label or an overlong one do not survive re-encoding:
  `DnsName.WireRoundTripIff`, `DnsName.NameRoundTripIff`, `DnsName.DotInLabelSplits`.

## Model

| member | source | states |
|---|---|---|
| StoreLayout.DecodeInvertsEncode | runtime/pullrun-store/src/lib.rs:28-42 | decoding the hex form of any bytes gives the bytes back |
| StoreLayout.FromHexIff | runtime/pullrun-store/src/lib.rs:28-38 | a string is read as a digest iff, behind an optional `sha256:`, it has exactly 64 hexadecimal digits of either case |
| StoreLayout.PathRoundTrip | runtime/pullrun-gc/src/lib.rs:255-265 | the digest read off the path of a node or blob file is the digest the path was made for |
| StoreLayout.PathsInjective | runtime/pullrun-store/src/store.rs:210-228 | different digests have different node and blob paths, and no node path is a blob path |
| StoreFiles.ListingIsExactIffTidy | runtime/pullrun-gc/src/lib.rs:222-249 | a listing names every stored digest; it names each exactly once and nothing else iff every visible node file sits at its digest's path |
| StoreFiles.ListedIff | runtime/pullrun-gc/src/lib.rs:229-249 | a file is listed iff it is called `node.rkyv`, the three directories above it spell a digest, and no directory on the way is called `ops` or starts with a dot |
| StoreFiles.TotalBytesRemove | runtime/pullrun-gc/src/lib.rs:184-198 | removing a file lowers the byte total by exactly its size, whichever file is counted first |
| Graph.LiveClosed | runtime/pullrun-store/src/store.rs:832-880 | the live digests are stored, include the stored roots and contain every stored child of theirs |
| Graph.LiveLeast | runtime/pullrun-store/src/store.rs:832-880 | every set closed in that way contains the live digests |
| Graph.LiveStable | runtime/pullrun-gc/src/lib.rs:120-135 | taking away nodes that a larger root set does not reach changes nothing of what a smaller one reaches |
| MmapStore.Store.EvictCacheEntry | runtime/pullrun-store/src/store.rs:812-819 | drops just one digest from cache and queue and keeps the order of the others; the cache stays equal to the disk, the counter to the cached bytes, and the queue to the cached digests, once each |
| MmapStore.Store.EvictLru | runtime/pullrun-store/src/store.rs:552-571 | evicts nothing within the limit or without one; otherwise the least recently used nodes, in that order, until it is within the limit, and not one more |
| MmapStore.Store.GetArchived | runtime/pullrun-store/src/store.rs:510-576 | answers through the cache what the disk holds: absent, which changes nothing, corrupted, or the edges; makes this digest the most recently used; within the limit just it is cached in addition, beyond it the least recently used go, and the cache never exceeds the limit by more than this node |
| MmapStore.Store.WalkReachable | runtime/pullrun-store/src/store.rs:832-880 | terminates on every graph, cycles and missing children included; succeeds iff no live node is corrupted; then returns the live digests once each and exactly those with a blob; all of them are cached if they and what was cached before fit, and otherwise the cache is filled to its limit, to within one node either way |
| StoredBytes.FilledOneMore | runtime/pullrun-store/src/store.rs:530-571 | one more read keeps the cache complete while everything read fits the limit, and within a node of the limit after that |
| Enumeration.WalkStoreDir | runtime/pullrun-gc/src/lib.rs:229-249 | in every order of directory entries, appends the digest of each listed node file below the directory, each file once |
| Enumeration.WalkEntry | runtime/pullrun-gc/src/lib.rs:231-247 | one directory entry contributes exactly the listed files of its branch |
| Collection.LiveSurvives | runtime/pullrun-gc/src/lib.rs:162-203 | wherever a collection stops, every live node file is still there unchanged and the same digests are live |
| Collection.SmallerRootsSurvive | runtime/pullrun-gc/src/lib.rs:162-203 | what any part of the roots reaches is the same before and after |
| Collection.CompletedIsExact | runtime/pullrun-gc/src/lib.rs:88-218 | after a completed collection the stored digests are exactly the live ones |
| Collection.HistoryKeepsLive | runtime/pullrun-gc/src/lib.rs:88-218 | over any sequence of complete and interrupted collections whose roots include a set, what the set reaches never changes |
| Collection.HistoryIsExact | runtime/pullrun-gc/src/lib.rs:88-218 | a completed collection leaves the same nodes after any such history as it would have at its start |
| Collection.SecondRunDeletesNothing | runtime/pullrun-gc/src/lib.rs:88-218 | repeating a completed collection with the same roots deletes no node, no blob and no other file but stale locks |
| Collection.LocksAreNoNodes | runtime/pullrun-store/src/op_lock.rs:125-147 | removing lock files changes nothing of what is stored, listed, readable or reached |
| Collection.LockPathIff | runtime/pullrun-store/src/op_lock.rs:105-123 | the lock files are exactly the files directly in the directory `ops` of the store |
| Marking.UnreachableSet | runtime/pullrun-gc/src/lib.rs:130-135 | the unreachable list stands for exactly the listed digests that were not marked |
| Marking.TidyListsOnce | runtime/pullrun-gc/src/lib.rs:116-135 | in a tidy store the unreachable list repeats no digest |
| Marking.ListingCounts | runtime/pullrun-gc/src/lib.rs:116-135 | the two counts taken from the listing are numbers of files: listed ones, and those that stand for garbage |
| Marking.CountsAddUpIffNoStrayCopy | runtime/pullrun-gc/src/lib.rs:205-217 | total equals reachable plus unreachable in a report iff no second listed file stands for a live digest |
| StoreExamples.CopyUpsetsCounts | runtime/pullrun-gc/src/lib.rs:205-217 | a store with a copy of a live node in a directory beside it, whose counts do not add up |
| SizeGuard.GuardIsLinear | runtime/pullrun-gc/src/lib.rs:151-160 | the integer percentage reaches 90 iff nine times the total is at most ten times the garbage |
| SizeGuard.GuardReports | runtime/pullrun-gc/src/lib.rs:151-160 | a refusal reports at least 90 per cent of at least 100 MiB |
| SizeGuard.PlanWeighs | runtime/pullrun-gc/src/lib.rs:142-149 | in every store, tidy or not, the bytes added up over the unreachable list are those of the node files behind the listed garbage, once per listed file |
| SizeGuard.GuardSeesAllGarbage | runtime/pullrun-gc/src/lib.rs:142-149 | in a tidy store the bytes counted as unreachable and the live bytes add up to the stored bytes |
| SizeGuard.CacheWeighs | runtime/pullrun-store/src/store.rs:752-755 | what the guard takes for the size of the store is that of the nodes cached before and of the live ones if they fit the cache, never more, and otherwise the cache limit to within one node either way |
| SizeGuard.GuardIff | runtime/pullrun-gc/src/lib.rs:137-160 | for every store, cache, cache limit and amount of cached blobs: if the nodes cached before and the live ones fit the cache, the guard refuses iff they and the blobs exceed 100 MiB and nine tenths of them are at most the garbage; if not, as the garbage is above or below nine tenths of the limit and the blobs, to within one node |
| SizeGuard.FreshGuardIff | runtime/pullrun-gc/src/lib.rs:137-160 | on a tidy store, a fresh process that can cache the live nodes refuses iff they exceed 100 MiB and are at most 10/19 of the store; weighed as described it would refuse iff the store exceeds 100 MiB and at most a tenth is live |
| SizeGuard.LargeStoreIsRefused | runtime/pullrun-store/src/store.rs:39-39 | with the default limit, a fresh process refuses to free 300 MiB of any tidy store with a gigabyte or more of live data in nodes of at most 1 MiB, and one with 80 MiB of cached blobs and no cached nodes does not; the guard as described never refuses it |
| StoreExamples.TwoNodesCollectable | runtime/pullrun-gc/src/lib.rs:88-114 | the stores of the next two rows are directory trees without locks whose collection is admissible |
| StoreExamples.GuardLetsThrough | runtime/pullrun-gc/src/lib.rs:137-160 | a store of 200 MiB with one live byte, which a fresh process lets go under every cache limit and a process that has cached the garbage does not |
| StoreExamples.GuardRefusesHalf | runtime/pullrun-gc/src/lib.rs:137-160 | a store of 210 MiB with 110 MiB live, whose collection a fresh process refuses |
| SizeGuard.GuardProtectsIff | runtime/pullrun-gc/src/lib.rs:137-160 | the exact cached sizes for which every collection that ought to be refused is refused |
| SizeGuard.LocksWeighNothing | runtime/pullrun-gc/src/lib.rs:89-102 | clearing stale locks changes none of the sizes and sets the guard depends on |
| Sweep.SweepIsCollection | runtime/pullrun-gc/src/lib.rs:162-203 | any number of unlink attempts along the list is an interrupted collection, and all of them a completed one |
| Sweep.UnlinkNodeAccounts | runtime/pullrun-gc/src/lib.rs:184-190 | unlinking a node file takes away one stored digest, no blob, and its bytes |
| Sweep.UnlinkBlobAccounts | runtime/pullrun-gc/src/lib.rs:192-199 | unlinking a blob file takes away one blob, no node, and its bytes |
| GarbageCollector.GarbageCollector.UnlinkNode | runtime/pullrun-gc/src/lib.rs:183-190 | fails iff the path is a directory, or a file the file system refuses to remove; counts a node and its bytes iff the file was there and is gone |
| GarbageCollector.GarbageCollector.UnlinkBlob | runtime/pullrun-gc/src/lib.rs:192-199 | fails iff the path is a directory, or a file the file system refuses to remove; counts a blob and its bytes iff the file was there and is gone |
| GarbageCollector.GarbageCollector.SweepOne | runtime/pullrun-gc/src/lib.rs:179-203 | node before blob; succeeds iff neither is stuck, and otherwise stops right before the first that is; the counters are the difference it made to the store; then no empty directory is left above |
| GarbageCollector.GarbageCollector.SweepAll | runtime/pullrun-gc/src/lib.rs:175-203 | stops exactly before the first attempt whose file is stuck, and succeeds iff there is none; then every file of the list is gone, the counters are the difference, and no directory above a deleted node is empty |
| SweepOutcome.NextAttempt | runtime/pullrun-gc/src/lib.rs:183-199 | whether an attempt is stuck was settled before the sweep: nothing the sweep removes, file or directory, changes it |
| SweepOutcome.SweepPairFree | runtime/pullrun-gc/src/lib.rs:179-203 | so a digest swept in the middle of a sweep gets as far as its files were free to go at the start |
| GarbageCollector.GarbageCollector.CleanEmptyDirs | runtime/pullrun-gc/src/lib.rs:267-286 | removes only ancestors of the path that the file system does not refuse, keeps the tree well formed, and leaves no empty ancestor that could be removed |
| EmptyDirs.CleanUpwards | runtime/pullrun-gc/src/lib.rs:267-286 | the same on values: the loop from the shard directory towards the root, which stops at the first directory that is not empty, the parent of a refused one included |
| EmptyDirs.OthersStayClean | runtime/pullrun-gc/src/lib.rs:267-286 | cleaning up behind one digest leaves no empty directory above another that had none |
| GarbageCollector.GarbageCollector.CleanStaleLocks | runtime/pullrun-store/src/op_lock.rs:125-147 | removes exactly the stale lock files that the file system does not refuse |
| GarbageCollector.GarbageCollector.FirstMissing | runtime/pullrun-gc/src/lib.rs:104-114 | finds nothing iff all roots are stored, and otherwise the first root that is not |
| GarbageCollector.MarkingMeans | runtime/pullrun-gc/src/lib.rs:116-135 | listing and walk together give the counts of listed files and live nodes and exactly the garbage |
| GarbageCollector.GarbageCollector.Mark | runtime/pullrun-gc/src/lib.rs:116-135 | fails iff a live node is corrupted, naming one; otherwise the counts, exactly the garbage, and what the cache then holds under any limit |
| GarbageCollector.GarbageCollector.CollectUnlocked | runtime/pullrun-gc/src/lib.rs:104-217 | refused iff not admissible, for a true reason; the guard trips iff its two sizes say so, of which the second is what CacheWeighs says under any limit, and reports just these; an input or output error iff an attempt is stuck, at the first; nothing is touched on a refusal or a dry run |
| GarbageCollector.GarbageCollector.Collect | runtime/pullrun-gc/src/lib.rs:88-218 | every outcome is an interrupted collection; a real run that is not refused fails iff some node or blob file of the garbage cannot be removed, and otherwise leaves exactly the live nodes and no empty directory above the deleted ones; exactly the removable stale locks go; fresh locks refuse it iff not forced; the report is truthful; unless forced, the verdict on size is the one of GuardIff, for every store, cache and cache limit |
| GarbageCollector.ObstructedIff | runtime/pullrun-gc/src/lib.rs:162-203 | a sweep of the garbage runs into a stuck attempt iff some file of the garbage is stuck before the locks are cleared |
| GarbageCollector.DryRunPredicts | runtime/pullrun-gc/src/lib.rs:170-173 | a dry run reports the counts of the real run, and in a tidy store the number of nodes it deletes |
| ConcurrentSweep.PresentIff | runtime/pullrun-gc/src/lib.rs:179-203 | in every interleaving, a file is there at the end iff it was there, or put, and no later unlink attempt named it |
| ConcurrentSweep.UnlistedFilesStay | runtime/pullrun-store/src/store.rs:487-508 | files of a digest outside the list survive every interleaving unchanged |
| ConcurrentSweep.ChildSurvivesIff | runtime/pullrun-gc/src/lib.rs:179-203 | a child stored when its parent is put survives the rest of the sweep iff it is not among the digests still to be unlinked |
| StoreExamples.ParentLosesChild | runtime/pullrun-gc/src/lib.rs:179-203 | an interleaving that ends with a stored parent whose child is gone |
| ConcurrentSweep.AloneIsSweep | runtime/pullrun-gc/src/lib.rs:179-203 | with nothing interleaved the machine is the sequential sweep |
| ConcurrentSweep.OrphanBlobIff | runtime/pullrun-gc/src/lib.rs:183-199 | after an interrupted and then a completed collection a garbage blob is still there iff the first stopped between its node and itself |
| StoreExamples.StoppedSweepLeavesBlob | runtime/pullrun-gc/src/lib.rs:183-199 | a store whose garbage blob no later collection removes |
| Cidr.MaskClearsRemainder | runtime/pullrun-net/src/ipam.rs:36-45 | masking with the complement of 2^k - 1 subtracts the remainder modulo 2^k |
| Cidr.CidrBlock | runtime/pullrun-net/src/ipam.rs:19-46 | for prefixes 1 to 32 the block is aligned, of the right size, within the address space and contains the address |
| Cidr.CidrEdges | runtime/pullrun-net/src/ipam.rs:19-46 | refused iff the prefix exceeds 32; prefix 0 gives the block of one address at 0 |
| Cidr.CidrContainsIff | runtime/pullrun-net/src/ipam.rs:36-45 | the block contains the address it was made from iff the prefix is not 0 or the address is 0 |
| Cidr.BlocksNestOrSplit | runtime/pullrun-net/src/ipam.rs:19-46 | two blocks are nested or disjoint |
| CasAllocator.RunKeepsInv | runtime/pullrun-net/src/ipam.rs:95-109 | every interleaving keeps the counter equal to the number of grants and the grants consecutive |
| CasAllocator.GrantsAreConsecutive | runtime/pullrun-net/src/ipam.rs:95-109 | in every interleaving no address is granted twice, all lie strictly inside the range, and a refusal means all were granted |
| CasAllocator.UndisturbedCallIsServed | runtime/pullrun-net/src/ipam.rs:95-109 | after every run, an idle thread that loads and exchanges with nobody in between gets exactly the next address, however often it was served before, or is refused if all are granted |
| CasAllocator.FailedCallIsServedNext | runtime/pullrun-net/src/ipam.rs:95-109 | after every run, an exchange succeeds iff the counter is what was loaded; a thread whose exchange failed gets exactly the next address by trying once more undisturbed |
| CasAllocator.FailureMeansProgress | runtime/pullrun-net/src/ipam.rs:95-109 | if an exchange fails, another thread's exchange succeeded since this one's load |
| CasAllocator.RetriesAreBounded | runtime/pullrun-net/src/ipam.rs:95-109 | the failed exchanges of n threads are at most n - 1 per granted address |
| SubnetPools.Ipam.SubnetFor | runtime/pullrun-net/src/ipam.rs:119-142 | the probing loop takes the step of its specification, which the next row describes |
| SubnetPools.NewKeyGetsFirstOffered | runtime/pullrun-net/src/ipam.rs:119-142 | before the counter comes to wrap, a new key gets a subnet iff one of the next 64 lies inside the range and is neither routed nor held; then the first of these, and the counter is right behind it |
| SubnetPools.Ipam.AllocateIn | runtime/pullrun-net/src/ipam.rs:177-186 | returns a host address of the subnet never returned before, fails iff all were returned, and counts the address as returned for this subnet alone |
| SubnetPools.OfferInsideIff | runtime/pullrun-net/src/ipam.rs:124-134 | an offer that passed the end test lies inside the range iff the next counter value is not a multiple of 2^24 |
| SubnetPools.AssignedInsideIff | runtime/pullrun-net/src/ipam.rs:119-142 | a call that assigns a subnet assigns one inside the range iff it does not leave the counter at a multiple of 2^24 |
| SubnetPools.AssignedInsideIffBefore | runtime/pullrun-net/src/ipam.rs:119-142 | told before the call, for every range smaller than the address space by more than one subnet, as all of prefix 1 to 32 are: it assigns a subnet inside the range iff the counter is not right before a multiple of 2^24 with the offer there neither routed nor taken |
| SubnetPools.SubnetsInsideIff | runtime/pullrun-net/src/ipam.rs:119-142 | over every run, all subnets held lie inside the range iff no assignment left the counter at a multiple of 2^24 |
| SubnetPools.SubnetsStayInside | runtime/pullrun-net/src/ipam.rs:119-142 | over every run whose counter stays below 2^24, different keys hold disjoint /24s inside the range |
| SubnetPools.OutsideRun | runtime/pullrun-net/src/ipam.rs:119-142 | for every range a run, with routes inside the range only, that ends with a subnet outside it |
| SubnetPools.SubnetForStep | runtime/pullrun-net/src/ipam.rs:119-142 | a key that has a subnet gets it again and nothing changes; a new one is not live on the host and shares no address with the others |
| SubnetPools.SubnetsStayApart | runtime/pullrun-net/src/ipam.rs:119-142 | over every sequence of calls, different keys have disjoint subnets and no key ever changes its subnet |
| SubnetPools.HostAddressesAreUnique | runtime/pullrun-net/src/ipam.rs:177-186 | over every sequence of calls no host address is handed out twice, under any keys, and none is a gateway or broadcast address |
| SubnetPools.CheckIsRedundant | runtime/pullrun-net/src/ipam.rs:130-138 | until the counter has passed 2^24 the test against assigned subnets never decides a probe |
| SubnetPools.CounterAloneSuffices | runtime/pullrun-net/src/ipam.rs:119-142 | so in every run that stays below, the allocator without that test makes the same offers |
| ServiceOrder.Sorter.Visit | cmd/pullrun-compose/compose.go:126-143 | terminates on cycles, appends the service after all dependencies not on the stack, restores the stack, visits only what is needed |
| ServiceOrder.VisitAll | cmd/pullrun-compose/compose.go:145-149 | yields every needed service once, each after every dependency that does not depend on it in turn |
| ServiceOrder.SortServices | cmd/pullrun-compose/compose.go:119-153 | the names are overwritten with as much of such an order as fits |
| ServiceOrder.Copy | cmd/pullrun-compose/compose.go:152-152 | replaces the first elements of the array, as many as both have, and no others |
| ServiceOrder.ReorderingIff | cmd/pullrun-compose/compose.go:119-153 | the result is a permutation of the names iff they contain their known dependencies and repeat none before all are listed |
| ServiceOrder.TopologicalWithoutCycles | cmd/pullrun-compose/compose.go:119-153 | for such names and no cycle, the result starts with a topological order of them |
| ServiceOrder.SingleNameIsLost | cmd/pullrun-compose/up.go:73-77 | bringing up one service that depends on another leaves only the dependency in the list |
| DetachFilter.FirstPair | cli/pullrun/cmd/commands.go:28-34 | the first position of Ctrl-P Ctrl-Q in a stream, or that there is none |
| DetachFilter.IndexOfP | cli/pullrun/cmd/commands.go:55-56 | the first Ctrl-P from an offset on, or that there is none |
| DetachFilter.ProcessInput | cli/pullrun/cmd/commands.go:34-84 | passes on what precedes the first pair of the carried byte and the chunk; or everything but a final Ctrl-P, which it carries |
| DetachFilter.FilterRest | cli/pullrun/cmd/commands.go:54-83 | the same for the loop over a chunk once the carried byte is dealt with |
| DetachFilter.ScanSplit | cli/pullrun/cmd/commands.go:34-84 | filtering a stream is filtering a first part and then the rest behind what was carried |
| DetachFilter.ChunksDoNotMatter | cli/pullrun/cmd/commands.go:34-84 | however a stream is cut into non-empty chunks, the filter does what it does on the stream in one piece |
| DetachChunks.ChunksDoNotMatterIff | cli/pullrun/cmd/commands.go:34-84 | for all cuts: that holds iff no empty chunk releases a Ctrl-P that ends the stream or starts a pair |
| DetachChunks.OneOfThree | cli/pullrun/cmd/commands.go:43-52 | with empty chunks a run is in step, ahead by one released Ctrl-P, or past a pair it missed, and the last never recovers |
| DetachFilter.EmptyChunkHidesPair | cli/pullrun/cmd/commands.go:43-52 | three chunks with a pair between them that the filter does not see |
| DetachFilter.Pump | cli/pullrun/cmd/commands.go:876-924 | stops at exactly the first read that completes a pair, or whose bytes have to be sent and cannot, or ends the input, or fails, and says which; on detach what was sent is the reads before the one that completes the pair, less a withheld Ctrl-P; at end of input everything was sent, the withheld byte too, then one end marker, but for refused sends, which are ignored there |
| DetachFilter.Forward | cli/pullrun/cmd/commands.go:881-904 | one read keeps what was sent equal to what was read, less a withheld Ctrl-P; it detaches iff it completes a pair and fails iff it brings bytes to send and the send is refused |
| CriIndex.CheckpointRoundTrip | cri/pullrun-cri/filestore.go:255-282 | loading a saved sandbox gives it back, an absent DNS configuration as an empty one |
| CriIndex.KillAll | cri/pullrun-cri/runtime_service.go:197-205 | marking containers as killed changes no id or identity, and exited containers keep non-zero exit codes if they had them |
| CriIndex.StepKeepsInv | cri/pullrun-cri/filestore.go:146-191 | every call keeps memory and checkpoints in step: same ids, same identities, every container in a known sandbox, exited ones with a non-zero code |
| CriIndex.RunKeepsInv | cri/pullrun-cri/filestore.go:146-240 | so does every sequence of calls and restarts |
| CriIndex.TruthfulRestart | cri/pullrun-cri/reconcile.go:24-64 | after every history a restart knows the same ids; what has no live workload is as its checkpoint says but not ready and without an address, or exited with its code, 137 if that is 0; what has one is exactly as its checkpoint says |
| CriIndex.LifecycleCallsWrite | cri/pullrun-cri/container_service.go:159-270 | create, start and stop change nothing or leave the new record in its checkpoint |
| CriIndex.RunKeepsFile | cri/pullrun-cri/filestore.go:186-191 | no call that is not about a container or the removal of its pod changes its checkpoint |
| CriIndex.RestartRestoresLastWrite | cri/pullrun-cri/filestore.go:73-144 | whatever else happens after the last such write, a restart restores that record, reconciled |
| CriIndex.ReportSurvivesIff | cri/pullrun-cri/reconcile.go:43-61 | a state reported after reconciliation is reported again by a restart that cannot reach the runtime iff the workload lives or was stored as exited |
| CriIndex.PodReportSurvivesIff | cri/pullrun-cri/reconcile.go:45-51 | the same for a pod: state and address are repeated iff the workload lives or the checkpoint says not ready and no address |
| CriPods.PhantomContainer | cri/pullrun-cri/reconcile.go:53-61 | a run that reports a dead container as exited and then as created |
| CriPods.PhantomReadyPod | cri/pullrun-cri/reconcile.go:45-51 | a run that reports a dead pod as not ready and then as ready |
| CriIndex.RemovedPodStaysGone | cri/pullrun-cri/filestore.go:173-184 | until a pod is run under the same id again, no sequence of calls and restarts brings back the pod or any of its containers, in memory or on disk |
| CriPods.StepWakesIff | cri/pullrun-cri/runtime_service.go:239-293 | a pod that is not ready becomes ready by exactly these calls: its being run, a live status, a restart without a listing, a restart whose listing has its workload alive |
| CriPods.SleepsThroughIff | cri/pullrun-cri/runtime_service.go:218-220 | over every run, a pod that is not ready stays so throughout iff no call of that kind is made |
| CriPods.StoppedPodTakesNoContainer | cri/pullrun-cri/container_service.go:166-172 | after every history, a stopped pod gets no new container, in memory or on disk, over every run without such a call |
| CriPods.RestartForgetsStop | cri/pullrun-cri/runtime_service.go:218-220 | a run in which a stopped pod takes a container after a restart without a listing |
| CriIndex.BridgeName | cri/pullrun-cri/runtime_service.go:63-72 | `pr-` and at most 12 more characters, the limit on interface names |
| CriIndex.BridgeNamesAgreeIff | cri/pullrun-cri/runtime_service.go:63-72 | pods share a bridge name iff the last 12 characters of their ids agree |
| CriServer.Server.RunPodSandbox | cri/pullrun-cri/runtime_service.go:79-168 | returns the pod id iff nothing failed; then the pod is ready, memory equals its checkpoint and nothing else changed, else nothing did; keeps the invariant |
| CriServer.Server.StopPodSandbox | cri/pullrun-cri/runtime_service.go:192-223 | every container of the pod is exited with its former code, or 137 if that was 0, whether or not the workload stopped; the pod, if known, is not ready iff it stopped or was so before; every other record and every checkpoint is unchanged; keeps the invariant |
| CriServer.Server.RemovePodSandbox | cri/pullrun-cri/runtime_service.go:225-237 | the pod and exactly its containers go, in memory and on disk; every other record and checkpoint stays; keeps the invariant |
| CriServer.Server.PodSandboxStatus | cri/pullrun-cri/runtime_service.go:239-293 | answers ready iff the workload is live, for unknown pods too; the address is the live one, or the known one if there is none; for a known pod memory then holds the answer, and nothing else changes |
| CriServer.Server.CreateContainer | cri/pullrun-cri/container_service.go:159-212 | succeeds iff the pod is ready and nothing failed, and otherwise changes nothing; then one record is added to memory and disk, with the pod, workload, name, image and time it was given, created and not started; keeps the invariant |
| CriServer.Server.StartContainer | cri/pullrun-cri/container_service.go:214-243 | succeeds iff the container is known and its workload live; then it is running since now with code 0, memory equals its checkpoint, its identity and everything else are unchanged; keeps the invariant |
| CriServer.Server.StopContainer | cri/pullrun-cri/container_service.go:245-270 | succeeds iff the container is known and was over already or could be stopped; a stopped one is exited with its former code, or 137 if that was 0, in memory as on disk, and everything else unchanged; keeps the invariant |
| CriServer.Server.RemoveContainer | cri/pullrun-cri/container_service.go:272-282 | the container, known or not, is gone from memory and disk, every other one is unchanged, the invariant is kept |
| CriServer.Server.LoadAll | cri/pullrun-cri/filestore.go:73-144 | rebuilds memory from the checkpoints that parse, in any order of files |
| CriServer.Server.ReconcileStartup | cri/pullrun-cri/reconcile.go:24-64 | takes the step of the machine, or changes nothing if workloads cannot be listed |
| CriServer.Server.RestartShim | cri/pullrun-cri/main.go:183-193 | load, then reconcile, keeps the invariant and is the restart of the machine |
| CriServer.DropContainersOf | cri/pullrun-cri/filestore.go:173-184 | exactly the containers of the pod go, from memory and disk |
| CriServer.KillContainersOf | cri/pullrun-cri/runtime_service.go:197-205 | exactly the containers of the pod are marked, in any order |
| CriServer.LiveIds | cri/pullrun-cri/reconcile.go:34-40 | exactly the workloads in one of the three live states |
| Placement.ScoreIsTrueIff | control-plane/api/cmd/store.go:265-274 | the 64-bit score is the intended one iff that fits 64 bits, however the sum was accumulated |
| Placement.ChoiceMaximisesTrueScore | control-plane/api/cmd/store.go:247-279 | where no score of a fitting node leaves 64 bits, the node chosen has the largest intended score |
| Placement.LargestCountWins | control-plane/api/cmd/store.go:265-279 | a node that reports the largest count is chosen over an idle one, in either order |
| Placement.ComputeScore | control-plane/api/cmd/store.go:265-274 | the loop, in any order of workloads and with wrapping at each step, computes 100 for each workload of the image on the node less 5 for each running one, modulo 64 bits |
| Placement.HasBackend | control-plane/api/cmd/store.go:251-263 | true iff the heartbeat is at most 30 seconds old and the backend is listed |
| Placement.BestIsFirstMaximum | control-plane/api/cmd/store.go:247-279 | the scan ends on the first eligible node of maximal score, and on none iff none is eligible |
| Placement.ScheduleWorkload | control-plane/api/cmd/store.go:239-286 | for some order of all nodes the result is that of the scan; the two errors arise iff there is no node, or no eligible one |
| Placement.ChoiceIsAnyMaximum | control-plane/api/cmd/store.go:247-279 | the choice is always maximal, and every maximal node is chosen under some order: nothing more can be relied on |
| PlacementStore.StepKeepsInv | control-plane/api/cmd/store.go:145-191 | every event keeps memory equal to what would be loaded, nodes under their ids, chosen nodes known, and, crashes apart, workloads on known nodes |
| PlacementStore.RunKeepsInv | control-plane/api/cmd/store.go:80-143 | so does every run, with submissions interleaved between choosing and recording |
| PlacementStore.CrashIsHarmlessIff | control-plane/api/cmd/store.go:168-186 | a crash and reload leaves every workload on a known node iff it did not tear the checkpoint of a node in use |
| PlacementStore.WorkloadsStayOnKnownNodes | control-plane/api/cmd/store.go:197-237 | every workload is on a known node throughout every run whose crashes are of that kind |
| PlacementStore.TornHeartbeatLosesNode | control-plane/api/cmd/store.go:370-383 | a run in which the crash tears the checkpoint a heartbeat writes, and a workload ends on a node nobody knows |
| PlacementStore.ControlPlane.RegisterNode | control-plane/api/cmd/store.go:344-368 | succeeds iff the id is valid; then the node is known and idle, memory equals its checkpoint and nothing else changed; keeps the invariants |
| PlacementStore.ControlPlane.Heartbeat | control-plane/api/cmd/store.go:370-383 | succeeds iff the node is known; then time and count are renewed, memory equals its checkpoint and nothing else changed; keeps the invariants |
| PlacementStore.ControlPlane.DeleteWorkload | control-plane/api/cmd/store.go:334-342 | succeeds iff the id is valid, known or not; then no trace of it is left in memory or on disk and every other workload is unchanged; keeps the invariants |
| PlacementStore.ControlPlane.SubmitWorkload | control-plane/api/cmd/store.go:197-237 | takes the two steps of the machine; succeeds iff a backend is named and some node is eligible for it; then the workload is recorded in memory and on disk as scheduled on an eligible node of maximal score for its image, and nothing else changed; otherwise nothing did |
| DnsName.ParseQname | runtime/pullrun-net/src/dns.rs:109-127 | the loop parses what the recursive definition does, with every way to fail |
| DnsName.ParseReads | runtime/pullrun-net/src/dns.rs:109-127 | every buffer is some labels of 1 to 255 bytes of text and then its end, a zero byte or a bad label; parsing fails iff it is a bad label, cut short or not text, and otherwise yields the labels joined by dots |
| DnsName.EncodeName | runtime/pullrun-net/src/dns.rs:142-147 | the loop writes the labels between dots, each behind its length modulo 256, and a zero |
| DnsName.JoinInvertsSplit | runtime/pullrun-net/src/dns.rs:143-146 | joining the parts between dots gives the name back, and no part has a dot |
| DnsName.SplitInvertsJoin | runtime/pullrun-net/src/dns.rs:119-122 | splitting joined labels gives them back if none has a dot |
| DnsName.DotSplitsUtf8 | runtime/pullrun-net/src/dns.rs:122-122 | text cut at a dot is text on both sides |
| Utf8.TextIff | runtime/pullrun-net/src/dns.rs:122-122 | bytes are taken for text iff they encode some sequence of Unicode scalar values as section 3 of RFC 3629 prescribes |
| DnsName.ParseEncodedIff | runtime/pullrun-net/src/dns.rs:109-127 | parsing encoded labels behind any name so far spells them out iff all have 1 to 255 bytes, or there is only the empty one and no name |
| DnsName.NameRoundTripIff | runtime/pullrun-net/src/dns.rs:109-147 | a name comes back from its encoding iff it is empty or all its labels have 1 to 255 bytes, whatever follows |
| DnsName.EncodeAgainIff | runtime/pullrun-net/src/dns.rs:142-147 | labels that are joined and encoded again give the same bytes iff none has a dot |
| DnsName.WireRoundTripIff | runtime/pullrun-net/src/dns.rs:109-147 | every well-formed question parses to its joined labels, and the answer repeats its bytes iff no label has a dot |
| DnsName.DotInLabelSplits | runtime/pullrun-net/src/dns.rs:109-147 | a question whose one label holds a dot, answered under other bytes |
| DnsName.RootNameGrows | runtime/pullrun-net/src/dns.rs:142-147 | the root name parses from one zero byte and is encoded as two |

## Left out

- Collection: failures to read directories, metadata or nodes other than a corrupted archive, and symbolic links, which end a collection before the sweep or do not occur in a store.
- Collection: the file system refuses to remove a path throughout a collection or not at all; refusals that come and go are not modelled.
- Collection: overflow of `unreachable_bytes * 100` in 64 bits, which needs more than 2^57 bytes of garbage.
- MmapStore.Store.GetArchived: concurrent readers that cache a node between its eviction and its unlink are not modelled, so the cache is coherent under sequential use only; the blob cache is a byte count.
- ConcurrentSweep: the cache and the operation locks are not part of the interleaved machine, only files are.
- Reference counts, tags and the recovery of temporary files in the store, which a collection does not consult.
- Cidr: parsing of the dotted notation; the model starts from the address and the prefix length.
- SubnetPools: reading the host's routes, which are an argument of each call; `release`, which does nothing; use of one pool through both `allocate` and `subnet_for`; ranges of size 0, on which the code underflows.
- SubnetPools.OfferInsideIff: it and the results on runs built on it are stated for ranges that end within the address space, which `CidrBlock` proves of every parsed range but that of prefix 0, which is the one address 0.
- SubnetPools.Ipam.AllocateIn: host addresses are unbounded sums; in a subnet that crosses the end of the address space the code wraps.
- DetachFilter.Pump: terminal modes and the output direction are left out.
- CriServer.Server.LoadAll: assumes every checkpoint that parses is named after its record, which the invariant of the machine provides.
- CriIndex: handlers running at the same time, and checkpoints that could not be written or were torn; image pulling, the building of run requests, streaming, and the listing and status calls that only read the index.
- PlacementStore: failed disk writes; the loop of `loadAll` is modelled as the function of the files it computes.
- DnsName: message headers, sockets, records and forwarding.
- Builders, image pulls, virtual machines, the network set-up and the command line, which are input and output around the parts modelled.
