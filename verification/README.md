# Ceph: a verified model of eight stateful cores

Dafny 4.11 models of the parts of Ceph 15.2.17's tree where state is easy to get
wrong, with proofs about every input and every run. `dafny verify dfyconfig.toml`
checks the project.

| files | what they model |
|---|---|
| `DentryGraph`, `FuseMachine`, `PathText`, `FuseCache` | the inode cache of the FUSE tracer: two mirrored pointer maps, kernel reference counts, the path builder |
| `Glob`, `KrbdDevice`, `KrbdMap`, `KrbdWait` | mapping and unmapping a kernel RBD device: glob escaping, pairing udev events, waiting for two event sources |
| `HistogramIndex`, `AxisBuckets`, `PerfHistogram` | the N-dimensional performance histogram: index, quantization, counters |
| `CommentFilter`, `StateDiagram` | the state-diagram generator: comment stripping, statements, nested clusters and edges |
| `Thrasher` | the OSD thrasher's four lists, its weighted choice and its recovery |
| `Watchdog` | the daemon watchdog's failure table |
| `CrushLocation` | packing an OSD's CRUSH location into a caller's buffer |
| `ScrubWait` | waiting for all placement groups to be scrubbed |
| `Options`, `CInt` | an optional value; the C `int` |

How to read it. Code that changes objects in place is a class whose methods are
proved against a function on values (`FuseMachine.Step`, `Thrasher.Step`,
`StateDiagram.Lines`, ...), and what the source promises is proved about that
function, over whole runs. System calls, udev, sysfs, clocks, random draws and
remote commands are inputs; each section the tracer runs under its lock is one
step.

Main results, by component:

- FUSE tracer: over every run in which the kernel forgets only what it holds, the
  file system below is a tree and freed keys survive, the pointer structure
  stays mirrored and acyclic, an inode is cached exactly while the kernel holds
  it with the same count, every name finds what the requests tell, and every path
  leads back to its inode (`FuseCache.ServeAll`,
  `FuseMachine.RunConservesReferences`, `FuseMachine.RunFinds`,
  `FuseMachine.RunPathsLeadBack`). Where a handler can break this, the exact
  condition is proved: a lookup that finds a cached number under a new name or
  another number under a cached one (`FuseCache.Cache.Lookup`), a key read after
  it is freed (`FuseCache.Cache.RemoveDentry`, `UnlinkInode`, `RemoveInode`), a rename onto
  itself (`RenameLandsIff`), a link or rename below itself and a create that
  returns its directory's number (`LinkAcyclicIff`, `RenameAcyclicIff`,
  `CreateAcyclicIff`).
- krbd: the outcome of `wait_for_mapping` depends on the sysfs result and the
  udev stream only, not on their interleaving; `escape_glob` denotes one string
  exactly when that string has no backslash.
- Histogram: the index is a bijection for any number of axes, the visitor walks
  the array in order, the counters are the history, and the largest start index
  is the raw size, so 32 bits suffice exactly up to 2^31 - 1 counters. Values
  and printed ranges agree, and the exact condition for int64_t is proved.
- State diagram: the streaming automaton refines leftmost comment stripping; its
  only loss is a final slash, which belongs to no statement. Edges between
  machines end at leaves inside the clusters they name exactly when every
  initial state with contents names an initial one; that each machine's initial
  state is its child is not enough (`InitialWithoutInitial`).
- Thrasher: every run conserves the OSDs and chosen actions respect three of the
  four minima; the fourth, `min_dead`, fails exactly when `in_osd` meets a dead
  OSD at the minimum.
- Scrub wait: it always ends, and it can give up on a reply in which everything
  is scrubbed (`CanGiveUpOnCompleteReply`), though not on one that names as many
  groups as any before it (`CompleteReplySucceeds`).

Where the code and its comments differ the model follows the code. The comment
on `osd_scrub_pgs` promises to time out after two minutes without progress, the
code allows 41 polls; the comment on `in_osd` says it marks an OSD out, the code
marks it in or revives it. The pauses `choose_action` lists look up their key when
they are called, so all of them inject the stall, also those listed for the
heartbeat failure.

`unlink_inode` (fusetrace_ll.cc:173) hands `remove_dentry` a reference to the key
of the very entry that line 141 erases, and line 142 reads it again. What it
reads then is an input of the model, `freed`: it lists the names that do not
read back unchanged. A child that keeps such a name keeps a pointer to an inode
that `remove_inode` deletes; the condition `KeysSurvive` says exactly when none
does. Callers that own their string pass the same name twice.

## Model

| member | source | states |
|---|---|---|
| `DentryGraph.AddEdgeAcyclic` | ceph-15.2.17/fusetrace/fusetrace_ll.cc:149-158 | an edge added to an acyclic dentry graph keeps it acyclic if and only if its parent is not reachable from its child |
| `DentryGraph.AboveShrinks` | ceph-15.2.17/fusetrace/fusetrace_ll.cc:94-98 | one step up an edge leaves strictly fewer inodes above, so the recursion of make_inode_path ends |
| `DentryGraph.ClimbExists` | ceph-15.2.17/fusetrace/fusetrace_ll.cc:94-101 | every inode has a chain of first parents up to a parentless inode, and has a path if and only if that is the root |
| `DentryGraph.ClimbIsUnique` | ceph-15.2.17/fusetrace/fusetrace_ll.cc:94-101 | all such chains end at the same inode |
| `DentryGraph.FirstExists` | ceph-15.2.17/fusetrace/fusetrace_ll.cc:95-98 | a non-empty set of (name, ino) keys has a least one |
| `DentryGraph.FirstUnique` | ceph-15.2.17/fusetrace/fusetrace_ll.cc:95-98 | and only one |
| `DentryGraph.StringLeDecides` | ceph-15.2.17/fusetrace/fusetrace_ll.cc:75-98 | the order of the keys: a name comes before its extensions, and otherwise the first difference decides |
| `DentryGraph.PathFailsWhenDetached` | ceph-15.2.17/fusetrace/fusetrace_ll.cc:92-107 | make_inode_path fails if and only if the chain of first parents ends at a parentless inode other than the root |
| `DentryGraph.PathWalksBack` | ceph-15.2.17/fusetrace/fusetrace_ll.cc:82-107 | looking up the names of a path from the root ends at the inode the path was made for |
| `DentryGraph.UnchangedKeysSurvive` | ceph-15.2.17/fusetrace/fusetrace_ll.cc:171-173 | an inode's keys survive when they read back unchanged or when it has no child but itself |
| `PathText.RenderResolves` | ceph-15.2.17/fusetrace/fusetrace_ll.cc:92-107 | the text of a path resolves, slash by slash, through exactly the names climbed through |
| `FuseMachine.StepKeepsInv` | ceph-15.2.17/fusetrace/fusetrace_ll.cc:135-213 | every sound request keeps names unique per directory, edges between cached inodes and the graph acyclic |
| `FuseMachine.LinkAcyclicIff` | ceph-15.2.17/fusetrace/fusetrace_ll.cc:935-940 | a link keeps the graph acyclic if and only if the directory is not below the linked inode once the replaced name is gone |
| `FuseMachine.CreateAcyclicIff` | ceph-15.2.17/fusetrace/fusetrace_ll.cc:194-213 | add_inode keeps the graph acyclic if and only if the new number is not its directory's |
| `FuseMachine.RenameAcyclicIff` | ceph-15.2.17/fusetrace/fusetrace_ll.cc:880-892 | a rename keeps the graph acyclic if and only if nothing else leads from the moved inode to its new directory |
| `FuseMachine.RenameLandsIff` | ceph-15.2.17/fusetrace/fusetrace_ll.cc:880-892 | a renamed inode is found under its new name if and only if the names differ, is gone from the old one, and no other name changes |
| `FuseMachine.UnlinkLands` | ceph-15.2.17/fusetrace/fusetrace_ll.cc:801-807 | after an unlink the name finds nothing, every other name what it found before, and no count changes |
| `FuseMachine.LookupReplies` | ceph-15.2.17/fusetrace/fusetrace_ll.cc:248-295 | a sound lookup hands out the number lstat found exactly when it is permitted and the directory is attached |
| `FuseMachine.ForgetWraps` | ceph-15.2.17/fusetrace/fusetrace_ll.cc:312-320 | a forget subtracts in a 32-bit int, and drops the inode if and only if what is left is not positive |
| `FuseMachine.ForgetUnknown` | ceph-15.2.17/fusetrace/fusetrace_ll.cc:311-323 | forgetting an inode that is not cached leaves a null entry in inode_map and nothing else |
| `FuseMachine.StepCounts` | ceph-15.2.17/fusetrace/fusetrace_ll.cc:308-324 | a request changes an inode's count by the entry it hands out minus the lookups it forgets, and zero evicts |
| `FuseMachine.StepKeepsFull` | ceph-15.2.17/fusetrace/fusetrace_ll.cc:308-324 | a forget of an inode the kernel holds leaves no null entry in inode_map |
| `FuseMachine.RunConservesReferences` | ceph-15.2.17/fusetrace/fusetrace_ll.cc:276-324 | over every fair run each inode but the root is cached exactly while entries handed out exceed lookups forgotten, with that difference as its ref; no null entry appears in inode_map |
| `FuseMachine.RunFinds` | ceph-15.2.17/fusetrace/fusetrace_ll.cc:135-324 | what a name finds after any fair run is told by the requests and replies alone: the last request that named it decides, unless a later one dropped its directory or its inode |
| `FuseMachine.RunPathsLeadBack` | ceph-15.2.17/fusetrace/fusetrace_ll.cc:92-107 | over every fair run make_inode_path ends, succeeds exactly on attached inodes, and its path leads back |
| `FuseMachine.MissConservesIff` | ceph-15.2.17/fusetrace/fusetrace_ll.cc:277-290 | a lookup that misses its name keeps the count of an inode in step if and only if it does not find that inode cached |
| `FuseMachine.SecondNameLosesReference` | ceph-15.2.17/fusetrace/fusetrace_ll.cc:277-290 | after a create and a lookup under a second name the kernel holds the inode twice and the cache counts it once |
| `FuseMachine.ParentFirstLosesKey` | ceph-15.2.17/fusetrace/fusetrace_ll.cc:171-173 | a fair run, a directory forgotten before its file, in which a key that does not read back is lost |
| `FuseCache.Cache.constructor` | ceph-15.2.17/fusetrace/fusetrace_ll.cc:1148-1153 | a fresh mount caches the root as inode 1 with one reference and nothing else |
| `FuseCache.Cache.ValidIsMirrored` | ceph-15.2.17/fusetrace/fusetrace_ll.cc:135-158 | p.dentries[n] is i if and only if i.parents[(n, p.ino)] is p |
| `FuseCache.Cache.ViewWellFormed` | ceph-15.2.17/fusetrace/fusetrace_ll.cc:135-213 | the abstract state of a consistent cache is well formed |
| `FuseCache.Cache.RemoveDentry` | ceph-15.2.17/fusetrace/fusetrace_ll.cc:135-147 | removes exactly the one edge from dentries and erases one key of parents; both maps stay mirrored if and only if the name reads the same before and after the entry is erased |
| `FuseCache.Cache.DropDentry` | ceph-15.2.17/fusetrace/fusetrace_ll.cc:801-807 | for a caller that owns the name, both maps lose exactly the edge |
| `FuseCache.Cache.PutDentry` | ceph-15.2.17/fusetrace/fusetrace_ll.cc:156-157 | the two assignments add exactly the one edge to both maps |
| `FuseCache.Cache.AddDentry` | ceph-15.2.17/fusetrace/fusetrace_ll.cc:149-158 | keeps the mirror and replaces whatever was under the name |
| `FuseCache.Cache.FirstParent` | ceph-15.2.17/fusetrace/fusetrace_ll.cc:95-98 | begin() of parents is the least (name, ino) key |
| `FuseCache.Cache.UnlinkParents` | ceph-15.2.17/fusetrace/fusetrace_ll.cc:164-169 | the first loop removes exactly the edges into the inode |
| `FuseCache.Cache.UnlinkChildren` | ceph-15.2.17/fusetrace/fusetrace_ll.cc:171-173 | the second loop removes every name of the inode and erases from each child what its name reads as |
| `FuseCache.Cache.ParentsHoldIff` | ceph-15.2.17/fusetrace/fusetrace_ll.cc:171-173 | after it the children have let go of the inode if and only if, child by child, the names read back as a permutation of themselves |
| `FuseCache.Cache.UnlinkInode` | ceph-15.2.17/fusetrace/fusetrace_ll.cc:160-181 | ends on any graph, never trips remove_dentry's assertion, empties the inode and closes its descriptors; the cache stays consistent if and only if the inode's keys survive being read after they are freed, and otherwise a child keeps it as a parent |
| `FuseCache.Cache.CloseAll` | ceph-15.2.17/fusetrace/fusetrace_ll.cc:175-180 | closes every stray descriptor once |
| `FuseCache.Cache.RemoveInode` | ceph-15.2.17/fusetrace/fusetrace_ll.cc:183-192 | no dentries and no inode_map entry refers to the deleted inode; no parents entry does if and only if its keys survive |
| `FuseCache.Cache.NewInode` | ceph-15.2.17/fusetrace/fusetrace_ll.cc:205-207 | a fresh inode enters the map with count 0 and no edge |
| `FuseCache.Cache.AddInode` | ceph-15.2.17/fusetrace/fusetrace_ll.cc:194-213 | reuses a cached inode cut off from all its edges, or makes a new one, and links it under the name; consistent if and only if a reused inode's keys survive |
| `FuseCache.Cache.MakeInodePath` | ceph-15.2.17/fusetrace/fusetrace_ll.cc:92-107 | succeeds exactly on attached inodes; the path is the rendered names, and following them through lookup from the root reaches the inode |
| `FuseCache.Cache.FollowIsWalk` | ceph-15.2.17/fusetrace/fusetrace_ll.cc:82-86 | following names through lookup is walking the edges |
| `FuseCache.Cache.TakeRef` | ceph-15.2.17/fusetrace/fusetrace_ll.cc:289-290 | one more reference on one inode and nothing else |
| `FuseCache.Cache.Create` | ceph-15.2.17/fusetrace/fusetrace_ll.cc:714-718 | makes the create step and keeps the descriptor, consistent if and only if the keys of a reused inode survive |
| `FuseCache.Cache.Lookup` | ceph-15.2.17/fusetrace/fusetrace_ll.cc:248-295 | makes the lookup step; the cache stays consistent if and only if the lookup neither finds a cached number under a new name nor another number under a cached name |
| `FuseCache.Cache.Restat` | ceph-15.2.17/fusetrace/fusetrace_ll.cc:266-290 | a hit writes the number lstat found into the inode: consistent if and only if it is the old one |
| `FuseCache.Cache.LookupFresh` | ceph-15.2.17/fusetrace/fusetrace_ll.cc:277-290 | a miss on an uncached number caches it with one reference under the name |
| `FuseCache.Cache.LookupOver` | ceph-15.2.17/fusetrace/fusetrace_ll.cc:277-290 | a miss on a cached number puts a second inode with one reference in its place; the first keeps its count and is in the map no more |
| `FuseCache.Cache.ForgetCached` | ceph-15.2.17/fusetrace/fusetrace_ll.cc:312-320 | subtracts in an int and removes the inode when nothing is left; consistent if and only if a removed inode's keys survive |
| `FuseCache.Cache.Forget` | ceph-15.2.17/fusetrace/fusetrace_ll.cc:308-324 | makes the forget step, with the count wrapped to an int and a null entry left for an unknown inode; consistent if and only if a removed inode's keys survive |
| `FuseCache.Cache.Unlink` | ceph-15.2.17/fusetrace/fusetrace_ll.cc:801-807 | makes the unlink step: the name is gone from the directory's dentries and no other dentries entry changes |
| `FuseCache.Cache.Rename` | ceph-15.2.17/fusetrace/fusetrace_ll.cc:880-891 | makes the rename step, add before remove |
| `FuseCache.Cache.Link` | ceph-15.2.17/fusetrace/fusetrace_ll.cc:935-940 | makes the link step |
| `FuseCache.Cache.Serve` | ceph-15.2.17/fusetrace/fusetrace_ll.cc:1081-1116 | a sound request makes its step, and keeps the cache consistent if and only if the keys it frees survive |
| `FuseCache.ServeAll` | ceph-15.2.17/fusetrace/fusetrace_ll.cc:1081-1116 | over every fair run of requests in which freed keys survive the pointer structure is consistent and mirrored, holds exactly what the kernel holds, and every name finds what the requests tell |
| `Glob.EscapedMatchesOnlyItself` | ceph-15.2.17/src/krbd.cc:621-626 | for a backslash-free name the escaped pattern matches that name and nothing else |
| `Glob.BackslashNeverMatches` | ceph-15.2.17/src/krbd.cc:621-626 | the escaped pattern of a name with a backslash does not even match that name |
| `Glob.EscapeDenotesSingletonIff` | ceph-15.2.17/src/krbd.cc:621-626 | escape_glob denotes exactly its argument if and only if the argument has no backslash |
| `Glob.StarMatchesAny` | ceph-15.2.17/src/krbd.cc:621-626 | an unescaped star matches any text |
| `Glob.OneCharacter` | ceph-15.2.17/src/krbd.cc:621-626 | an unescaped question mark matches any one character, an ordinary character itself |
| `KrbdDevice.AttrMatchesIff` | ceph-15.2.17/src/krbd.cc:641-669 | matching an attribute with an escaped value is having that value |
| `KrbdDevice.FiltersIff` | ceph-15.2.17/src/krbd.cc:628-671 | the filters of __enumerate_devices are equalities of attributes |
| `KrbdDevice.EnumerationFindsAttributes` | ceph-15.2.17/src/krbd.cc:628-707 | on any devices: those with all attributes of the spec; those without pool_ns only for an empty namespace and when there are none with it |
| `KrbdDevice.EnumerationFindsTheSpec` | ceph-15.2.17/src/krbd.cc:628-707 | on one kernel (all rbd devices with pool_ns or none) and for names without backslash, enumerating by escaped patterns finds exactly the rbd devices whose spec equals the one asked for |
| `KrbdMap.CompleteGrows` | ceph-15.2.17/src/krbd.cc:353-361 | once both events have been seen, more events change nothing |
| `KrbdMap.CompleteIgnoresOrder` | ceph-15.2.17/src/krbd.cc:353-361 | the same events in another order, with the same first device of the image, are complete together |
| `KrbdMap.CandidatesSuffice` | ceph-15.2.17/src/krbd.cc:374-379 | the /dev/rbd filter never drops a block event that could match later |
| `KrbdMap.FirstBlockIff` | ceph-15.2.17/src/krbd.cc:382-394 | a first block event for a node exists if and only if one has come |
| `KrbdMap.CompleteIsPair` | ceph-15.2.17/src/krbd.cc:362-398 | in attributes: the events are complete if and only if they hold a first added rbd device with the pool, namespace, image and snapshot asked for and an added block device of its /dev/rbd node; what is reported is that node with the numbers of its first block event |
| `KrbdMap.UdevMapHandler.constructor` | ceph-15.2.17/src/krbd.cc:349-351 | a new handler has seen nothing |
| `KrbdMap.UdevMapHandler.Gather` | ceph-15.2.17/src/krbd.cc:363-379 | the handler takes the first device whose attributes are those of the image, and the block events it keeps suffice |
| `KrbdMap.UdevMapHandler.FindBlock` | ceph-15.2.17/src/krbd.cc:382-394 | finds the first gathered block event for the node, if there is one |
| `KrbdMap.UdevMapHandler.Handle` | ceph-15.2.17/src/krbd.cc:362-398 | answers true exactly at the first event by which both events have come, and reports the node of the image's own device with the numbers of its first block event |
| `KrbdMap.ReportStays` | ceph-15.2.17/src/krbd.cc:382-394 | events after the completing one would not change the report |
| `KrbdWait.WaitForMapping` | ceph-15.2.17/src/krbd.cc:286-345 | for any interleaving: waits for the sysfs result, returns it with false when negative, and otherwise the udev stream's first conclusion with true |
| `KrbdWait.WaitReturnsIff` | ceph-15.2.17/src/krbd.cc:286-345 | the wait returns if and only if the sysfs result has come and is negative or some message fails or satisfies the handler; a negative result is what it returns |
| `KrbdWait.ConclusionIff` | ceph-15.2.17/src/krbd.cc:319-343 | the stream has a conclusion if and only if one of its messages is a failure or satisfies the handler |
| `KrbdWait.Drain` | ceph-15.2.17/src/krbd.cc:320-342 | a batch yields the first conclusion in it, or the handler's history grown by its events |
| `KrbdWait.ConcludesZeroIff` | ceph-15.2.17/src/krbd.cc:319-343 | for a handler that stays satisfied, conclusion 0 means it was satisfied before anything failed |
| `KrbdWait.MapSucceedsIff` | ceph-15.2.17/src/krbd.cc:480-505 | a map succeeds if and only if the kernel accepted it and both events came before any udev failure |
| `KrbdWait.DrainMap` | ceph-15.2.17/src/krbd.cc:320-342 | the inner loop with the map handler itself: the handler answers as its history says |
| `KrbdWait.WaitForMap` | ceph-15.2.17/src/krbd.cc:480-505 | the wait with the map handler itself reaches the same verdict and on success reports node and numbers of the first device with the attributes of the image among all events, whatever the interleaving |
| `KrbdWait.UnmapReportsKernelResult` | ceph-15.2.17/src/krbd.cc:845-859 | what do_unmap returns is the sysfs result, whatever udev does |
| `KrbdWait.RemovalConcludes` | ceph-15.2.17/src/krbd.cc:767-780 | an unmap's udev side ends with 0 if and only if a remove event of that very device number came before any failure |
| `HistogramIndex.IndexInRange` | ceph-15.2.17/src/perf_histogram.h:170-205 | the index of an in-range tuple is below the raw size, for any number of axes |
| `HistogramIndex.TupleOfIndex` | ceph-15.2.17/src/perf_histogram.h:177-205 | every in-range tuple is recovered from its index |
| `HistogramIndex.IndexOfTuple` | ceph-15.2.17/src/perf_histogram.h:177-205 | every position below the raw size is the index of an in-range tuple |
| `HistogramIndex.IndexIsLinear` | ceph-15.2.17/src/perf_histogram.h:190-199 | the start index carried through the recursion weighs as much as all axes below |
| `HistogramIndex.StartNeverFalls` | ceph-15.2.17/src/perf_histogram.h:186-199 | the start index only grows on its way down, so no number on the way exceeds the index |
| `HistogramIndex.GetRawSize` | ceph-15.2.17/src/perf_histogram.h:161-168 | the loop computes the product of all bucket counts, which is also the largest number on the way |
| `HistogramIndex.CallsVisitInOrder` | ceph-15.2.17/src/perf_histogram.h:207-226 | below any position the visitor touches that position's stretch of the array, once each, in order |
| `HistogramIndex.VisitIsWholeArray` | ceph-15.2.17/src/perf_histogram.h:207-226 | the whole visit shows every counter once, from front to back |
| `HistogramIndex.CallsAreBalanced` | ceph-15.2.17/src/perf_histogram.h:218-225 | dimension enter and leave calls are balanced and values come at full depth only |
| `HistogramIndex.VisitValues` | ceph-15.2.17/src/perf_histogram.h:210-226 | makes exactly those calls, and the largest start index it ever holds is the raw size |
| `HistogramIndex.VisitRow` | ceph-15.2.17/src/perf_histogram.h:219-224 | the loop over one axis visits its buckets in order |
| `AxisBuckets.GetBucketForAxis` | ceph-15.2.17/src/common/perf_histogram.cc:69-91 | every value goes to an existing bucket, and to the one the widths of the axis give it, linear or logarithmic; exactly when no number on the way leaves int64_t |
| `AxisBuckets.LinearBucket` | ceph-15.2.17/src/common/perf_histogram.cc:79-80 | the linear formula picks the bucket that holds the value, one quantum wide between the open ends; when it stays in int64_t |
| `AxisBuckets.Log2Bucket` | ceph-15.2.17/src/common/perf_histogram.cc:82-88 | the search picks the bucket that holds the value; it leaves int64_t exactly beyond 64 buckets and 2^62 quanta or for a difference that does |
| `AxisBuckets.HoldsUnique` | ceph-15.2.17/src/common/perf_histogram.cc:69-91 | a value belongs to one bucket only |
| `AxisBuckets.HoldsIsInBucket` | ceph-15.2.17/src/common/perf_histogram.cc:59-91 | which values a bucket holds, in widths: one quantum each on a linear axis; on a logarithmic one, one quantum and then ends twice as far |
| `AxisBuckets.RangesAreWide` | ceph-15.2.17/src/common/perf_histogram.cc:59-121 | the printed ranges follow one another without a gap; on a linear axis each is one quantum wide, on a logarithmic one each as wide as all the middle ones before it together |
| `AxisBuckets.GetAxisBucketRanges` | ceph-15.2.17/src/common/perf_histogram.cc:93-121 | the printed ranges are the buckets' bounds, adjacent, with the widths of the axis and open at both ends; exactly when all bounds are of int64_t |
| `AxisBuckets.MiddleRanges` | ceph-15.2.17/src/common/perf_histogram.cc:100-111 | the loop fills in the ranges between the two open ones; it stays in int64_t if and only if its last bound does |
| `AxisBuckets.BucketsAgreeWithRanges` | ceph-15.2.17/src/common/perf_histogram.cc:69-121 | for every 64-bit value the range of a bucket contains it if and only if that is its bucket, with the exact condition for both computations to stay in int64_t |
| `PerfHistogram.HitsAreMultiplicity` | ceph-15.2.17/src/perf_histogram.h:112-131 | the hits at a tuple's index are that tuple's multiplicity in the history |
| `PerfHistogram.SumCountsInputs` | ceph-15.2.17/src/perf_histogram.h:66-72 | adding up selected counters counts the inputs with a selected index |
| `PerfHistogram.AllCountersCountAllInputs` | ceph-15.2.17/src/perf_histogram.h:66-72 | all counters together count every input once |
| `PerfHistogram.MarginalIsOneAxisHistogram` | ceph-15.2.17/src/perf_histogram.h:66-72 | summing out all axes but one gives the one-axis histogram of the same inputs |
| `PerfHistogram.Histogram.Reset` | ceph-15.2.17/src/perf_histogram.h:104-110 | every counter is 0 and the history empty |
| `PerfHistogram.Histogram.constructor` | ceph-15.2.17/src/perf_histogram.h:77-92 | a new histogram has an array of the raw size and an empty history |
| `PerfHistogram.Histogram.BucketsFor` | ceph-15.2.17/src/perf_histogram.h:170-175 | one bucket per axis, each holding its value |
| `PerfHistogram.Histogram.IncBucket` | ceph-15.2.17/src/perf_histogram.h:119-124 | the counters stay the history, grown by the tuple, modulo 2^64 |
| `PerfHistogram.Histogram.Inc` | ceph-15.2.17/src/perf_histogram.h:112-117 | as IncBucket, for the buckets that hold the values |
| `PerfHistogram.Histogram.ReadBucket` | ceph-15.2.17/src/perf_histogram.h:126-131 | below 2^64 increments it reads the number of inputs that fell in the tuple |
| `PerfHistogram.Histogram.CountersAddUp` | ceph-15.2.17/src/perf_histogram.h:66-72 | the stored counters add up to the number of increments, and per bucket of an axis to the inputs in it |
| `PerfHistogram.Histogram.DumpFormattedValues` | ceph-15.2.17/src/perf_histogram.h:154-159 | the k-th value shown is the k-th tuple's count, in balanced sections, and the largest start index on the way is the raw size |
| `CommentFilter.NextPairIsLeftmost` | ceph-15.2.17/doc/scripts/gen_state_diagram.py:39-62 | the comment marks of the definition are the leftmost ones |
| `CommentFilter.StripWithoutComment` | ceph-15.2.17/doc/scripts/gen_state_diagram.py:39-62 | a text without slash-star is left as it is |
| `CommentFilter.StripComment` | ceph-15.2.17/doc/scripts/gen_state_diagram.py:39-62 | the first comment, up to the first star-slash behind its opening, goes, and the rest is stripped on its own |
| `CommentFilter.StripOpenComment` | ceph-15.2.17/doc/scripts/gen_state_diagram.py:39-62 | an unclosed comment swallows the rest |
| `CommentFilter.Feed` | ceph-15.2.17/doc/scripts/gen_state_diagram.py:42-62 | one character passes on exactly what stripping keeps of it |
| `CommentFilter.RemoveMultilineComments` | ceph-15.2.17/doc/scripts/gen_state_diagram.py:39-62 | the result is the stripped text if and only if the text after the last comment does not end with a slash; otherwise that slash is missing |
| `CommentFilter.AccLines` | ceph-15.2.17/doc/scripts/gen_state_diagram.py:12-20 | each chunk has one delimiter, at its end; together the chunks are the input up to its last delimiter, less leading newlines |
| `CommentFilter.FilterText` | ceph-15.2.17/doc/scripts/gen_state_diagram.py:12-62 | the last two stages: the statements are the stripped text up to its last delimiter |
| `CommentFilter.ToCharHasNoNewline` | ceph-15.2.17/doc/scripts/gen_state_diagram.py:23-29 | no newline reaches the later stages |
| `CommentFilter.ToCharKeepsPlaces` | ceph-15.2.17/doc/scripts/gen_state_diagram.py:23-29 | every character stays at its place, a newline as a space |
| `CommentFilter.CutLineCuts` | ceph-15.2.17/doc/scripts/gen_state_diagram.py:36 | what is kept of a line is the part before its first double slash, or all of it, and its newline |
| `CommentFilter.SingleLineCommentsGo` | ceph-15.2.17/doc/scripts/gen_state_diagram.py:32-36 | a line that starts with # gives nothing, every other line what is kept of it, in order |
| `CommentFilter.StripKeepsCharacters` | ceph-15.2.17/doc/scripts/gen_state_diagram.py:39-62 | stripping comments adds no character |
| `CommentFilter.DoFilter` | ceph-15.2.17/doc/scripts/gen_state_diagram.py:8-62 | the statements are exactly what is kept of the lines, newlines as spaces, comments stripped, cut after every ; { } up to the last one |
| `StateDiagram.LinesBalanced` | ceph-15.2.17/doc/scripts/gen_state_diagram.py:172-191 | subgraph braces are balanced and every line is indented by its depth |
| `StateDiagram.LinesShowTree` | ceph-15.2.17/doc/scripts/gen_state_diagram.py:172-191 | the nodes drawn are the leaves in order; clusters are titled in preorder and numbered consecutively |
| `StateDiagram.NodesAreMarked` | ceph-15.2.17/doc/scripts/gen_state_diagram.py:183-191 | a node is drawn as a diamond if and only if it is the initial state of some machine |
| `StateDiagram.LabelsNumberComposites` | ceph-15.2.17/doc/scripts/gen_state_diagram.py:173-176 | with distinct names, clusterlabel maps the k-th composite in preorder to the k-th number |
| `StateDiagram.SubtreeIsDrawn` | ceph-15.2.17/doc/scripts/gen_state_diagram.py:172-182 | the lines of a composite stand together in the drawing, as the cluster its label names |
| `StateDiagram.LeavesHaveNoContents` | ceph-15.2.17/doc/scripts/gen_state_diagram.py:183-191 | no state drawn as a node has contents |
| `StateDiagram.ResolvedIsInside` | ceph-15.2.17/doc/scripts/gen_state_diagram.py:204-209 | the descent through initial states ends inside the state it starts from, at no machine |
| `StateDiagram.MachineResolves` | ceph-15.2.17/doc/scripts/gen_state_diagram.py:204-209 | when initial states lead on, a machine resolves to a leaf of its own subtree |
| `StateDiagram.AllResolveToLeavesIff` | ceph-15.2.17/doc/scripts/gen_state_diagram.py:193-210 | every machine of the tree resolves to a leaf of its own subtree if and only if every initial state with contents is a machine itself |
| `StateDiagram.InitialWithoutInitial` | ceph-15.2.17/doc/scripts/gen_state_diagram.py:193-210 | a machine A with initial state B, where B has contents but no initial state, resolves to B, which is no node |
| `StateDiagram.DrawnAsNodeIff` | ceph-15.2.17/doc/scripts/gen_state_diagram.py:172-191 | a state is drawn as a node if and only if it is in the tree and has no contents |
| `StateDiagram.Renderer.EmitState` | ceph-15.2.17/doc/scripts/gen_state_diagram.py:172-191 | ends on every finite tree and emits exactly its lines, numbers and labels |
| `StateDiagram.Renderer.EmitCluster` | ceph-15.2.17/doc/scripts/gen_state_diagram.py:173-182 | the same for a state with states inside |
| `StateDiagram.Renderer.EmitInside` | ceph-15.2.17/doc/scripts/gen_state_diagram.py:179-181 | the states inside follow each other, one tab further in |
| `StateDiagram.Renderer.Resolve` | ceph-15.2.17/doc/scripts/gen_state_diagram.py:204-209 | the loop passes from machine to initial state until it is at no machine, where the descent ends |
| `StateDiagram.Renderer.EmitEnd` | ceph-15.2.17/doc/scripts/gen_state_diagram.py:202-209 | an end at a machine names the cluster drawn for it and is a leaf of it when initial states lead on; a plain end is drawn as a node if and only if it is in the tree without contents |
| `StateDiagram.EmitDot` | ceph-15.2.17/doc/scripts/gen_state_diagram.py:156-210 | the whole drawing is balanced, shows each leaf, numbers the clusters; when initial states lead on, an end of an edge is a node of the drawing, inside the cluster it names, if and only if it was a machine or a state of the tree without contents |
| `Thrasher.RemoveIsMinusOne` | ceph-15.2.17/qa/tasks/ceph_manager.py:258-259 | list.remove takes out exactly one occurrence |
| `Thrasher.StepKeepsPartition` | ceph-15.2.17/qa/tasks/ceph_manager.py:467-527 | every action keeps live+dead and in+out partitions of the same OSD set without duplicates |
| `Thrasher.RunKeepsPartition` | ceph-15.2.17/qa/tasks/ceph_manager.py:467-527 | so does every run of actions |
| `Thrasher.StepMoves` | ceph-15.2.17/qa/tasks/ceph_manager.py:254-527 | an action moves its OSD from the one list to the other and no other OSD anywhere |
| `Thrasher.StepFailsIff` | ceph-15.2.17/qa/tasks/ceph_manager.py:254-527 | an action fails if and only if its OSD is not in the list it has to leave |
| `Thrasher.OSDThrasher.KillOsd` | ceph-15.2.17/qa/tasks/ceph_manager.py:254-264 | makes the kill step, or changes nothing when the OSD is not live |
| `Thrasher.OSDThrasher.BlackholeKillOsd` | ceph-15.2.17/qa/tasks/ceph_manager.py:472-477 | makes the blackhole-kill step, or changes nothing |
| `Thrasher.OSDThrasher.ReviveOsd` | ceph-15.2.17/qa/tasks/ceph_manager.py:485-493 | makes the revive step, or changes nothing |
| `Thrasher.OSDThrasher.OutOsd` | ceph-15.2.17/qa/tasks/ceph_manager.py:506-512 | makes the out step, or changes nothing |
| `Thrasher.OSDThrasher.InOsd` | ceph-15.2.17/qa/tasks/ceph_manager.py:519-525 | makes the in step, reviving a dead OSD instead, or changes nothing |
| `Thrasher.Choice` | ceph-15.2.17/qa/tasks/ceph_manager.py:705-714 | random.choice returns a member of the list |
| `Thrasher.OSDThrasher.AllUp` | ceph-15.2.17/qa/tasks/ceph_manager.py:705-714 | under every random choice it ends with no OSD dead or out, and none lost or duplicated |
| `Thrasher.OwnerIsUnique` | ceph-15.2.17/qa/tasks/ceph_manager.py:1063-1069 | at most one action's cumulative interval holds a value |
| `Thrasher.Select` | ceph-15.2.17/qa/tasks/ceph_manager.py:1063-1069 | returns the one action whose interval holds the drawn value, never one of weight zero, and none if and only if the value is not below the total |
| `Thrasher.GuardsHold` | ceph-15.2.17/qa/tasks/ceph_manager.py:1015-1061 | a list-changing action is offered only above its minimum |
| `Thrasher.FallsOnOwner` | ceph-15.2.17/qa/tasks/ceph_manager.py:1015-1023 | a draw within the four shares is owned by the action it falls on |
| `Thrasher.PastTheFour` | ceph-15.2.17/qa/tasks/ceph_manager.py:1015-1061 | a draw past them is owned by one of the others |
| `Thrasher.UnguardedShare` | ceph-15.2.17/qa/tasks/ceph_manager.py:1024-1061 | the share of each of the other actions |
| `Thrasher.SteadyShare` | ceph-15.2.17/qa/tasks/ceph_manager.py:1026-1037 | the shares of the actions that are always listed |
| `Thrasher.PausesShare` | ceph-15.2.17/qa/tasks/ceph_manager.py:1047-1061 | both pauses are listed twice, and each injects filestore_inject_stall |
| `Thrasher.ChooseAction` | ceph-15.2.17/qa/tasks/ceph_manager.py:997-1069 | returns the listed action that owns the draw: out, kill, in and revive exactly on their consecutive shares 1.0, chance_down, 1.7 and 1.0, a closed guard having no share; none if and only if the draw is not below the total |
| `Thrasher.ChosenKeepsMinimum` | ceph-15.2.17/qa/tasks/ceph_manager.py:1016-1023 | a chosen action keeps min_in, min_live and min_out |
| `Thrasher.GuardedRunKeepsMinimum` | ceph-15.2.17/qa/tasks/ceph_manager.py:1016-1023 | so does every run of chosen actions |
| `Thrasher.MinDeadKeptIff` | ceph-15.2.17/qa/tasks/ceph_manager.py:521-525 | a chosen action keeps min_dead if and only if it is not an in_osd on a dead OSD at the minimum |
| `Watchdog.NameIsInjective` | ceph-15.2.17/qa/tasks/daemonwatchdog.py:94-96 | a name stands for one daemon, so the watchdog's assertion holds |
| `Watchdog.StreakIsUnbroken` | ceph-15.2.17/qa/tasks/daemonwatchdog.py:93-106 | a streak is failed throughout and not at the poll before it |
| `Watchdog.AlarmIff` | ceph-15.2.17/qa/tasks/daemonwatchdog.py:93-111 | while the clock does not go back, an alarm is a daemon failed at every poll since more than the timeout ago, or a thrasher with an exception |
| `Watchdog.SetDefault` | ceph-15.2.17/qa/tasks/daemonwatchdog.py:94-97 | the entry used is that daemon's, with the time its streak began |
| `Watchdog.Note` | ceph-15.2.17/qa/tasks/daemonwatchdog.py:93-100 | every failed daemon is in the table since the first poll of its streak, and bark is set if and only if a streak is overdue |
| `Watchdog.Forget` | ceph-15.2.17/qa/tasks/daemonwatchdog.py:102-106 | exactly the restored daemons leave the table |
| `Watchdog.AnyException` | ceph-15.2.17/qa/tasks/daemonwatchdog.py:108-111 | true exactly when some thrasher holds an exception |
| `Watchdog.Watch` | ceph-15.2.17/qa/tasks/daemonwatchdog.py:72-117 | barks at the first poll at which a streak has lasted more than the timeout or a thrasher holds an exception, and at no other |
| `CrushLocation.ParseEncoded` | ceph-15.2.17/src/libcephfs.cc:1442-1454 | the packed bytes of NUL-free pairs parse back to those pairs |
| `CrushLocation.ParsedIsNulFree` | ceph-15.2.17/src/libcephfs.cc:1442-1454 | whatever a buffer parses to holds no NUL |
| `CrushLocation.FittingFits` | ceph-15.2.17/src/libcephfs.cc:1442-1454 | the pairs written fit the buffer, and are all of them if all fit |
| `CrushLocation.ParsesIffNulFree` | ceph-15.2.17/src/libcephfs.cc:1442-1454 | a buffer that fits parses back to the list if and only if no string holds a NUL |
| `CrushLocation.StrCpy` | ceph-15.2.17/src/libcephfs.cc:1448-1451 | writes the string up to its first NUL and a NUL, and nothing else |
| `CrushLocation.PutPair` | ceph-15.2.17/src/libcephfs.cc:1447-1452 | writes both strings, each up to its first NUL, the second behind the full length of the first, and nothing else |
| `CrushLocation.Pack` | ceph-15.2.17/src/libcephfs.cc:1439-1454 | counts the bytes of all pairs, and writes the longest prefix of whole pairs that fits, in front of len |
| `CrushLocation.GetOsdCrushLocation` | ceph-15.2.17/src/libcephfs.cc:1425-1463 | the error cases, the size as the result, the buffer as Pack leaves it, and the round trip exactly when no string holds a NUL |
| `ScrubWait.Tally` | ceph-15.2.17/qa/tasks/ceph.py:1241-1253 | counts the scrubbed groups, sees whether one is missing, and lists exactly the missing ones in order |
| `ScrubWait.PendingIsTheRest` | ceph-15.2.17/qa/tasks/ceph.py:1247-1253 | pending and scrubbed groups are all there are, the pending ones are exactly those last scrubbed before the start, and none is pending exactly when all are scrubbed |
| `ScrubWait.BestIsLargest` | ceph-15.2.17/qa/tasks/ceph.py:1254-1256 | the best count is the largest so far, and some reply had it |
| `ScrubWait.GivesUpIff` | ceph-15.2.17/qa/tasks/ceph.py:1254-1267 | the wait gives up at a reply if and only if it and the 40 before it have not raised the best count |
| `ScrubWait.Round` | ceph-15.2.17/qa/tasks/ceph.py:1239-1265 | one reply moves the counters to its count, or counts a poll without progress, and yields the scrubs to ask for again |
| `ScrubWait.NoneBeforeTheSixth` | ceph-15.2.17/qa/tasks/ceph.py:1259-1265 | in a row of replies without progress none before the sixth asks again |
| `ScrubWait.AsksAtTheSixth` | ceph-15.2.17/qa/tasks/ceph.py:1259-1265 | the sixth asks for exactly what it lacks |
| `ScrubWait.TracksStep` | ceph-15.2.17/qa/tasks/ceph.py:1254-1267 | prev_good and gap_cnt are the best count and the replies since it, and bound the polls |
| `ScrubWait.WaitForScrubs` | ceph-15.2.17/qa/tasks/ceph.py:1236-1270 | ends after at most (N + 1) * 41 polls, at the first reply that is complete or the 41st without progress, and succeeds exactly in the first case without the second; the scrubs asked for again over the whole wait |
| `ScrubWait.CanGiveUpOnCompleteReply` | ceph-15.2.17/qa/tasks/ceph.py:1254-1267 | a sequence of replies on whose last, complete one the wait gives up |
| `ScrubWait.CompleteReplySucceeds` | ceph-15.2.17/qa/tasks/ceph.py:1254-1267 | a complete reply that names a group, and no fewer than the replies before it, ends the wait well |

## Left out

- FUSE tracer: has_perm, attributes other than the inode number, trace output, and the handlers that only read the cache; `open`, `release` and the descriptor that `unlink` opens only change `fds`.
- FUSE tracer: what another thread does to an inode between the two locked sections of one request; each section is a step of its own.
- FuseCache.Cache.AddInode: a create whose number has a null entry in inode_map is excluded by a requires, because the code dereferences the entry; fair runs have no null entry (`FuseMachine.RunConservesReferences`).
- FuseCache.Cache.TakeRef: `in->ref++` is not wrapped to an int; a fair run asks that the count is in range whenever the inode is forgotten, not in between.
- FuseCache.Cache.Link: the attributes `link` copies into the inode are taken to carry the number it already has.
- krbd: building the map options, keyrings, module loading, the EBUSY retries of unmap, and the assertions comparing device numbers of the two events.
- Glob: character classes, collating symbols and quoting inside brackets; no pattern made by escape_glob from a name without backslash contains them.
- AxisBuckets.GetBucketForAxis: says when a number leaves int64_t, but not what the code then computes; the same holds for LinearBucket, Log2Bucket, MiddleRanges, GetAxisBucketRanges and BucketsAgreeWithRanges.
- HistogramIndex.GetRawSize: does not model what int64_t multiplication gives beyond its range; the largest number on the way is the raw size, and the index stays below it.
- PerfHistogram: concurrent increments; the copy constructor; the axes part of the dump.
- CommentFilter.DoFilter: what is kept of a line is stated for lines whose only newline is at the end, which is what a file yields.
- State diagram: the regular expressions that find states, events and contexts; the final text of each line, the tab `emit_dot` puts before it, and the search for the top-level machine.
- StateDiagram.EmitDot: the contents are required to form a finite tree with distinct composite names, as nested C++ classes do; on a cyclic table the recursion has no end.
- Thrasher.Select: weights are real numbers, so float rounding of the decrements is not modelled.
- Thrasher: the object-store tool, the cluster commands behind each action, test_pool_min_size and test_map_discontinuity.
- Watchdog: unmounting and signalling after a bark.
- CrushLocation.GetOsdCrushLocation: does not model overflow of the size_t byte count.
- Scrub wait: parsing of time stamps (a time is a number of seconds) and the wait for clean placement groups before it.
- The remaining libcephfs calls, the daemons' main functions and the deployment tasks.
