# Filebench workload engine: a verified model

Filebench drives file-system workloads. This project models the four parts of its engine that carry
the state, and proves what they are relied on for.

* **The AVL tree** (`Avl*.dfy`). Nodes carry two child links, a parent link, a child index and a
  stored balance, and every operation is a loop that rewrites these fields. `AvlTree` is the tree
  header. Its ghost layout `L` records for every node its links, the stretch `lo..hi` of the in-order
  sequence `ord` below it, its own position and its height; `Valid()` ties the layout to the fields of
  the nodes and says that heights and balances are right. The proofs follow the height of one subtree
  that is off by one (`Off`), upwards. `AvlMeaning` shows that `ord` and the heights are what a plain
  recursive traversal of the child links gives. Order by key (`Sorted`) is a separate matter, because
  `avl_update` removes from a tree that is out of order at one node.
* **The fileset** (`Fileset*.dfy`, `Prealloc.dfy`, `Populate*.dfy`). Picking, unbusying, and the
  wait-and-grab loops of deletefile and closefile; parallel pre-allocation; the recursive populator.
  `FilesetHeap.FileSet` is the fileset as it is kept: entries with their flags, indexed by three AVL
  trees. `FilesetState` gives each critical section as a function on the same fileset with its trees
  reduced to index sets, and the methods of `FilesetHeap` are proved against these functions;
  `FilesetPick` tells what a pick gives by flags and rotors alone.
  `FilesetProtocol`, `FilesetKinds` (files and leaf directories together) and `Prealloc` are step
  systems, one step per critical section, over any number of threads and all interleavings.
* **The metering system** (`Metering.dfy`). One producer of events and any number of limiters, again
  as a step system. `Runs` holds what all step systems share.
* **Flowops and the allocator** (`Flowop*.dfy`, `Ipc*.dfy`, `RandomScale.dfy`). Deep cloning of nested
  composite flowops, execution of composites, next-fit slot allocation, and the integer scaling behind
  random offsets.

Where the code does less than is promised, the model follows the code:

* `ipc_malloc` is described as returning NULL if all objects have been allocated. It never considers
  its start slot, so it also fails if only that slot is free (`IpcSlots.FailsWithFreeSlot`,
  `IpcSlots.FailsOnlyWhenFull`).
* `flowop_create_runtime_flowops` reports success if its own list was copied, even if an inner list
  was cut short for lack of slots, since a failing init is only logged
  (`FlowopClone.CopiedExactly`, `FlowopClone.SuccessWithoutInner`).
* A composite passes over return codes it does not know, while the worker loop ends on them. A
  run is ended by the first outcome that is not OK if and only if no composite was given such a code
  (`FlowopExec.EndsAtFirstFailure`, `FlowopExec.PassedOver`).
* `avl_update` loses a node that has to move if another node already has its key, because it goes
  through `avl_add` (`AvlUpdate.Update`).
* `avl_update_lt` and `avl_update_gt` do nothing if the node is out of order on the other side
  (`AvlUpdate.UpdateToward`).
* `fs_idle_files` drifts upwards by one with every close that finds an open count other than one
  (`FilesetProtocol.Safety`), and there are runs with such a close (`FilesetProtocol.DriftHappens`).
* The second loop of `fileset_populate_subdir` numbers its items from 1 again, so that a fileset with
  both files and leaf directories always has a file and a leaf directory of the same path
  (`PopulatePaths.PopulateAndResolve`).
* `fileset_resolvepath` cuts paths off at MAXPATHLEN, so that all files of a directory whose own path is
  that long have the same resolved path (`PopulatePaths.DeepFilesCollide`).
* `eventgen_reset` takes no lock. A reset between the load and the store of a locked update is undone
  by the store (`Metering.ResetUndone`). A reset between the test of a limiter and its load makes the
  queue length wrap round to nearly 2^64 (`Metering.QueueWraps`), and the producer then posts nothing
  until the limiters have taken all that (`Metering.Flooded`). Conservation and the bound on the queue
  hold exactly without such resets (`Metering.ConservedSinceReset`, `Metering.QueueBound`).
* Random I/O is kept within the working set size that a flowop gives, which may exceed the file
  (`RandomScale.WithinFile`).

`fileset_createset` resets the thread count without waiting for threads of an earlier call. The program
leaves none: the call returns OK only when all threads are done (`Prealloc.Safety`), and an error ends
the program (filebench/parser_gram.y:3004-3023). `Prealloc.LeftoverBreaks` shows that the guarantee
rests on this.

## Model

| member | source | states |
|---|---|---|
| `AvlHeap.AvlTree.constructor` | filebench/fb_avl.c:875-890 | a new tree is valid and empty |
| `AvlMeaning.InOrderIsSequence` | filebench/fb_avl.h:60-80 | following the child links recursively, in order, from the root of any well-shaped layout gives exactly `ord`, so every statement about `ord` is one about the links |
| `AvlMeaning.InOrderIsStretch` | filebench/fb_avl.h:60-80 | the same for the subtree under any node: its recursive traversal is the stretch `lo..hi` of the sequence |
| `AvlMeaning.HeightIsRecorded` | filebench/fb_avl.h:68-70 | in a balanced layout the recorded height of a node is the height found by recursion |
| `AvlMeaning.HeightBound` | filebench/fb_avl.h:51-53 | a balanced tree of height h has at least fib(h+2)-1 nodes |
| `AvlRotation.RotatedOnceShaped` | filebench/fb_avl.c:336-376 | the single rotation keeps the tree well-linked with the same in-order sequence |
| `AvlRotation.RotatedOnceOff` | filebench/fb_avl.c:336-376 | after it all balances are right again, and the subtree's height has changed by exactly what the taller child's balance decides |
| `AvlRotation.RotatedTwiceShaped` | filebench/fb_avl.c:411-458 | the double rotation keeps the tree well-linked with the same in-order sequence |
| `AvlRotation.DoubleIsTwoSingles` | filebench/fb_avl.c:411-458 | the double rotation rewires exactly as two single rotations do |
| `AvlRotation.RotatedTwiceOff` | filebench/fb_avl.c:411-458 | after it all three balances are right, whatever the grandchild leaned to, and the subtree is one lower |
| `AvlHeap.RotateOnce` | filebench/fb_avl.c:336-376 | the pointer updates produce exactly the rotated layout on every node, and the result says whether the new subtree root is balanced |
| `AvlHeap.RotateTwice` | filebench/fb_avl.c:411-458 | the pointer updates of the double rotation produce exactly the rotated layout on every node |
| `AvlHeap.Rotation` | filebench/fb_avl.c:293-459 | from any doubly heavy node, balance is restored there, only the parent can still be off, and the result is nonzero exactly if the subtree got shorter |
| `AvlGap.GapOneToOne` | filebench/fb_avl.h:150-156 | open child slots correspond one to one to the positions at which a node can be put into the sequence: each position has exactly one |
| `AvlGap.InsertedShaped` | filebench/fb_avl.c:495-518 | hanging a leaf at an open slot gives a well-shaped tree whose sequence has the node at exactly that gap |
| `AvlInsert.ClimbStep` | filebench/fb_avl.c:525-559 | one level of the climb: the tree is balanced at once, after at most one rotation, or the node has grown by one and only its parent is off |
| `AvlInsert.Climb` | filebench/fb_avl.c:519-560 | the upward loop ends with every balance right and the sequence unchanged |
| `AvlInsert.Insert` | filebench/fb_avl.c:472-560 | inserting at any open slot of a valid tree gives a valid tree with the node at exactly that position of the sequence and one more node counted |
| `AvlUpdate.InsertHere` | filebench/fb_avl.c:574-608 | the node ends up directly before or after the given one |
| `AvlUpdate.Add` | filebench/fb_avl.c:613-627 | on a sorted tree: if the key is there nothing changes, else the node is added and the tree is sorted and valid |
| `AvlDrop.RemovedShaped` | filebench/fb_avl.c:742-763 | splicing out a node with at most one child removes exactly it from the sequence |
| `AvlDrop.RemovedOff` | filebench/fb_avl.c:742-763 | afterwards only the parent is off, by one level on the side of the removed node |
| `AvlDrop.RenamedRemoved` | filebench/fb_avl.c:683-727 | swapping a node with its neighbour and removing the placeholder is removing the node |
| `AvlRemove.SwapOut` | filebench/fb_avl.c:683-727 | the swap through a placeholder leaves a valid tree in which the placeholder has at most one child and stands for the node to be removed |
| `AvlRemove.Unlink` | filebench/fb_avl.c:742-763 | the node is out of the sequence, the count is one smaller, and only its parent is off |
| `AvlRemove.SinkStep` | filebench/fb_avl.c:765-804 | one level of the loop: it stops exactly if the subtree at the node kept its height, else the parent is off by one |
| `AvlRemove.Sink` | filebench/fb_avl.c:765-804 | the loop, with a rotation on every level if need be, ends with every balance right |
| `AvlRemove.Remove` | filebench/fb_avl.c:652-804 | removing any node of a valid tree, sorted or not, leaves a valid tree whose sequence is the old one without exactly that node |
| `AvlSearch.Walk` | filebench/fb_avl.c:122-163 | predecessor or successor in the sequence, NULL at the ends and for NULL |
| `AvlSearch.First` | filebench/fb_avl.c:169-182 | the first node of the sequence, NULL if empty |
| `AvlSearch.Last` | filebench/fb_avl.c:188-201 | the last node of the sequence, NULL if empty |
| `AvlSearch.Nearest` | filebench/fb_avl.c:212-233 | the node just before or after the gap that an insertion point stands for |
| `AvlSearch.Compare` | filebench/fileset.c:1305-1321 | the sign of the result is the order of the two indices |
| `AvlSearch.Find` | filebench/fb_avl.c:243-276 | the node with the key, or the one open slot that separates smaller from larger keys; v comparisons mean a tree at least v high and of at least fib(v+2)-1 nodes |
| `AvlUpdate.SortedUnlessMisplaced` | filebench/fb_avl.c:852-870 | if all others are sorted and the key is fresh, comparing with the two neighbours decides whether the whole sequence is sorted |
| `AvlUpdate.Reinsert` | filebench/fb_avl.c:806-809 | remove and add sorts the tree and keeps the node set, except that the node stays out if its key is taken |
| `AvlUpdate.Update` | filebench/fb_avl.c:852-870 | on a tree sorted but for one node: sorted and valid afterwards, same nodes if the key is fresh, and true exactly if the node had to move |
| `AvlUpdate.UpdateToward` | filebench/fb_avl.c:810-850 | the same for a change in the stated direction, and no effect if the node is out of order on the other side |
| `AvlPostOrder.RightIsLeaf` | filebench/fb_avl.c:1031-1051 | in a balanced tree the right child of a node without left child is a leaf |
| `AvlPostOrder.ParentIsNext` | filebench/fb_avl.c:1013-1021 | after a right child, or a left child without right sibling, the next node in post-order is the parent |
| `AvlPostOrder.FirstIsNext` | filebench/fb_avl.c:1023-1050 | after a left child with a right sibling, the next node is the first of the sibling's subtree |
| `AvlDestroy.DestroyNodes` | filebench/fb_avl.c:957-1064 | every call hands out one node not handed out before, after its children, writing only to nodes not yet handed out; once all are out it returns NULL with root NULL and count 0 |
| `AvlDestroy.DestroyAll` | filebench/fb_avl.c:938-957 | the documented loop, filling every returned node with garbage at once, returns every node exactly once, children before parents, and empties the tree |
| `FilesetTrees.FindEntry` | filebench/fileset.c:590-610 | the entry with the least index at or above the request, wrapping to the least index; NULL exactly if the tree is empty |
| `FilesetTrees.BusyScan` | filebench/fileset.c:763-779 | the first entry that is not busy, cyclically from the start; NULL exactly if all are busy |
| `FilesetTrees.MoveEntry` | filebench/fileset.c:249-255 | the entry leaves one tree and is in the other, both valid and sorted |
| `FilesetBridge.RequestedAgrees` | filebench/fileset.c:590-610 | what FindEntry finds on the nodes is Requested on the set of indices |
| `FilesetBridge.ScanAgrees` | filebench/fileset.c:763-779 | what BusyScan finds on the nodes is FirstIdle on the set of indices |
| `FilesetBridge.ScanAgreesNone` | filebench/fileset.c:763-779 | both find nothing in exactly the same states |
| `FilesetBridge.FindIdle` | filebench/fileset.c:590-610 | finding and scanning on a tree give the entries that Requested and FirstIdle name |
| `FilesetState.FirstIdle` | filebench/fileset.c:763-779 | nothing exactly if no member is idle, else the idle member that comes first from the start, going up and wrapping round |
| `FilesetHeap.FileSet.constructor` | filebench/fileset.c:1617-1632 | three empty trees and no entries |
| `FilesetHeap.FileSet.InsertFile` | filebench/fileset.c:1338-1354 | a new free and idle entry in the free tree, with the idle count as its index; nothing else changes |
| `FilesetHeap.Build` | filebench/fileset.c:1338-1354 | inserting n files one by one into empty trees gives, with any threads, exactly the state that the runs of FilesetProtocol start from |
| `FilesetHeap.FileSet.Locate` | filebench/fileset.c:691-779 | on the tree asked for, the entry found is the requested one and the scan ends at the first idle entry from it, or nowhere exactly if there is none |
| `FilesetPick.PickServes` | filebench/fileset.c:627-805 | told by flags and rotors alone: it waits exactly if there are entries and the idle count is 0; it starts from the least entry with the flags asked for at or above the index supplied, drawn or in the rotor, wrapping round, and leaves the rotor one past it; it gets the first idle one from there, or nothing exactly if none with these flags is idle |
| `FilesetHeap.FileSet.PickFile` | filebench/fileset.c:627-805 | run on the AVL trees, it keeps them valid, sorted and apart with every entry in the tree its flags name; the entry returned was not busy and had FSE_FREE, or not that and FSE_EXISTS as asked; with nothing returned no idle entry had these flags; flags, idle count and rotors change exactly as PickServes and Pick say |
| `FilesetHeap.FileSet.MoveReady` | filebench/fileset.c:249-255 | in every valid fileset the entry to be moved is in the tree it is taken from and its index is not in the one it goes to, so that avl_remove and avl_add both work |
| `FilesetHeap.FileSet.Move` | filebench/fileset.c:830-916 | flags and trees change together: the entry is in the tree its new flags name, all three trees valid and sorted, and no other entry has moved |
| `FilesetHeap.FileSet.UnbusyFile` | filebench/fileset.c:812-968 | run on the AVL trees, it keeps the fileset valid: the open count grows by the increment, the entry is no longer busy, nor waited for if it was busy, and then the waiters are woken and the idle count grows by one; existence is set as asked and FSE_FREE cleared, or both left alone; the index sets follow as Unbusy says |
| `FilesetHeap.FileSet.GrabFile` | filebench/flowop_library.c:1900-1915 | the caller waits exactly if the entry was busy, and then the entry is marked so that its release wakes the caller; otherwise the entry was idle and is now the only one no longer so, and it is counted out unless a close found an open count other than one; it stays in its tree |
| `FilesetProtocol.PickEffect` | filebench/fileset.c:781-798 | a pick makes exactly one idle entry busy and counts it out, or changes no entry and no tree |
| `FilesetProtocol.HomedStep` | filebench/fileset.c:812-916 | every step keeps every entry in exactly the tree its flags name |
| `FilesetProtocol.BusyStep` | filebench/fileset.c:627-968 | a step changes the holder of at most one entry, and the busy flag of exactly that one |
| `FilesetProtocol.OwnedStep` | filebench/fileset.c:781-798 | every step keeps: a busy entry has exactly one holder |
| `FilesetProtocol.NoLostWakeupStep` | filebench/flowop_library.c:1745-1757 | every step keeps: who sleeps for an entry sleeps on one that is busy and marked as waited for |
| `FilesetProtocol.CountedStep` | filebench/fileset.c:921-960 | every step keeps: the idle count is the number of idle files plus the uncounted closes |
| `FilesetProtocol.InvStep` | filebench/fileset.c:627-968 | every step of every thread keeps all four |
| `FilesetProtocol.Safety` | filebench/flowop_library.c:1900-1915 | in every run from a populated fileset: one tree per file, one holder per busy file, no lost wakeup, idle count never below the number of idle files and equal to it exactly if no close found an open count other than one |
| `FilesetProtocol.OpenCounts` | filebench/fileset.c:918-919 | in every run, the open count of an entry has grown by exactly the sum of the increments with which it was unbusied |
| `FilesetProtocol.DriftHappens` | filebench/flowop_library.c:1908-1913 | a run in which a file opened twice and closed once is busy and still counted as idle |
| `FilesetKinds.Projects` | filebench/fileset.c:639-689 | steps on files and on leaf directories do not interfere: each kind sees a run of its own steps |
| `FilesetKinds.Safety` | filebench/fileset.c:627-968 | in every run of both kinds: one tree per file and per leaf directory, one holder if busy, no lost wakeup, and the idle count of leaf directories exact |
| `Prealloc.PickDecides` | filebench/fileset.c:1066-1076 | picking a free entry finds nothing only if all have been picked, and otherwise one that has not |
| `Prealloc.CountStep` | filebench/fileset.c:430-446 | the thread count is the number of threads, at most 32, until the first reported failure and negative ever after |
| `Prealloc.StepTouches` | filebench/fileset.c:1066-1155 | every step changes at most one entry of one fileset, which is new to the list of decisions if it was picked and on it otherwise |
| `Prealloc.InvStep` | filebench/fileset.c:1066-1155 | every step keeps the count, one decision per entry of every fileset, and sole ownership of the entry at work |
| `Prealloc.Safety` | filebench/fileset.c:1749-1824 | in every run over any list of filesets, threads of one still at work during the next: at most 32 threads, all of them on files, failure makes the count negative for good, no entry decided twice and none of a raw device, OK only if all threads finished, nothing failed and every file and leaf directory of every fileset that is not raw was decided; an error only if something failed |
| `Prealloc.FlagsTell` | filebench/fileset.c:1073-1077 | in every run, an entry decided and not busy is no longer free, and has FSE_EXISTS exactly if the main thread or an allocation thread made it |
| `Prealloc.SortedOut` | filebench/fileset.c:1066-1155 | after OK, in every fileset that is not raw, no entry is free, those that exist are those that were made, and those that do not are those that were skipped |
| `Prealloc.LeftoverBreaks` | filebench/fileset.c:1756-1760 | if there were leftover threads, for any number of them, a run could return OK with a thread at work: the reset of the count relies on there being none |
| `Populate.FileSet.constructor` | filebench/fileset.c:1576-1600 | a fileset starts with no directories, files or bytes |
| `Populate.FileSet.PopulateFile` | filebench/fileset.c:1331-1383 | adds one file with the next index, its parent, serial number and size; or fails because ipc_malloc or path memory does, adding none, at worst with an entry counted idle that has no name |
| `Populate.FileSet.PopulateLeafdir` | filebench/fileset.c:1395-1428 | the same for a leaf directory |
| `Populate.FileSet.PopulateSubdir` | filebench/fileset.c:1449-1562 | the mutual recursion ends and, below the root, adds at least one of each kind still missing, all of it under the new directory; if it ends before all files are made, the directory has as many items as its width, rounded up, and the same for leaf directories |
| `Populate.FileSet.FileLoop` | filebench/fileset.c:1524-1540 | the root's loop ends with all files made; any other adds at least one if some are missing |
| `Populate.FileSet.LeafLoop` | filebench/fileset.c:1542-1559 | the same for leaf directories |
| `Populate.FileSet.Populate` | filebench/fileset.c:1449-1562 | for all choices of bounded depth and width: exactly the files and leaf directories asked for, indices 0..n-1, idle counts equal to them, bytes the sum of sizes, every parent older than its child; files and leaf directories lie in directories at or below the depth drawn for them and subdirectories in the others, and no directory but the root exceeds its width; all items have different places if one kind is absent, and some file and leaf directory share one otherwise; it fails only if memory runs out |
| `PopulatePaths.NameInjective` | filebench/fileset.c:1354-1358 | different numbers have different eight-digit names |
| `PopulatePaths.PathInjective` | filebench/fileset.c:140-160 | a path string determines the serial numbers along it |
| `PopulatePaths.ParentsAgree` | filebench/fileset.c:1449-1562 | the serial numbers from the root down determine the item |
| `PopulatePaths.PathsDistinct` | filebench/fileset.c:140-160 | if no two items share a place, all files and leaf directories have different paths |
| `PopulatePaths.PopulateAndResolve` | filebench/fileset.c:1519-1560 | after populating, the paths of all files and leaf directories, and if they all fit also their resolved paths, are different if and only if one kind is absent; with both kinds some resolved paths are the same however long they are |
| `PopulatePaths.DeepFilesCollide` | filebench/fileset.c:149-155 | two files of a directory whose own path fills the buffer are resolved to the same path, with or without leaf directories |
| `PopulatePaths.PathLength` | filebench/fileset.c:1354-1358 | a path has nine characters for every level, with serial numbers of up to eight digits, so that it fits exactly if nine times its levels is below MAXPATHLEN |
| `PopulatePaths.ResolvePath` | filebench/fileset.c:140-160 | climbing the parent links from any item ends at the root with the path read from the root down, cut off exactly if it has MAXPATHLEN characters or more |
| `Metering.PaidExact` | filebench/flowop_library.c:1042-1054 | taking the events waited for keeps the bucket law and brings the bucket to 0 for operations, within 0..MB for bytes |
| `Metering.SampledExact` | filebench/flowop_library.c:1022-1040 | sampling keeps the bucket law, and asks for exactly the events that will pay the debt |
| `Metering.InvStep` | filebench/flowop_library.c:757-785 | every step of the producer, any limiter or a reset, which may fall between the test, the load and the store of another's update, keeps the account of events and every bucket law; the queue length is an unsigned 64-bit number that may wrap round |
| `Metering.Budgets` | filebench/flowop_library.c:925-968 | after any run, told by the calls made and the counter values sampled: an eventlimit that has returned took one event per call; an operation limiter one per operation from its first nonzero sample to its latest; a bandwidth limiter's bucket is MB per event less the bytes between these samples, and in 0..MB |
| `Metering.TakesWhole` | filebench/flowop_library.c:772-778 | a limiter whose test finds at least the events it needs takes exactly those, and otherwise does nothing |
| `Metering.TickPosts` | filebench/eventgen.c:113-127 | a tick posts the whole number of events due, rate times elapsed nanoseconds divided by 10^9 rounded down, if and only if it finds fewer than five times the rate |
| `Metering.PostedIsDue` | filebench/eventgen.c:113-127 | over any run, the events posted are those due from the ticks that found room, less a part of one for each tick |
| `Metering.AverageRate` | filebench/eventgen.c:70-74 | at one rate and while no tick finds the queue full, the events posted differ from rate times elapsed time by less than one per tick |
| `Metering.ConservedSinceReset` | filebench/eventgen.c:195-199 | in every run, events posted since a reset, which takes no lock, are those in play plus those taken by limiters, if and only if the reset came neither between the load and the store of an update that found events nor between a limiter's test and a store that has happened since |
| `Metering.AtReset` | filebench/flowop_library.c:772-775 | a reset after a limiter's test and before its load leaves it to store less than nothing; only what has been loaded survives a reset |
| `Metering.WrapsOnce` | filebench/flowop_library.c:772-775 | without a further reset the queue length wraps round exactly once in the first case, if the limiter gets to its store, and otherwise not at all |
| `Metering.ResetUndone` | filebench/flowop_library.c:774 | a run in which a reset falls between the load and the store of a limiter |
| `Metering.QueueWraps` | filebench/flowop_library.c:773-774 | a run in which a reset falls between the test and the load of a limiter, after which the queue length is 2^64 - 1 |
| `Metering.Flooded` | filebench/eventgen.c:125-127 | from a queue length above INT_MAX on, the producer posts nothing, for any number of ticks, until the limiters have taken all above it |
| `Metering.QueueBound` | filebench/eventgen.c:115-131 | the queue stays below five times the rate plus one tick's count throughout a run if and only if no reset in it falls between a limiter's test and its load, with the store still to come |
| `FlowopLists.Links` | filebench/flowop.c:80-103 | a list that spells a nest of flowops links each node to the next, holds its attributes and points at its inner list |
| `FlowopLists.LatestOnce` | filebench/flowop.c:801-808 | in a copy that shares no node, the nodes prepended to the global list are all different |
| `FlowopClone.Allocate` | filebench/flowop.c:770-808 | a copy in a slot of the shared bitmap, at the head of the global list; NULL exactly if ipc_malloc finds no slot, and then nothing changes |
| `FlowopClone.DefineCommon` | filebench/flowop.c:761-834 | the same, with the copy also at the end of the local list |
| `FlowopClone.InitFlow` | filebench/flowop.c:1117-1129 | a composite gets a fresh copy of its inner list in place of the shared one |
| `FlowopClone.CreateRuntime` | filebench/flowop.c:272-311 | from any finite nest: a same-order same-shape copy made of new nodes only, none used twice; masters unchanged; the global list gets exactly the copied nodes; success exactly if the top level is complete |
| `FlowopClone.CopiedExactly` | filebench/flowop.c:272-311 | the copy is complete exactly if ipc_malloc will grant as many slots as there are flowops; the top level is complete exactly if it will grant one for its last flowop |
| `FlowopClone.SuccessWithoutInner` | filebench/flowop.c:300-306 | a list that ends in a composite is reported as copied although the composite's inner flowops are missing |
| `FlowopExec.Run.Repeat` | filebench/flowop.c:480-568 | the loop over fo_iters makes the calls of the flowop's expansion that many times, cut where one of them ends the run |
| `FlowopExec.Run.Composite` | filebench/flowop.c:1052-1111 | one pass makes the calls of the flattened inner list, cut after the first that ends it, and returns that outcome, or DONE on an abort |
| `FlowopExec.Run.Work` | filebench/flowop.c:455-578 | the thread's calls are the repeated flattened expansion cut after the first outcome that stops it, which is the result; shm_f_abort becomes 2 for DONE, 3, unchanged or 1 for NORSC by run mode, 1 for any other failure, and is unchanged for OK; whenever an outcome ended the run, it is the first that is not OK if and only if no composite passed over an unknown code; otherwise an abort from outside was found |
| `FlowopExec.CutAtFirstFailure` | filebench/flowop.c:513-566 | if calls inside composites return known codes, the cut is exactly after the first outcome that is not OK |
| `FlowopExec.CutUnique` | filebench/flowop.c:455-578 | what is called and returned is determined by the outcomes |
| `FlowopExec.EndsAtFirstFailure` | filebench/flowop.c:1082-1102 | a run that an outcome ended was ended by the first outcome that was not OK if and only if no earlier call from inside a composite returned an unknown code |
| `FlowopExec.PassedOver` | filebench/flowop.c:1082-1102 | a composite whose first inner call returns an unknown code and whose second returns ERROR makes both calls |
| `FlowopExec.InLine` | filebench/flowop.c:56-64 | writing a composite's inner list out iters times in its place leaves the flowops called unchanged, in any context |
| `FlowopExec.PrimitiveCalls` | filebench/flowop.c:482-490 | a primitive flowop expands to as many equal calls as its iters say, to none if that is negative |
| `FlowopStart.Start` | filebench/flowop.c:414-430 | with slots for all its flowops a thread runs exactly what its master list prescribes; without slots for the top level it calls nothing |
| `IpcSlots.ScannedUnique` | filebench/ipc.c:485-500 | the outcome of a scan is determined: success and failure exclude each other, and the slot is unique |
| `IpcSlots.Slots.constructor` | filebench/ipc.h:184-191 | all slots start free |
| `IpcSlots.Slots.Malloc` | filebench/ipc.c:476-503 | from any start slot the scan ends at the cyclically first free slot after it, which alone is marked, or fails exactly if every slot other than the start is taken; starting from the last slot handed out, it uses up exactly one of the grants left and fails exactly if none is |
| `IpcSlots.GrantsLeft` | filebench/ipc.c:485-500 | a grant is left exactly if some slot other than the start slot is free |
| `IpcSlots.GrantUsed` | filebench/ipc.c:502-503 | a grant lowers the number left by exactly one, although the start slot moves |
| `IpcSlots.Slots.Free` | filebench/ipc.c:566-628 | exactly the slot of the address is cleared |
| `IpcSlots.FreesWhatWasAllocated` | filebench/ipc.c:620-626 | the slot computed from the address of slot i is i |
| `IpcSlots.FailsWithFreeSlot` | filebench/ipc.c:466-475 | the scan can fail with its start slot free, in a pool of any size |
| `IpcSlots.FailsOnlyWhenFull` | filebench/ipc.c:466-500 | failure means a full pool if and only if the start slot is taken or another slot is free |
| `IpcProtocol.LogGrows` | filebench/ipc.c:502-503 | recording a grant or a free changes who holds exactly that slot |
| `IpcProtocol.InvStep` | filebench/ipc.c:476-503 | every step of every thread keeps bitmap = live set, although start indices are read before the lock |
| `IpcProtocol.Safety` | filebench/ipc.c:476-503 | in every run no live slot is handed out again, and the bitmap is the live set |
| `IpcProtocol.Outcome` | filebench/ipc.c:485-500 | an allocation about to be made has exactly one outcome: the first slot in cyclic order that is not live, or failure exactly if all others than the start are live |
| `IpcProtocol.AllocationOutcome` | filebench/ipc.c:476-503 | in every run, whatever happened since the start index was read, the one outcome is as in Outcome |
| `IpcProtocol.StartsFromLast` | filebench/ipc.c:481 | in every run, an allocation starts from the slot of its type that was handed out last |
| `RandomScale.FailsExactly` | filebench/fb_random.c:47-57 | an error exactly if the unit is larger than the range |
| `RandomScale.Fits` | filebench/fb_random.c:74-85 | for every raw number, no division by zero, the value plus one unit is within the range, and the value is a multiple of the unit or the last possible one |
| `RandomScale.ShareOf` | filebench/fb_random.c:74-85 | the raw numbers that give a multiple below the last form an interval of the same length for each |
| `RandomScale.Reached` | filebench/fb_random.c:74-85 | every multiple at which a unit still fits is given by some raw number |
| `RandomScale.ReachedUnrounded` | filebench/fb_random.c:74-85 | without rounding every value up to the maximum is given by some raw number |
| `RandomScale.Monotone` | filebench/fb_random.c:74-85 | a larger raw number never gives a smaller value |
| `RandomScale.TransferFits` | filebench/flowop_library.c:425-493 | random I/O is refused exactly if it has no size, exceeds the thread's memory or the working set, or needs a private buffer that malloc denies; else it lies within the working set and within the memory or a private buffer large enough |
| `RandomScale.FileBlockDrawn` | filebench/flowop_library.c:550-563 | I/O that is not refused goes to every block of the working set, for some raw number |
| `RandomScale.MemoryBlockDrawn` | filebench/flowop_library.c:461-471 | and comes from every block of the thread's memory, if there is one |
| `RandomScale.ReachIs` | filebench/fb_random.c:74-85 | how far the largest raw number reaches, in closed form: the whole range if scaling overshoots into another unit, else the largest multiple of the unit in it; always the latter for ranges below 2^32 |
| `RandomScale.WithinFile` | filebench/flowop_library.c:425-430 | random I/O stays within the file for every raw number exactly if that reach does; so if no working set size is given or it does not exceed the file, only then where the I/O size divides it, and for working sets below 4 GB exactly if their largest multiple of the I/O size does not exceed the file |
| `RandomScale.FairIndex` | filebench/fileset.c:696-712 | the index drawn from a set that is not empty is one of the set's, and every entry but the last has the same share of raw numbers |

## Left out

- `fileset_pickreset`: it advances from an entry it has just moved to another tree; the pre-allocation model starts from a freshly populated fileset, where it does nothing.
- Comparison of tree nodes is on the entry index, as in `fileset_entry_compare`; other comparators of the generic tree are not modelled.
- The bit-packed `avl_pcb` word and pointer offsets: the tree uses separate fields and object references.
- AvlRemove.Remove: the placeholder that stands in for a node with two children is a new object, not one on the stack; that no link to it survives is part of the contract, since it is not in the tree afterwards.
- Interior directories, which are picked from a tree of their own and never move between trees, are not modelled.
- FilesetHeap.FileSet.PickFile: waiting for an idle entry is a result here and a step in FilesetProtocol; leaf directories use the same class, with a single rotor for those that exist.
- Liveness: condition-variable waits are modelled for what is true while and after a thread waits, not for when it wakes; the signals on the idle files and on the event queue are single.
- A failing random draw inside `fileset_pick` returns with the lock held; it needs a fileset without entries, which returns earlier.
- Populate.FileSet.Populate: path memory is a number of names it can still hold; the trees that the new entries go to are in FilesetHeap.FileSet.InsertFile.
- Prealloc.Safety: filesets that have been populated by an earlier call, for which fileset_pickreset does something, are not modelled; what makes populating or creating a fileset fail is an arbitrary choice.
- Metering.InvStep: counters that go backwards, as after clearing the statistics, are excluded, and so are rates of which five times, or ticks whose events, exceed an int; buckets and sampled counters do not wrap.
- FlowopClone.InitFlow: initialisation of built-in flowops, resolution of the fileset name and constant attribute values are not modelled.
- FlowopExec.Run.Work: waiting while the run is paused or not yet started, timing and statistics are not modelled; iters is read as a constant.
- IpcSlots.Slots.Free: objects of type FILEBENCH_AVD are excluded, since their stride is that of a pointer type; clearing of the object's memory is not modelled.
- Integers are unbounded except in the random scaling, where the raw number and the range are bounded as in the code.
- Depths, widths, sizes, raw random numbers, elapsed time and outcomes of primitive flowops are arbitrary parameters; the distributions in `gamma_dist.c` and `fb_random.c` and the variables in `vars.c` behind them are not modelled.
- Creating processes and threads, signals, system calls, sockets, the parser, statistics reports and logging.
