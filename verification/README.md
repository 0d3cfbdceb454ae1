# The kernel's data structures and protocols, in Dafny

A model of the cores of the kernel: how free pages are kept and given out, how the heap is divided, which thread runs
next, how messages and list elements move between contexts that interleave, how the device tree is read, and which
kernel object or container each page of memory belongs to. Code that works in place is modelled by classes and loops
over the same fields; what those loops compute is stated by functions on trees, sequences, sets and ledgers, and the
promises are proved about these.

`unwrap`, `assert!`, arithmetic overflow and reads outside an image are outcomes: a method returns `ok == false`, or a
function returns `None`, where the kernel would stop.

## How the parts fit together

**Page tree** (`Trees`, `TreeInsert`, `TreeDelete`, `TreeRuns`, `TreeLowest`, `PageTables`, `PageTree`, `PageTraverse`). The node of
page `n` lies in page `n`. `PageTables` says how a functional tree lies in a table of such nodes and what single stores
do to it, with a zipper for the path to the root. The methods of `PageTree` follow the source store by store and leave
the ghost tree equal to `InsertTree`, `DeleteTree` or `TakeRun` of the old one. Any number of trees share one `Memory`,
and each writes to its own pages only. What is proved about the functions: search order, contents, red-black colours and
black height, the height bound after `init`, and the outcome of whole runs. Deletion is modelled with its flaw: a missing
child counts as not black, so cutting out a black leaf loses the equal black height, and a later deletion can look at a
nephew that is not there. `TreeDelete.DeleteRedBlack` says exactly when the loss happens, `TreeRuns.TakeCanFail` gives a
sequence of nine calls that ends in the failure, and `TreeDelete.DeleteIff` says for every search tree exactly when a
deletion completes, by the siblings on the path above the node cut out. `TreeDelete.RefillBalances` says what the repair
loop is for, and `TreeLowest` that the flaw never shows while pages are taken from the low end of a tree, as at boot.

**Heap** (`ChunkList`, `Arena`). Free chunks keep their headers inside the memory that they describe. The invariant is a
partition: free chunks and live blocks cover the arena's bytes and do not overlap, and no write changes a word of a live
block. `FirstFit` says where a search along the list ends; an address computation that leaves the machine's range stops
the kernel.

**Scheduler** (`Schedule`, `ScheduleTermination`, `Scheduler`). A walk over containers in which every visit turns the
hand of the container visited. Termination is proved with a potential built from products of slice counts, the condition
for it is exact, and the number of visits has a closed bound. Which thread a walk gives is told by the slices. Calls in a row are the walks from the blocks that the round
robin picks.

**Channel and lists** (`LfChannel`, `LfChannelCalls`, `CasList`, `CasListCalls`, `CasListAlone`). State machines over
atomic steps with an invariant kept by every step, hence by every interleaving; no push is lost, the list is lock-free, and a removal takes out the node that was asked for when
it began. From every reachable state a call that runs alone goes through, with the effect that it has on a sequence. The
list without interference is also a class that refines a sequence.

**Device tree** (`FdtPrint`, `DeviceTree`, `DeviceTreePaths`). A printer written from section 5.4 of the Devicetree
Specification, and the two cursors proved against it: on every printed tree, with NOPs anywhere, they give back what was
printed. `PropsAtPath` puts the parts together, from the header of an image to the properties of the node at a path.

**Containers and pages** (`Kernel`, `KernelSteps`, `ContainerSearch`). A ledger says which page is free in which
container and which is part of which object. Each step is a function on the kernel's records; the class performs the steps on page trees in
shared memory and stops exactly where the function does. `KernelSteps` says when that is, and what each step takes and
makes, by page trees and maps alone. Boot completes exactly on a region of at least 22 pages, and from then on every page
of the region is free in one container or part of one object, over every run of steps. The search visits each reachable
container once.

**Bitmap and older page allocators** (`Bitmap`, `PageAllocators`, `PageLockstep`). A packed bitmap that refines a
sequence of bits, the two allocators over a bitmap and over an ordered map, and a method that runs them in step with the
page tree.

**Checksum** (`Checksum`). The folded sum against the one's-complement sum of section 1 of RFC 1071.

`Bits` holds the word operations, `Runs` what all page allocators promise, `Options` the optional value.

## Model

| member | source | states |
|---|---|---|
| Bits.IsPow2Iff | src/mm/mod.rs:19 | the assertion `align & (align - 1) == 0` accepts exactly the powers of two |
| Bits.AlignDownExact | src/mm/mod.rs:18-21 | masking gives the address minus its remainder |
| Bits.AlignUpLeast | src/mm/mod.rs:23-25 | the result is the least multiple of the alignment that is not below the address |
| Bits.Align4 | src/device_tree.rs:240 | `(x + 3) & !3` is the next multiple of four |
| TreeInsert.InsertAdds | src/mm/page_tree.rs:77-105 | insertion of a new page keeps the search order and adds exactly that page |
| TreeInsert.InsertColored | src/mm/page_tree.rs:107-166 | the root is black and no red node has a red parent, whatever the black heights |
| TreeInsert.InsertRedBlack | src/mm/page_tree.rs:107-166 | a full red-black tree stays one, equal black height included |
| TreeInsert.InsertAllAdds | src/mm/page_tree.rs:68-74 | `init` adds exactly the pages of its range |
| TreeInsert.BuildFull | src/mm/page_tree.rs:68-166 | a tree built by `init` over m pages is red-black with 2^ceil(h/2) <= m+1 for its longest path h |
| Trees.HeightBound | src/mm/page_tree.rs:107-166 | the height bound of every red-black tree |
| TreeDelete.DeleteRemoves | src/mm/page_tree.rs:190-232 | a deletion that completes keeps the search order and removes exactly the page |
| TreeDelete.RefillBalances | src/mm/page_tree.rs:234-325 | where one black node is missing above the start of the repair loop, the loop completes and the whole tree is balanced |
| TreeDelete.DeleteColored | src/mm/page_tree.rs:234-325 | a deletion that completes keeps the colour rules, on any coloured tree |
| TreeDelete.DeleteIff | src/mm/page_tree.rs:234-321 | on any search tree, exactly when a deletion completes: no repair starts, or every sibling on its way up has the children that the code looks at |
| TreeDelete.DeleteRedBlack | src/mm/page_tree.rs:190-235 | on a full red-black tree the repair loop is never entered and deletion never fails, and the result is one exactly unless a black leaf other than the root was cut out |
| TreeRuns.TakeRunRemoves | src/mm/page_tree.rs:181-184 | deleting a run page by page removes exactly the run and keeps order and colours |
| TreeInsert.InsertAllColored | src/mm/page_tree.rs:72-73 | inserting a run of pages keeps the colour rules |
| TreeRuns.LeastRunCorrect | src/mm/page_tree.rs:172-179 | the run to take is the least one, and there is none exactly if no run exists |
| TreeRuns.ExecuteKeeps | src/mm/page_tree.rs:77-187 | every step that completes keeps search order and colours; an insertion never fails |
| TreeRuns.RunRefinesSet | src/mm/page_tree.rs:77-187 | over every run of insertions and requests that completes, the tree holds the pages that a plain set would |
| TreeRuns.TakeRunIff | src/mm/page_tree.rs:181-184 | exactly when a run can be taken out page by page |
| TreeRuns.GrantedIff | src/mm/page_tree.rs:172-187 | exactly when a request that must be served is |
| TreeRuns.FailsIff | src/mm/page_tree.rs:172-187 | a step fails exactly if it asks for a run that is there and cannot be taken |
| TreeLowest.LowestTaken | src/mm/page_tree.rs:190-325 | the lowest page can always be deleted from a red-black tree, or from one that lacks a black leaf at the far left; what is left is one or the other |
| TreeLowest.LowestRunTaken | src/mm/page_tree.rs:172-188 | so any run at the low end of such a tree can be taken, one page after the other |
| TreeLowest.GrantedFromRun | src/mm/page_tree.rs:172-188 | from such a tree over one run of pages a request is served exactly if the run is not empty and has as many pages, and from its start |
| TreeRuns.TakeCanFail | src/mm/page_tree.rs:248-249 | a reachable tree on which a request for an existing run stops the kernel; `DeleteIff` is the condition |
| PageTables.RotateFocus | src/mm/page_tree.rs:353-395 | the stores of a rotation make the memory hold the rotated tree |
| PageTables.TransplantFocus | src/mm/page_tree.rs:397-414 | the stores of a transplant put a subtree in the place of another |
| PageTables.ReplaceFocus | src/mm/page_tree.rs:220-227 | the stores that put the successor into the deleted node's place |
| PageTrees.PageTree.LeftRotate | src/mm/page_tree.rs:353-373 | the exact table and root after the rotation |
| PageTrees.PageTree.RightRotate | src/mm/page_tree.rs:375-395 | the exact table and root after the rotation |
| PageTrees.PageTree.Transplant | src/mm/page_tree.rs:397-414 | the exact table and root after the transplant |
| PageTrees.PageTree.InsertFixup | src/mm/page_tree.rs:107-166 | the loop ends and leaves the repaired tree in memory, writing to the tree's pages only |
| PageTrees.PageTree.Insert | src/mm/page_tree.rs:77-105 | memory holds the tree with the page added, links consistent, other pages untouched |
| PageTrees.PageTree.Init | src/mm/page_tree.rs:72-73 | adds the pages of a range of page numbers, lowest first |
| PageTrees.PageTree.InitRegion | src/mm/page_tree.rs:68-74 | the start is rounded up to a page and the size down; the pages end inside the region exactly if the start is aligned or the size has as many bytes to spare |
| PageTrees.PageOutside | src/mm/page_tree.rs:68-70 | a region of 4096 bytes from address 1 gets page 1, which ends past it |
| PageTrees.PageTree.MinLink | src/mm/page_tree.rs:416-422 | the leftmost node below a link |
| PageTrees.PageTree.NextLink | src/mm/page_tree.rs:432-442 | the least page above a page of the tree, or nothing when it is the last |
| PageTrees.PageTree.IsConsecutive | src/mm/page_tree.rs:444-455 | true exactly if the whole run is in the tree |
| PageTrees.PageTree.DeleteFixup | src/mm/page_tree.rs:234-325 | the loop ends, fails exactly where the functional repair meets a missing nephew, and else leaves the repaired tree |
| PageTrees.PageTree.Cut | src/mm/page_tree.rs:190-228 | takes the node out, its successor into its place when it has two children |
| PageTrees.PageTree.Delete | src/mm/page_tree.rs:190-232 | memory holds the tree without the page; completes exactly if no nephew that the repair looks at is missing |
| PageTrees.PageTree.FindRun | src/mm/page_tree.rs:172-179 | the lowest run for any colours, nothing exactly if there is none |
| PageTrees.PageTree.GetMultiple | src/mm/page_tree.rs:172-187 | the lowest run leaves the tree, or the tree and memory stay as they are; completes exactly if each page can be deleted when its turn comes |
| PageTraverse.Traverse | src/mm/page_tree.rs:329-351 | ends; succeeds exactly on at most 1024 nodes, with the pages once each in ascending order |
| ChunkLists.AlignLayoutCovers | src/mm/chunk_list.rs:166-173 | the aligned layout holds a header, is 8-aligned and covers the request; when it is out of range |
| ChunkLists.AlignLayoutLeast | src/mm/chunk_list.rs:166-173 | it is the least such layout: the alignment is the request's or 8, and no smaller multiple of it holds the request and a header |
| ChunkLists.InRangeIff | src/mm/chunk_list.rs:22-43 | the additions for a request at a chunk stay in range exactly if the chunk's end, the address rounded up and the block's end stay below the top |
| ChunkLists.FirstPlaceLeast | src/mm/chunk_list.rs:22-31 | no lower place in the chunk could hold the block with room for a header before it |
| ChunkLists.CanAllocateIff | src/mm/chunk_list.rs:22-43 | the chunk serves the request exactly if its least place leaves nothing or room for a header behind |
| ChunkLists.RoundedInside | src/mm/chunk_list.rs:57-68 | the rounded chunk stays inside the region exactly if the start is aligned or the size has the bytes to spare |
| Arenas.CutPartition | src/mm/chunk_list.rs:103-146 | cutting a block out of a chunk keeps the partition of the arena |
| Arenas.FreePartition | src/mm/chunk_list.rs:76-79 | a freed block becomes a chunk of the partition |
| Arenas.AppendPartition | src/mm/chunk_list.rs:81-88 | new memory joins the partition |
| Arenas.ServedAll | src/mm/chunk_list.rs:103-146 | the header writes of one allocation relink the list, keep the partition and change no live word |
| Arenas.FirstFitIs | src/mm/chunk_list.rs:94-101 | the search stops at the first chunk with room, reaches the end exactly if none has, and stops the kernel exactly if an addition overflows on the way |
| Arenas.FindFit | src/mm/chunk_list.rs:90-101 | the walk along the headers ends where that search does, with the predecessor |
| Arenas.ChunkList.PopFirstFit | src/mm/chunk_list.rs:90-148 | the block is cut at the first place of the chunk where first fit stops, is aligned and new; None exactly if no chunk has room; no live word changes |
| Arenas.ClientWrites | src/mm/chunk_list.rs:15-19 | whatever a client writes into its own block keeps the allocator's state and all other blocks |
| Arenas.ChunkList.InitChunk | src/mm/chunk_list.rs:57-68 | writes exactly the two header words at the rounded start |
| Arenas.ChunkList.Push | src/mm/chunk_list.rs:76-79 | the block goes to the front of the free list |
| Arenas.ChunkList.Append | src/mm/chunk_list.rs:81-88 | the region goes to the end of the free list |
| Arenas.Arena.Allocate | src/mm/yaarena.rs:27-30 | a block that is large and aligned enough and no larger than that takes, by first fit, or none and no chunk has room; stops exactly on a layout out of range or an overflow in the search |
| Arenas.Arena.Deallocate | src/mm/yaarena.rs:32-37 | the freed size is the allocated one: the block leaves the live set and heads the free list |
| Arenas.FreedServesAgain | src/mm/yaarena.rs:27-37 | from the free list with the freed block at its head, the same request can only get the same block and leave the state that the first one left |
| Arenas.Arena.AllocateFreeAllocate | src/mm/yaarena.rs:27-37 | a client allocates, frees and asks again: the second block is the first, and the state is the one after the first allocation |
| Schedule.PotentialFalls | src/schedule.rs:14-48 | every visit that redirects lowers the potential and stays in the region |
| Schedule.WalkBounded | src/schedule.rs:14-48 | the number of visits is bounded by the potential |
| Schedule.WalkFollows | src/schedule.rs:33-46 | over the slices alone: each visit but the last used a redirect to the next container, and the thread is the one of the last slice, the scheduler of its container, or none where it leads to a container without a turn |
| ScheduleTermination.WalkShort | src/schedule.rs:14-48 | with n table entries, m reachable containers and at most k slices each, a walk makes at most (n k + 1) (k + 1)^m visits |
| ScheduleTermination.AllEnd | src/schedule.rs:14-48 | the walk ends from every hand position if each reachable container can reach one that does not redirect |
| ScheduleTermination.EndsIff | src/schedule.rs:14-48 | and only if: otherwise some hand positions make it run on |
| Schedulers.UsesFair | src/schedule.rs:26-27 | a hand that turns m times uses each of k slices m/k times, up to one more |
| Schedulers.RunIsFair | src/schedule.rs:14-48 | over any run of walks each container's hand is (start + visits) mod its slice count and its slices are used equally up to one |
| Schedulers.RoundRobin | src/schedule.rs:61-65 | q rounds over n resource blocks pick each exactly q times |
| Schedulers.Scheduler.PushSlice | src/kobject/container.rs:24 | a slice list that grows keeps all hands in range |
| Schedulers.Scheduler.FindNextThread | src/schedule.rs:14-48 | the recursion gives the thread, hands and visits of the whole walk, and the thread is the one that the slices visited stand for |
| Schedulers.Scheduler.ScheduleByResourceBlocks | src/schedule.rs:50-69 | the thread, hands and visits are those of the walk from the block at the hand, which turns by one; the thread is the one that the slices visited stand for |
| Schedulers.Scheduler.SchedulePicks | src/schedule.rs:50-69 | m calls in a row pick the blocks in turn, and threads, visits and hands are those of the walks from them, one after the other |
| Schedulers.Scheduler.ScheduleRounds | src/schedule.rs:50-69 | the same over full rounds, which pick each block equally often and bring the hand back |
| LfChannel.InvStep | src/lfchannel/channel.rs:56-118 | every atomic step of the sender and the receivers keeps the invariant |
| LfChannel.ExactlyOnceInOrder | src/lfchannel/channel.rs:95-118 | the reversed batches of a receiver are exactly the first last_seen messages; the sender's compare-exchange never fails |
| LfChannel.PublishedCountDown | src/lfchannel/channel.rs:56-61 | the published versions read k, k-1, ..., 1 from the front |
| LfChannel.SentInOrder | src/lfchannel/channel.rs:56-61 | the published messages are those that sends began with, in order, but for the one in flight |
| LfChannel.ReturnsFresh | src/lfchannel/channel.rs:101-116 | a receive returns at least what was published when it began, and a batch only if there is something new |
| LfChannel.CrashIff | src/lfchannel/list.rs:68-72 | a receive crashes exactly on a channel to which nothing was sent yet |
| LfChannel.NodesAreThere | src/lfchannel/list.rs:45-97 | no step of a call in progress reads a node that is not there |
| LfChannelCalls.SendAlone | src/lfchannel/channel.rs:56-61 | from every reachable state a send that runs alone goes through and publishes its message behind the others |
| LfChannelCalls.ReceiveAlone | src/lfchannel/channel.rs:95-118 | from every reachable state with messages, a receive on a live channel that runs alone goes through: it returns what the receiver has not seen as one batch, newest first, or nothing if there is nothing new |
| LfChannelCalls.DestroyedReceive | src/lfchannel/channel.rs:97-99 | on a destroyed channel a receive returns nothing and changes nothing |
| CasList.InvStep | src/collections/list.rs:45-127 | every atomic step of the pushers and the remover keeps the invariant, with addresses used again |
| CasList.NothingLostOrDoubled | src/collections/list.rs:45-127 | the chain holds exactly the elements pushed and not removed |
| CasList.RemovalOutcome | src/collections/list.rs:83-97 | a removal that loses its exchange changes nothing; one that wins takes out the n-th node, or the first that satisfies the predicate, of the chain with which its walk began |
| CasList.RemovalMisses | src/collections/list.rs:72-81 | a removal that finds nothing began with a chain that is too short or has no such element |
| CasList.LostPushOvertaken | src/collections/list.rs:49-62 | lock freedom: a push that loses its exchange was overtaken, since it read the head, by a push or a removal that got through |
| CasList.NodesAreThere | src/collections/list.rs:45-127 | no step reads a freed node |
| CasListCalls.NoPushLost | src/collections/list.rs:45-62 | over every run each element got in as often as its pushing began, but for the pushes still on their way |
| CasListCalls.PushedInFront | src/collections/list.rs:57-61 | a push ends exactly when its exchange wins, and its node then is the first |
| CasListCalls.PushAlone | src/collections/list.rs:45-62 | from every reachable state a push that runs alone goes through and puts its element in front |
| CasListCalls.RemoveAlone | src/collections/list.rs:64-127 | from every reachable state a removal that runs alone goes through: it takes out and frees the n-th or first wanted element, or changes nothing if there is none |
| CasListAlone.List.Push | src/collections/list.rs:45-62 | run alone, puts the element in front |
| CasListAlone.List.RemoveNth | src/collections/list.rs:68-98 | run alone, removes and returns the n-th element; nothing for 0 or beyond the end |
| CasListAlone.List.Pop | src/collections/list.rs:64-66 | run alone, removes and returns the first element |
| CasListAlone.List.Remove | src/collections/list.rs:100-127 | run alone, removes and returns the first element that satisfies the predicate |
| CasListAlone.List.Iterate | src/collections/list.rs:129-141 | run alone, gives the elements in order |
| DeviceTrees.ReadString | src/device_tree.rs:109-112 | finds the bytes before the first zero byte, if there is one |
| DeviceTrees.ByToken | src/device_tree.rs:223-273 | what each token tells about the place in a printed tree, and where reading goes on |
| DeviceTrees.LeadingPropsAreAll | src/device_tree.rs:97-102 | stopping at the first child misses no property of a tree laid out as the standard demands |
| DeviceTrees.NodeIterator.Next | src/device_tree.rs:220-278 | the next direct child with its name, depth and body, skipping everything deeper; None exactly if none is left |
| DeviceTrees.PropIterator.Next | src/device_tree.rs:93-135 | the next property with its name and value; None exactly if none is left |
| DeviceTreePaths.Children | src/device_tree.rs:160-168 | on every printed node, exactly its children, in order |
| DeviceTreePaths.Props | src/device_tree.rs:147-153 | on every printed node, exactly its properties, in order |
| DeviceTreePaths.SplitJoin | src/device_tree.rs:202 | the pieces of a path hold no slash and join to the path |
| DeviceTreePaths.JoinSplit | src/device_tree.rs:202 | and no other pieces do |
| DeviceTreePaths.NamesIff | src/device_tree.rs:201-205 | the components of a path are the slash-free names that it joins, with or without one slash in front, and no others |
| DeviceTreePaths.ChildByName | src/device_tree.rs:183-186 | the first child of that name, or none |
| DeviceTreePaths.ChildByPathHelper | src/device_tree.rs:188-199 | the node where following the names ends, at the depth of the names followed |
| DeviceTreePaths.ChildByPath | src/device_tree.rs:201-207 | the same for any names that the path joins, with or without a slash in front |
| DeviceTreePaths.FollowLeads | src/device_tree.rs:192-198 | that node is reached by a prefix of the path |
| DeviceTreePaths.LongestPrefix | src/device_tree.rs:192-198 | with distinct sibling names no longer prefix leads anywhere, and the longest leads to this node alone |
| DeviceTreePaths.LongestIff | src/device_tree.rs:192-198 | no path is followed less far than some chain of children leads exactly if the node covers itself: at every step the first child of a name covers the others |
| DeviceTreePaths.FirstMatchOnly | src/device_tree.rs:193-196 | with equal sibling names a longer prefix can be missed; `LongestIff` is the condition |
| DeviceTreePaths.Root | src/device_tree.rs:52-69 | the first node of a described image |
| DeviceTreePaths.ImageDescribed | src/device_tree.rs:9-20 | every printed image, header included, is one that the walker is promised to read |
| DeviceTreePaths.PropsAtPath | src/device_tree.rs:52-207 | parsing undoes printing: from the header of a printed image a path leads to the node printed there, and its properties have the values and names printed |
| ContainerSearch.Search | src/container.rs:51-96 | ends on every graph; the containers visited are returned, each reachable one once; a result is a reachable match and there is none exactly if none exists; stops exactly on a reachable container without a label |
| Kernels.OneHolder | src/container.rs:4-47 | each page is free in exactly one container or part of exactly one kernel object |
| Kernels.ObtainedConsistent | src/container.rs:14 | making an object out of the lowest run of free pages keeps the ledger, and the object is new |
| Kernels.ObtainedIff | src/container.rs:14 | the request is served exactly if a run exists and each page can be deleted when its turn comes |
| Kernels.MovedConsistent | src/container.rs:42-46 | moving pages keeps the ledger |
| Kernels.MoveKeepsUnion | src/container.rs:28-47 | moving pages keeps the union of the two free sets, also within one container |
| KernelSteps.MoveIff | src/container.rs:28-47 | a move goes on exactly if both containers exist and the lowest run can be taken; the run leaves the one free set and enters the other, and all else stays |
| KernelSteps.CreateIff | src/container.rs:4-25 | a creation goes on exactly if the label check passes, the parent has a label and two runs of two pages can be taken; exactly these runs, slots, label and empty container are new |
| KernelSteps.SpawnIff | src/thread.rs:22-51 | a spawn goes on exactly if the label check passes, the container has a label and runs of two and sixteen pages can be taken; exactly these runs, slots, label and parents are new |
| Kernels.BootedSound | src/main.rs:282-320 | the records after boot account for every page of the region |
| Kernels.BootedIff | src/main.rs:282-320 | boot completes exactly on a region of at least 22 pages; a label, the root container, a label and the main thread then lie side by side at its start |
| Kernels.BootedConserved | src/main.rs:282-320 | from boot on such a region, over every run of steps, exactly its pages are free in one container or part of one object |
| Kernels.Kernel.Boot | src/main.rs:282-320 | completes exactly if there are at least 22 pages, and leaves the exact records: page tree, objects, slots, labels and parents |
| Kernels.Kernel.Create | src/container.rs:4-25 | two objects of two pages leave the parent's free set; slots, label and an empty page tree for the new container; stops exactly if the label check or a request fails |
| Kernels.Kernel.SpawnRaw | src/thread.rs:22-51 | a label of two pages and a thread of sixteen leave the container's free set; slots, label and parents; stops exactly if the label check or a request fails |
| Kernels.Kernel.MovePages | src/container.rs:28-47 | the lowest run moves from one page tree to another in shared memory, or within one; stops exactly where the request fails |
| Kernels.AfterSound | src/container.rs:4-47 | every step keeps the books and the pages accounted for |
| Kernels.PagesConserved | src/container.rs:4-47 | over every run of steps each page given at boot is free in one container or part of one object, and no other page comes in |
| Kernels.Kernel.Execute | src/container.rs:4-47 | the records after a step, and exactly when it stops the kernel |
| Kernels.Kernel.RunSteps | src/container.rs:4-47 | the records after a run of steps, and exactly when one of them stops the kernel |
| Kernels.Filled | src/kobject/container.rs:49-67 | taking a slot overwrites no listed object |
| Kernels.FilledAt | src/kobject/container.rs:49-67 | the first invalid slot is taken, and a new one only if all are valid |
| Bitmaps.OneBit | src/collections/bitmap.rs:102-112 | changing a bit of a word changes that bit of the row and no other |
| Bitmaps.Bitmap.Get | src/collections/bitmap.rs:68-70 | the bit of the row |
| Bitmaps.Bitmap.Mark | src/collections/bitmap.rs:102-104 | sets one bit, all others stay, also those past the end |
| Bitmaps.Bitmap.Reset | src/collections/bitmap.rs:106-108 | clears one bit, all others stay |
| Bitmaps.Bitmap.Flip | src/collections/bitmap.rs:110-112 | flips one bit, all others stay |
| Bitmaps.Bitmap.SetMultiple | src/collections/bitmap.rs:53-57 | sets exactly the run; stops exactly on a run past the end |
| Bitmaps.Bitmap.All | src/collections/bitmap.rs:91-100 | whether the run is all of one value; stops exactly on a run past the end |
| Bitmaps.Bitmap.Find | src/collections/bitmap.rs:80-83 | the least matching run at or after the start; stops exactly on a count of 0 or above length plus one |
| Bitmaps.Bitmap.FindAndFlip | src/collections/bitmap.rs:59-66 | flips exactly the least matching run |
| PageAllocators.AlignedIff | src/mm/page.rs:22-24 | the mask test accepts exactly the page-aligned addresses |
| PageAllocators.ConvertIndexToAddr | src/mm/page.rs:26-29 | index to address; stops exactly on an unaligned start |
| PageAllocators.ConvertAddrToIndex | src/mm/page.rs:31-36 | address to index; stops exactly where an assertion fails |
| PageAllocators.PageMap.GetMultiple | src/mm/page.rs:54-59 | the address of the lowest run of free pages, which is then taken; PageNotFound exactly if there is none; on an unaligned start the run is taken before the kernel stops |
| PageAllocators.PageMap.PutMultiple | src/mm/page.rs:62-70 | frees exactly the run if all of it is taken, else PageExists |
| PageAllocators.LowestRun | src/mm/page.rs:87-91 | on page-aligned keys the first key with a free run is the lowest run of pages |
| PageAllocators.MarkedPages | src/mm/page.rs:93-98 | setting entries adds or removes exactly that run of pages |
| PageAllocators.PageSet.GetMultiple | src/mm/page.rs:86-101 | the least key with a run of free entries, which are then taken; PageNotFound exactly if there is none |
| PageAllocators.PageSet.PutMultiple | src/mm/page.rs:103-113 | adds or frees exactly the run unless one of its entries is free |
| PageLockstep.ServedAllUnique | src/mm/page.rs:44-129 | the lowest-run policy leaves no choice over a whole run |
| PageLockstep.RunIff | src/mm/page_tree.rs:172-187 | exactly when the tree completes a run of operations |
| PageLockstep.Lockstep | src/mm/page.rs:44-129 | over any common run of legal operations bitmap, map and tree give the same pages and keep the same free set; it stops exactly where a page of a run cannot be deleted from the tree |
| Checksums.Checksum | src/apps/net.rs:6-18 | stops exactly when the 32-bit sum overflows; else the complement of the folded sum |
| Checksums.RawSumNext | src/apps/net.rs:8-13 | each further word counts big-endian, and the last byte of an odd payload as a low byte |
| Checksums.Fold | src/apps/net.rs:14-16 | the loop ends, with the one's-complement representative of the sum |
| Checksums.SafeIff | src/apps/net.rs:7-13 | exactly the lengths up to 131074 bytes never overflow |
| Checksums.MatchesOnesSum | src/apps/net.rs:6-18 | on even lengths the folded sum is the one's-complement sum of section 1 of RFC 1071 |
| Checksums.OrderFree | src/apps/net.rs:8-10 | the order of the 16-bit words makes no difference |
| Checksums.ByteOrderFree | src/apps/net.rs:8-10 | summing words of the other byte order gives the sum in the other byte order |
| Checksums.StoreVerifies | src/apps/net.rs:117-118 | stored in a zeroed field at an even offset, the checksum makes the checksum of the whole zero |
| Checksums.VerifiesIff | src/apps/net.rs:117-118 | exactly which stored words do |

## Left out

- PageTrees.PageTree.Delete: deletion is not shown to complete on every reachable tree, because it does not; `TreeDelete.DeleteIff` is the exact condition.
- PageTrees.PageTree.InsertFixup: the left and right branches of the two fixup loops mirror each other and are written once, with the side as a parameter.
- PageTrees.PageTree.Insert: asks for a page number of at least 1 that is absent and below the size of the address space in pages; the code is unsafe otherwise.
- PageTrees.PageTree.InitRegion: asks that rounding the start up does not overflow. The pages added may end past the region, as in the source; the contract says exactly when.
- Arenas.ChunkList.Push: a region that is not word-aligned is rounded as in the source; `ChunkLists.RoundedInside` says when the result leaves the region, and only regions that stay inside are added.
- Schedulers.Scheduler.FindNextThread: recursion that does not end is excluded by a precondition; `ScheduleTermination.EndsIff` shows which systems that excludes.
- LfChannel.ExactlyOnceInOrder: the 64-bit version counter does not wrap, and memory is sequentially consistent; the relaxed orderings of the source are weaker.
- CasList.NothingLostOrDoubled: one remover at a time and sequentially consistent memory. Several removers at once are not modelled.
- CasListAlone.List.Push: the allocator's choice of address is a parameter.
- DeviceTrees.NodeIterator.Next: asks that the image ends 4 GiB or more below the top of the address space. Positions are counted from an aligned start of the image.
- DeviceTreePaths.Props: nothing is promised about a node whose properties follow a child; the cursor stops at the first child.
- Kernels.Kernel.SpawnRaw: the outcome of the label flow check is a parameter; the closure, stack and arena of the thread are not modelled.
- Kernels.Kernel.Create: the outcome of the label flow check is a parameter.
- ContainerSearch.Search: labels are compared for equality as opaque values; parsing and label logic belong to a library.
- Bitmaps.Bitmap.Find: a count of 0 stops the model, as checked arithmetic does; an unchecked build would wrap instead.
- Checksums.Checksum: overflow of the sum stops the model, as checked arithmetic does. For odd lengths no agreement with RFC 1071 holds, since the last byte is added as a low byte.
- PageLockstep.Lockstep: operations that one allocator would reject, such as freeing free pages, are not part of the common runs.
- src/mm/arena.rs is not part of the build.
- Device drivers, interrupt and exception entry, context switch, mutexes, shell, packet handling and debug output are not modelled.
- The arena of a thread is sized one page past the run that it was given (src/kobject/mod.rs:240-243); ownership is modelled at page numbers, where this is not visible.
