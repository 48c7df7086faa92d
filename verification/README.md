# NovaOS: a verified model of its hard parts

NovaOS is a freestanding x86-64 system. This project models, in Dafny, the parts
of it whose correctness rests on invariants over whole runs, and proves those
invariants. Code that works by changing things in place is modelled as classes
and methods with loops; what the methods do is stated against functions and
relations on values, and the theorems are about those.

**Virtual memory** (`VmTypes`, `PageLookup`, `PageTables`, `PageOps`, `VmSpace`,
`CowMachine`, `CowInvariant`, `CowRefinement`, `CowCalls`). An address space
keeps the same mapping three times: page records, an open-addressing hash index
with tombstones, and a four-level page table. Every operation keeps the three in
step and leaves the identity map of the first gigabyte alone. Over any number of
spaces, the copy-on-write machine built from the same operations refines an
eager machine that has no frames, no reference counts and no copy-on-write
bits: at every moment of every run every space reads the same bytes in both.
What each call leaves behind is a step, or a run of steps, of that machine.
All table sizes are symbolic.

**Futexes and pthreads** (`Futex`, `Pthread`, `PthreadMutex`, `PthreadOnce`,
`PthreadCondition`). Each atomic instruction and each system call of
`pthread_compat.c` is one step of a transition system with any number of
threads, mutexes, once-controls and condition variables, including spurious
wake-ups. Mutual exclusion, absence of lost wake-ups, exactly-once
initialization and broadcast hold over every interleaving.

**NovaFS** (`Bytes`, `FsNames`, `FsEntries`, `FsStore`, `FsEngine`, `FsTree`,
`NovaFs`, `FsSession`). The disk is an array of 512-byte sectors whose reads and writes may
fail. A ghost counter of such faults lets contracts say exactly when a call
succeeds. The volume refines a table of nodes (name, kind, owner, mode,
contents); successful calls change exactly one node, and after any sequence of
them from a fresh volume a mount shows the same tree. A volume is in order when
its extents are disjoint and on the disk; it is usable, which is all the calls
ask, when they are disjoint and end below 2^32.

**Linking** (`TlsLayout`, `TlsThreads`, `TlsRelocations`, `GnuHash`). Static TLS
blocks of all modules, the words relocations store, the first thread and any
number of copies, and the addresses code computes from those words; GNU hash
lookup against the linear symbol scan.

**Kernel heap** (`HeapBlocks`, `KernelHeap`). First fit with splitting and
two-sided coalescing over linked headers, against a row of blocks that tiles the
heap.

**Processes** (`ProcessRefs`, `Scheduler`). Reference counts of memfd objects and
address spaces over every sequence of load, clone, exec, exit, wait, close, dup
and memfd_create from an empty kernel; the round-robin scheduler.

**Smaller cores** (`Line`, `LineRange`, `CompilerParser`, `CompilerCode`,
`CompilerMachine`, `Wire`, `Browser`, `Framing`). The line-drawing loop and exactly
which lines its int arithmetic draws, the NovaCC compiler down to the bytes it
emits run under a small x86-64 semantics, and the page protocol between the bridge and the guest's browser.

`dafny verify dfyconfig.toml` checks the whole project.

## Where the code differs from what one might expect

- `insert_page_lookup` (kernel/vm.c:159-175) needs a slot that was never used;
  tombstones alone do not make room. `PageIndex.InsertLookup` states the exact
  condition.
- `vm_protect` and `vm_mark_shared` round the end of the range up in 64-bit
  arithmetic; a range ending in the last page of the address space rounds to zero
  and passes with no page checked and none changed. `LastPage` gives the input,
  `CoveredMeans` the exact condition, `Protect` and `MarkShared` the consequence.
- `vm_mark_shared` does not check that a page is alone on its frame.
  `ShareExactly` shows that it must be; `linux_mmap` (kernel/process.c:3164-3231)
  calls it on pages it has just mapped.
- A clone that runs out of memory half way leaves the parent's pages marked
  copy-on-write (kernel/vm.c:397-422). `VmSpace.CloneCow` states this, and
  `CloneFailedRefines` shows that no space can tell.
- `write_entry_data` records the new extent before it knows that the disk has room
  (kernel/filesystem.c:274-278). After such a failure the entry points past the end
  of the disk: `FullDisk` gives a call, `RetargetCondition` the exact condition, and
  `WriteFile` and `MakeSymlink` say exactly when the volume is still in order. It
  stays usable exactly when the extent recorded ends below 2^32. `fs_write_at`
  checks first and does not have this problem.
- `fs_write_at` computes its sector count in 64 bits (kernel/filesystem.c:471-472).
  An end in the last 511 values below 2^64 wraps it to one sector; the call then
  fails, but only after the gap loop has zeroed the sectors behind the file.
  `Spill` gives a call that destroys another file, `WriteFileAt` the exact condition
  under which other files survive.
- `fs_init` formats the volume when the superblock cannot be read at all
  (kernel/filesystem.c:395-424). `Mount` names this path, says exactly when it is
  taken, and `Session` what it costs.
- A GNU hash table that hashes symbol 0 makes an empty bucket look like a chain:
  `EmptyBucketFails`, and `CountedTableSuffices` for all other tables.
- `align_size` (kernel/heap.c:17-19) and the sector count of a write
  (kernel/filesystem.c:270, 471) wrap near 2^64; `align_tls_size`
  (kernel/process.c:1445-1450) checks first. `AlignSizeHolds`, `AlignSize` and
  `RequiredCovers` say exactly when they do.
- `pthread_cond_wait` compares a 32-bit sequence number, so a waiter sleeps through
  exactly the multiples of 2^32 signals: `SleepsIff`. The broadcast theorem assumes
  fewer signals than that between sample and sleep.
- `gfx_line` computes in int. `OverflowExactly` says for every two points whether
  some value overflows: it depends on the two sides and their greatest common
  divisor. `TooWide` is a call that overflows in the doubled term, `NearlyDiagonal`
  one that does not there but does when the error term is stepped.
- The comment above `page_reply` promises that a half-delivered page never replaces
  the one on screen. This holds: `ShownUntilComplete`.

## Model

| member | source | states |
|---|---|---|
| PageLookup.ProbeReachesEverySlot | kernel/vm.c:132-139 | linear probing from any home slot visits every slot of the table |
| PageLookup.PageIndex.constructor | kernel/vm.c:74-85 | a new index is consistent, holds no record and has no slot taken |
| PageLookup.PageIndex.FindPage | kernel/vm.c:128-142 | a record is found if and only if a used record has that page address, and then it is that record, whatever tombstones lie between |
| PageLookup.PageIndex.ReserveRecord | kernel/vm.c:148-157 | a slot is found if and only if one is unused |
| PageLookup.PageIndex.InsertLookup | kernel/vm.c:159-175 | succeeds if and only if a never-used slot exists; the new record and all others stay reachable by probing; tombstones are reused |
| PageLookup.PageIndex.RemoveLookup | kernel/vm.c:177-191 | exactly the slot of the record becomes a tombstone and every other record stays reachable |
| PageLookup.PageIndex.AddRecord | kernel/vm.c:200-219 | adds one record to the abstract map and nothing else, or nothing at all |
| PageLookup.PageIndex.DropRecord | kernel/vm.c:275-287 | removes exactly that record from the abstract map |
| PageLookup.PageIndex.ChangeRecord | kernel/vm.c:323-339 | changes one record in place, address kept, index still consistent |
| PageLookup.PageIndex.ClearLookup | kernel/vm.c:221-238 | after all records are cleared the emptied index is consistent |
| PageLookup.PageIndex.CrowdedLoad | kernel/vm.c:148-175 | an index that can take no record has as many records or slots in use as one of its tables holds |
| PageTables.RootIsEmpty | kernel/vm.c:61-72 | a new root, copied from the one boot/stage2.asm:158-187 builds, is a tree, identity-maps the first gigabyte and gives user mode nothing |
| PageTables.TableAtPlace | kernel/vm.c:111-126 | the table a walk visits is the one its address bits name: two addresses share a table only if they share the bits |
| PageTables.LeafDecides | kernel/vm.c:99-126 | combining the present, write, user and no-execute bits of every level, as the processor does, gives exactly what the leaf entry says, at every address |
| PageTables.SetLeaf | kernel/vm.c:200-219 | writing a leaf entry changes the leaf of exactly one page and keeps tree and identity map |
| PageTables.SameWalk | kernel/vm.c:111-126 | all addresses of one page translate alike |
| PageTables.LinkKeepsLeaves | kernel/vm.c:99-109 | linking a zeroed table changes no leaf and no translation of any address |
| PageTables.ClearHuge | kernel/vm.c:111-126 | dropping an inherited 2 MiB supervisor leaf changes no leaf and no user translation |
| PageTables.PageDirectory.constructor | kernel/vm.c:61-85 | the six root pages form a valid directory that maps no user page |
| PageTables.PageDirectory.NextTable | kernel/vm.c:87-109 | follows or creates the next table, all leaves unchanged; fails only at a huge entry, at the table limit or when the heap refuses |
| PageTables.PageDirectory.DropIdentityLeaf | kernel/vm.c:117-124 | replaces an inherited huge leaf above the first gigabyte by nothing, user translations unchanged |
| PageTables.PageDirectory.FindEntry | kernel/vm.c:111-126 | the read-only walk finds exactly the leaf table of a canonical user address |
| PageTables.PageDirectory.WalkDirectory | kernel/vm.c:111-119 | the two upper levels of the walk, created on demand, change no leaf |
| PageTables.PageDirectory.WalkEntry | kernel/vm.c:111-126 | the creating walk yields the leaf table of a canonical user address, changes no leaf, and fails on such an address only at the table limit or when the heap refuses |
| PageTables.PageDirectory.Reset | kernel/vm.c:221-238 | frees exactly the tables allocated later and leaves an empty root |
| AddressSpaces.UserSeesRecords | kernel/vm.c:193-219 | at every address the processor's walk, with the permissions of all levels combined, gives user mode exactly the frame and the W/NX bits of the page record, and nothing where there is no record |
| AddressSpaces.FrameTable.Create | kernel/vm.c:37-49 | a fresh zeroed frame with one reference, or nothing and a refused request |
| AddressSpaces.FrameTable.Retain | kernel/vm.c:51-53 | one more reference to one frame |
| AddressSpaces.FrameTable.Release | kernel/vm.c:55-59 | one reference fewer; the heap page is freed with the last one and only then |
| AddressSpaces.FrameTable.Replace | kernel/vm.c:326-332 | a private copy of the bytes in exchange for one reference |
| AddressSpaces.VmSpace.constructor | kernel/vm.c:74-85 | a new space is valid and empty |
| AddressSpaces.VmSpace.InstallPage | kernel/vm.c:193-219 | records, index and page table gain the page together or not at all; on a user address it fails only for want of a record, a lookup slot, a table or memory |
| AddressSpaces.VmSpace.InstallWithin | kernel/vm.c:200-219 | in a space with room for one more page, only the heap can refuse |
| AddressSpaces.VmSpace.MappedHasTable | kernel/vm.c:275-307 | a mapped page has a leaf table, so later walks to it cannot fail |
| AddressSpaces.VmSpace.RewriteRecord | kernel/vm.c:323-339 | changing a record and its leaf entry together keeps the three representations in step |
| AddressSpaces.VmSpace.AllMapped | kernel/vm.c:289-295 | true if and only if every page of the range is mapped |
| AddressSpaces.VmSpace.ProtectPages | kernel/vm.c:296-306 | exactly the pages of the range get the protection; private writable ones with other users become copy-on-write |
| AddressSpaces.VmSpace.Protect | kernel/vm.c:289-307 | succeeds if and only if the range is not empty, does not overflow, and either has every page it meets mapped or ends in the last page of the 64-bit space; then it changes exactly the pages up to the rounded end, which in the last case is none; else nothing |
| AddressSpaces.VmSpace.SharePages | kernel/vm.c:452-461 | exactly the pages of the range become shared mappings |
| AddressSpaces.VmSpace.MarkShared | kernel/vm.c:445-462 | succeeds under the same exact condition, all pages or none |
| AddressSpaces.VmSpace.MapPage | kernel/vm.c:247-259 | a zeroed private page, or new protection for a mapped one; a failure changes nothing and happens on a user page only when it was unmapped and capacity or memory ran out |
| AddressSpaces.VmSpace.MapSharedFrame | kernel/vm.c:261-273 | aliases the frame with one more reference, refuses a mapped page, gives the reference back on failure |
| AddressSpaces.VmSpace.UnmapPage | kernel/vm.c:275-287 | succeeds if and only if the page is mapped; record, leaf and reference go together |
| AddressSpaces.VmSpace.MakePrivate | kernel/vm.c:323-339 | the page ends up with a frame of its own holding the same bytes; refused only without write permission or memory |
| AddressSpaces.VmSpace.CopyChunk | kernel/vm.c:347-361 | the chunk is written after the page has become private; without a fault it fails if and only if the page is missing or not writable |
| AddressSpaces.VmSpace.CopyToUser | kernel/vm.c:347-361 | succeeds if and only if all chunks were written; a failed copy has written exactly the chunks before the page that stopped it |
| AddressSpaces.VmSpace.CopyFromUser | kernel/vm.c:363-376 | succeeds if and only if every byte is mapped, and returns exactly those bytes |
| AddressSpaces.VmSpace.HandlePageFault | kernel/vm.c:424-438 | a user write to a pending copy-on-write page makes it private, a user access to the unmapped stack maps a zeroed page, everything else is unhandled and changes nothing; neither service is refused except for capacity or memory |
| AddressSpaces.VmSpace.Reset | kernel/vm.c:221-238 | releases exactly the references of the space and leaves it empty and valid |
| AddressSpaces.VmSpace.AliasPage | kernel/vm.c:397-422 | the clone gains one record and one reference to its frame, or everything is as before and a refusal or want of room explains it |
| AddressSpaces.VmSpace.CloneSlot | kernel/vm.c:400-419 | one page aliased, copy-on-write on both sides when private and writable; undone on failure |
| AddressSpaces.VmSpace.CloneNext | kernel/vm.c:399-420 | one turn of the clone loop extends the cloned part by one slot or destroys the clone |
| AddressSpaces.VmSpace.CloneInto | kernel/vm.c:399-421 | all slots cloned, or every reference given back |
| AddressSpaces.VmSpace.CloneCow | kernel/vm.c:397-422 | the clone aliases every frame with exact counts; on failure frames and heap are as before and at most copy-on-write marks remain; with enough capacity only the heap can refuse |
| AddressSpaces.VmSpace.Abandon | kernel/vm.c:240-245 | destroying the half-built clone restores frames and heap exactly |
| PageOps.RetainRelease | kernel/vm.c:221-245 | releasing exactly what a clone retained restores the frame table |
| PageOps.CoveredExactly | kernel/vm.c:289-295 | exactly which ranges pass the test of vm_protect and vm_mark_shared |
| PageOps.CoveredMeans | kernel/vm.c:289-295 | the test agrees with "every page the range meets is mapped" if and only if the end does not round over 2^64, or those pages are mapped anyway |
| PageOps.LastPage | kernel/vm.c:289-295 | the last page of the 64-bit space, unmapped, passes the test |
| PageOps.RoundsOverTouchesNothing | kernel/vm.c:289-307 | a range that rounds over passes, and then no page of it is changed |
| CowMachine.HeldIsLive | kernel/vm.c:51-59 | in order, every page record and every memfd page refers to a live, counted frame: nothing live is freed |
| CowMachine.ReadsAgree | kernel/vm.c:363-376 | in order, every space reads at every address what the eager machine reads |
| CowInvariant.HolderMoves | kernel/vm.c:51-59 | how moving one reference changes the number of holders of every frame |
| CowInvariant.PointKeepsInv | kernel/vm.c:261-287 | moving one holder with the counts following keeps counts exact and copy-on-write bits sound |
| CowInvariant.PrivatizedKeepsInv | kernel/vm.c:323-339 | after make_private a writable private page is the only user of its frame |
| CowInvariant.CloneCounts | kernel/vm.c:397-422 | after a clone every count is the number of records and memfd pages again |
| CowInvariant.CloneKeeps | kernel/vm.c:397-422 | a clone keeps the invariant |
| CowInvariant.DestroyCounts | kernel/vm.c:221-245 | destroying a space gives up exactly its references |
| CowInvariant.StepKeepsInv | kernel/vm.c:247-462 | every map, unmap, protect, share, clone, failed clone, write, fault, destroy and memfd step keeps exact counts, live frames and sound copy-on-write bits |
| CowRefinement.PrivatizedInvisible | kernel/vm.c:323-339 | giving a page its own copy is invisible to every space |
| CowRefinement.StoredCommon | kernel/process.c:2214-2244 | a store through a shared frame changes one shared object and no private page of any space |
| CowRefinement.StoredPrivate | kernel/vm.c:347-361 | a store through a privately held frame changes that page and no other |
| CowRefinement.WriteRefines | kernel/vm.c:347-361 | a user write is the eager write to that page |
| CowRefinement.CloneRefines | kernel/vm.c:397-422 | a clone is an eager copy of the private pages with shared ones aliased |
| CowRefinement.CloneFailedRefines | kernel/vm.c:397-422 | a failed clone is invisible |
| CowRefinement.ProtectRefines | kernel/vm.c:289-307 | a protection change touches protections only |
| CowRefinement.MarkSharedRefines | kernel/process.c:3164-3231 | turning private pages with the only reference to their frame into shared ones makes each a shared object with the same bytes; ShareExactly shows that the machine stays in order in no other case |
| CowRefinement.UnmapRefines | kernel/vm.c:275-287 | unmapping removes one page, and a shared object with its last reference |
| CowRefinement.DestroyRefines | kernel/vm.c:240-245 | destroying a space removes it and the objects only it referred to |
| CowRefinement.StepRefines | kernel/vm.c:247-462 | every step is the same step of the eager machine |
| CowRefinement.RunInv | kernel/vm.c:247-462 | the invariant holds at every moment of every run |
| CowRefinement.RunRefines | kernel/vm.c:289-438 | over every run the states form a run of the eager machine over the same events, and every space reads the same byte at every address in both |
| CowRefinement.HardwareStore | kernel/vm.c:193-198 | a store the page table lets through needs no fault: it is already a write of the machine |
| CowCalls.MapIsStep | kernel/vm.c:247-259 | every outcome vm_map_page may report is a step of the machine |
| CowCalls.UnmapIsStep | kernel/vm.c:275-287 | what vm_unmap_page leaves is a step of the machine |
| CowCalls.ProtectIsStep | kernel/vm.c:289-307 | what vm_protect leaves, over any range, is a step |
| CowCalls.MapSharedIsStep | kernel/vm.c:261-273 | what vm_map_shared_frame of a memfd page leaves is a step |
| CowCalls.CloneIsStep | kernel/vm.c:397-422 | what a successful vm_space_clone_cow leaves is a step |
| CowCalls.CloneFailedIsStep | kernel/vm.c:397-422 | what a failed one leaves is a step |
| CowCalls.FaultIsStep | kernel/vm.c:424-438 | the copy-on-write outcome of a page fault is a step |
| CowCalls.SpaceCounted | kernel/vm.c:51-59 | over every reachable machine, a space uses no frame more often than it is counted |
| CowCalls.ResetIsSteps | kernel/vm.c:221-238 | vm_space_reset_user is two steps: the space is destroyed and made anew |
| CowCalls.ShareOneIsStep | kernel/vm.c:452-459 | each page of vm_mark_shared is a step, or no change |
| CowCalls.ShareKeepsInv | kernel/vm.c:445-462 | sharing a range of pages that are alone on their frames keeps the machine in order |
| CowCalls.ShareExactly | kernel/vm.c:445-462 | sharing a private page keeps the machine in order if and only if its frame has one reference; otherwise some private page of a space would see the writes of another |
| CowCalls.ChunkIsStep | kernel/vm.c:347-361 | every chunk of a user copy is a write of the machine |
| CowCalls.CopyReads | kernel/vm.c:347-361 | after a copy into private memory, complete or cut short, the bytes copied so far are read back there, and every other byte of every space is what it was |
| CowCalls.CloneReads | kernel/vm.c:397-422 | right after a clone the child reads what the parent reads, and no other space notices |
| Futex.WokenAt | kernel/process.c:3316-3328 | a slot is woken if and only if it sleeps on the word and fewer than the given number of lower slots do |
| Futex.WakeAll | kernel/process.c:3316-3328 | a count no smaller than the table wakes every sleeper on the word and nobody else |
| Futex.WakeOne | kernel/process.c:3316-3328 | a wake of one releases the lowest sleeping slot only |
| Futex.ProcessTable.Wait | kernel/process.c:3298-3315 | the caller sleeps if and only if the word is readable and holds the value, else the exact error and no change |
| Futex.ProcessTable.Wake | kernel/process.c:3316-3328 | the sleepers woken and their number, with the count read as a signed 32-bit value |
| Futex.ProcessTable.SystemCall | kernel/process.c:3294-3330 | the low seven bits choose wait, wake or an error |
| PthreadMutex.StepKeepsMutexInv | user/pthread_compat.c:34-56 | every step of every thread keeps the mutex invariant, spurious wake-ups included |
| PthreadMutex.WakePassesOn | user/pthread_compat.c:40-56 | the thread an unlock wakes takes over the duty towards the remaining sleepers |
| PthreadMutex.RunMutexInv | user/pthread_compat.c:34-56 | the invariant holds at every moment of every run |
| PthreadMutex.MutualExclusion | user/pthread_compat.c:34-56 | at no moment of any run do two threads hold one mutex |
| PthreadMutex.NoLostWakeup | user/pthread_compat.c:34-56 | a thread asleep on a mutex always has somebody to wake it: an owner with 2 in the word, or another thread that owes a wake or is still in the slow loop |
| PthreadMutex.NobodyLeftBehind | user/pthread_compat.c:40-56 | once nobody holds a mutex and all awake threads are idle, nobody sleeps on it |
| PthreadOnce.StepKeepsOnceInv | user/pthread_compat.c:92-106 | every step keeps the once invariant |
| PthreadOnce.AtMostOnce | user/pthread_compat.c:92-106 | in every run the initializer is started at most once |
| PthreadOnce.ReturnsAfterInitializer | user/pthread_compat.c:92-106 | every return from pthread_once happens after the one run of the initializer has finished |
| PthreadOnce.NobodySleepsOn | user/pthread_compat.c:92-106 | once the word is 2 and the wakes are done nobody stays blocked |
| PthreadCondition.SleepsIff | user/pthread_compat.c:65-71 | a waiter falls asleep if and only if the signals since its sample are a multiple of 2^32 |
| PthreadCondition.StepKeepsConditionInv | user/pthread_compat.c:65-90 | every step keeps the condition invariant while waiters are prompt |
| PthreadCondition.BroadcastReleases | user/pthread_compat.c:65-90 | no waiter that sampled the sequence before a completed broadcast is asleep, given fewer than 2^32 signals between its sample and its sleep |
| PthreadCondition.SignalReleasesOne | user/pthread_compat.c:78-83 | a signal releases the lowest sleeping slot, if there is one, and nobody else |
| Bytes.LittleRoundTrip | kernel/filesystem.c:28-40 | little-endian fields read back what was written when it fits, else its remainder |
| Bytes.PaddedRoundTrip | kernel/filesystem.c:33-33 | a NUL-padded name reads back |
| FsNames.ValidName | kernel/filesystem.c:88-105 | the loop accepts exactly the names of one to 95 printable bytes in which no segment is empty and no segment is ".." |
| FsNames.FindLastSlash | kernel/filesystem.c:124-137 | finds the last slash |
| FsNames.ValidSymlinkTarget | kernel/filesystem.c:107-110 | accepts exactly the valid targets |
| FsNames.Follow | kernel/filesystem.c:238-254 | the name a link leads to: absolute targets from the root, others from the link's directory, too long ones nowhere |
| FsEntries.EntryRoundTrip | kernel/filesystem.c:28-40 | a directory entry survives its 128-byte form |
| FsStore.OtherExtent | kernel/filesystem.c:195-218 | writes confined to some sectors leave a file alone whose extent lies outside them |
| FsStore.NextLbaBound | kernel/filesystem.c:259-267 | every extent that ends within 32 bits ends at or before the next free sector |
| FsStore.DataKeepsMirror | kernel/filesystem.c:269-299 | data writes never touch the directory |
| FsStore.SaveMirrors | kernel/filesystem.c:154-167 | saving one slot mirrors that slot and keeps the other slots mirrored |
| FsStore.MirrorDecodes | kernel/filesystem.c:395-424 | a mirrored slot decodes to the entry |
| FsStore.SpliceInFile | kernel/filesystem.c:457-553 | a write inside one sector, seen from the file that owns it, changes exactly those bytes |
| FsEngine.RequiredCovers | kernel/filesystem.c:270-273 | the sectors counted cover the size if and only if rounding up does not wrap, no sector is wasted, and a wrapped count is one |
| FsEngine.Device.ReadData | kernel/filesystem.c:195-218 | the requested window of the stored bytes; without faults refused if and only if it exceeds an int or runs off the disk |
| FsEngine.Device.ReadChunk | kernel/filesystem.c:195-218 | one round reads the bytes up to the end of their sector; fails exactly on a fault or off the disk |
| FsEngine.Device.Fill | kernel/filesystem.c:281-294 | the extent holds the data, cut to the sectors counted, and nothing outside changed |
| FsEngine.Device.CopyExtent | kernel/filesystem.c:478-500 | a moved extent holds the old sectors followed by zeros |
| FsEngine.Device.Patch | kernel/filesystem.c:504-517 | part of one sector replaced, nothing else; fails without a fault exactly off the disk and then changes nothing |
| FsEngine.Device.ZeroGap | kernel/filesystem.c:502-518 | exactly the bytes on the disk between old size and offset become zero; succeeds without faults if and only if the last of them is on the disk |
| FsEngine.Device.LoadForPatch | kernel/filesystem.c:523-540 | the buffer before a partial chunk is the sector as it is |
| FsEngine.Device.Overwrite | kernel/filesystem.c:520-548 | exactly the bytes at the offset that are on the disk become the data, across any number of sectors; succeeds without faults if and only if the last is on the disk |
| FsTree.CreateKeeps | kernel/filesystem.c:139-152 | a new entry under a free valid name with a directory as parent keeps names valid, unique and parented |
| FsTree.RewriteKeeps | kernel/filesystem.c:443-455 | changing an entry that keeps its name, and stays a directory if it was one, keeps the namespace |
| FsTree.DeleteKeeps | kernel/filesystem.c:555-569 | removing a non-directory, or a directory with nothing below it, keeps the namespace |
| FsTree.ResolveFollows | kernel/filesystem.c:225-257 | what a path resolves to is a non-link reached by following links from it |
| FsTree.FollowsResolve | kernel/filesystem.c:225-257 | every non-link reached by few enough links is what resolution finds |
| NovaFs.NovaFs.FindEntry | kernel/filesystem.c:117-122 | the slot of the name, or -1 |
| NovaFs.NovaFs.ParentDirectoryExists | kernel/filesystem.c:124-137 | true if and only if the parent of the name is a used directory |
| NovaFs.NovaFs.AllocateEntry | kernel/filesystem.c:139-152 | succeeds if and only if the name is valid, free and parented and a slot is free; the first free slot is taken and the namespace kept |
| NovaFs.NovaFs.SaveEntry | kernel/filesystem.c:154-167 | replaces exactly the 128 bytes of the slot in its sector |
| NovaFs.NovaFs.Format | kernel/filesystem.c:169-193 | succeeds without faults if and only if the disk is large enough; an empty saved volume with the superblock in place |
| NovaFs.NovaFs.ReadEntryData | kernel/filesystem.c:220-223 | the window of the node's contents |
| NovaFs.NovaFs.ResolveEntry | kernel/filesystem.c:225-257 | without faults finds exactly what resolution through fewer than eight links gives |
| NovaFs.NovaFs.NextDataLba | kernel/filesystem.c:259-267 | the end of the last extent that ends within 32 bits |
| NovaFs.NovaFs.WriteEntryData | kernel/filesystem.c:269-299 | on success the node holds the data; every other node is as before on every outcome; without faults succeeds if and only if there is room; exactly when the volume stays in order or usable, and exactly what the entry is left as when there is no room |
| NovaFs.NovaFs.RecordExtent | kernel/filesystem.c:274-278 | the extent recorded lies behind all others; exactly when the table stays in order or usable; no other node changes |
| NovaFs.NovaFs.OpenForWrite | kernel/filesystem.c:443-455 | the slot a write works on: the entry, the file a link leads to, or a new one |
| NovaFs.NovaFs.WriteFile | kernel/filesystem.c:443-455 | on success exactly one node changed and holds the data, the volume stays saved; without faults succeeds if and only if mounted, openable, writable and with room; other nodes are kept on every outcome; after a full disk exactly what is left, and exactly when the volume is still in order or usable |
| NovaFs.NovaFs.Grow | kernel/filesystem.c:478-500 | the file moves behind all others with its bytes, or nothing is recorded |
| NovaFs.NovaFs.MakeRoom | kernel/filesystem.c:471-500 | the file keeps its place or moves with its bytes; without faults fails if and only if it must move and the disk has no room; other nodes kept |
| NovaFs.NovaFs.StoreAt | kernel/filesystem.c:502-552 | gap, bytes and entry; exact success condition; when the sector count wraps it fails with the overlay laid as far as the disk reaches |
| NovaFs.NovaFs.PutBytes | kernel/filesystem.c:502-548 | gap zeroed and bytes stored amount to the overlay of old contents and data, as far as the disk reaches; succeeds without faults if and only if all of it is on the disk |
| NovaFs.NovaFs.WriteEntryAt | kernel/filesystem.c:457-553 | for any end below 2^64: on success the node holds its old bytes with the data laid over them, zeros in any gap; exact success condition; the volume is in order even on failure; when the sector count wraps the call fails, and other files survive if and only if the write is harmless |
| NovaFs.NovaFs.Commit | kernel/filesystem.c:550-552 | size and modification recorded and saved, other nodes untouched |
| NovaFs.NovaFs.WriteFileAt | kernel/filesystem.c:457-553 | for any offset and data: on success exactly one node changed, to the overlay; exact success condition without faults; the volume is in order on every outcome; other files are kept whenever the end does not wrap the sector count, and if it does, if and only if what the overlay lays over them is what they hold |
| NovaFs.NovaFs.ReadFileAt | kernel/filesystem.c:430-437 | the window of the contents the path leads to, if readable |
| NovaFs.NovaFs.CheckChildless | kernel/filesystem.c:555-569 | true if and only if nothing is below the directory |
| NovaFs.NovaFs.DeleteFile | kernel/filesystem.c:555-569 | the node is gone and nothing else changed, if and only if allowed; namespace and saved volume kept |
| NovaFs.NovaFs.MakeDirectory | kernel/filesystem.c:571-575 | an empty directory appears, if and only if allowed, and nothing else changes |
| NovaFs.NovaFs.MakeSymlink | kernel/filesystem.c:577-589 | a link appears and following it leads where its text says; exact success condition without faults; exactly when the volume is still in order after a full disk |
| NovaFs.NovaFs.TurnIntoLink | kernel/filesystem.c:584-588 | the file just written becomes a link that leads where its text says |
| NovaFs.NovaFs.ReadDirectory | kernel/filesystem.c:395-424 | every slot read is the decoded slot of the disk |
| NovaFs.NovaFs.Mount | kernel/filesystem.c:395-424 | the exact path taken: refused, formatted because the superblock has no magic, formatted because it could not be read, or found; a found volume shows exactly the mirrored table with all contents, is usable, in order when its extents are on the disk, and can be mounted again; a formatted one is empty; the size of the disk is kept |
| NovaFs.RetargetCondition | kernel/filesystem.c:274-278 | recording a new extent keeps the volume usable if and only if the extent ends below 2^32, and in order if and only if the disk has room |
| NovaFs.RoomAtIsRoom | kernel/filesystem.c:470-482 | on an extent inside the disk a write at an offset needs exactly the sectors counted |
| NovaFs.LaidIsStored | kernel/filesystem.c:502-548 | what was laid on the disk is what the file holds, once everything touched is on the disk |
| NovaFs.SpillKeeps | kernel/filesystem.c:469-518 | a write whose sector count wraps leaves every other file alone if and only if each byte it lays over a file above is the byte that file holds |
| NovaFs.RewriteRecognised | kernel/filesystem.c:395-424 | the superblock fs_init writes back is recognised again |
| FsSession.Perform | kernel/filesystem.c:443-589 | every successful call leaves the volume mounted, in order, saved and recognisable, and changes exactly the node it names |
| FsSession.Session | kernel/filesystem.c:169-424 | persistence over runs: after format and any sequence of successful calls a mount that finds the volume shows the same tree and is in order; without faults every mount does; a mount that could not read the superblock shows an empty volume |
| FsSession.FullDisk | kernel/filesystem.c:269-299 | a concrete write that fails and leaves the entry pointing past the disk, the volume usable and not in order |
| FsSession.Spill | kernel/filesystem.c:457-553 | a concrete write at offset 2^64 - 1 that fails and destroys the file behind |
| FsSession.ExampleVolumes | kernel/filesystem.c:28-40 | volumes in order that hold the files of these examples exist |
| NovaFs.SuperblockRecognised | kernel/filesystem.c:169-193 | a formatted volume is recognised as version 2 when mounted again |
| NovaFs.TableRead | kernel/filesystem.c:395-424 | the directory read back is the table it mirrors |
| NovaFs.LinkHops | kernel/filesystem.c:229-254 | following a link entry leads where its stored text says |
| TlsLayout.AlignSize | kernel/process.c:1445-1450 | succeeds if and only if the alignment is a power of two and rounding does not wrap, and then rounds up |
| TlsLayout.LayoutStaticTls | kernel/process.c:1452-1472 | succeeds if and only if the running total stays within the limit; places every module and numbers modules from one |
| TlsLayout.BlocksDisjoint | kernel/process.c:1452-1472 | blocks of different modules never overlap and have different numbers |
| TlsLayout.BlockInside | kernel/process.c:1452-1472 | in every page-aligned mapping each block lies inside the area and is aligned as asked |
| TlsThreads.AccessModelsAgree | kernel/process.c:1654-1697 | the vector entry `__tls_get_addr` uses and the offset from the thread pointer give one address modulo 2^64 in every ready thread, the variable's place in its block |
| TlsThreads.ImagedBlock | kernel/process.c:1511-1528 | after all images are copied each block holds its image followed by zeros |
| TlsThreads.TlsSpace.CopyImage | kernel/process.c:1514-1527 | the image is copied through the 512-byte buffer whole; fails only when something is unmapped or memory is short |
| TlsThreads.TlsSpace.CopyImages | kernel/process.c:1508-1528 | all images copied in turn; fails only for want of memory |
| TlsThreads.TlsSpace.BuildVector | kernel/process.c:1538-1553 | the vector names each module's block and the number of modules |
| TlsThreads.TlsSpace.WriteHead | kernel/process.c:1529-1557 | control block and vector are in place, nothing else changed |
| TlsThreads.TlsSpace.Populate | kernel/process.c:1508-1560 | the mapped range becomes a ready thread and its bytes a template |
| TlsThreads.TlsSpace.InitializeStaticTls | kernel/process.c:1494-1575 | the first thread is ready with every block initialized, memory elsewhere unchanged; a failure restores memory and happens only without a range or memory |
| TlsThreads.TlsSpace.RenameThread | kernel/process.c:1594-1604 | the three words that name the thread name the new one |
| TlsThreads.TlsSpace.RebaseVector | kernel/process.c:1605-1626 | every vector slot moves from the template's thread to the new one; the check against foreign entries never fires |
| TlsThreads.TlsSpace.FillThread | kernel/process.c:1588-1626 | the copied template becomes a ready thread with the template's bytes below it |
| TlsThreads.TlsSpace.AllocateThread | kernel/process.c:1577-1631 | another ready thread whose blocks hold the template's bytes, all other memory unchanged; a failure restores memory and happens only without a range or memory |
| TlsRelocations.ApplyOne | kernel/process.c:1654-1708 | one TLS relocation stores its word or descriptor and nothing else, or is refused for a stated reason |
| TlsRelocations.ApplyTable | kernel/process.c:1633-1709 | a whole table; fails only when one is refused or memory is short |
| TlsRelocations.RelocatedHolds | kernel/process.c:1633-1709 | after the table every relocation holds, whatever came after it |
| TlsRelocations.StoredWords | kernel/process.c:1654-1697 | what code loads from the four places a variable's relocations filled |
| TlsRelocations.AccessFormsAgree | user/nova_ld.asm:45-67 | in every ready thread the stored thread offset, the stored module and offset through `__tls_get_addr`, and the stored descriptor through `__nova_tlsdesc_static` lead to one address, the variable's place in its block |
| TlsRelocations.StartThreads | kernel/process.c:1577-1631 | any number of threads, one after the other, all ready, earlier ones still so; fails only for want of memory |
| TlsRelocations.Start | kernel/process.c:1841-1846 | relocations, first thread, more threads: at the end every thread is ready and every relocation still holds |
| GnuHash.Hash | kernel/process.c:1169-1173 | the 32-bit GNU hash of the name |
| GnuHash.ChainEnd | kernel/process.c:804-812 | finds where a chain ends, if and only if it ends below the symbol limit |
| GnuHash.CountSymbols | kernel/process.c:774-816 | succeeds if and only if the sizes are in bounds and every chain is readable and ends below the limit; the least count that covers every chain |
| GnuHash.CountedTableSuffices | kernel/process.c:1290-1330 | with a symbol table as long as counted no lookup meets an unreadable chain or runs off the table, if symbol 0 is not hashed or the bucket is not empty |
| GnuHash.WalkMalformed | kernel/process.c:1295-1330 | a walk that does neither reports malformed data only for a malformed symbol |
| GnuHash.EmptyBucketFails | kernel/process.c:1290-1299 | the proviso is needed: a measured table with symbol 0 hashed and an empty bucket whose lookup is malformed |
| GnuHash.FindSymbol | kernel/process.c:1274-1353 | the lookup through bloom filter, bucket and chain, or the scan when there is no table |
| GnuHash.WalkIsScan | kernel/process.c:1295-1330 | from any point of the chain the walk and the scan agree |
| GnuHash.HashedIsScan | kernel/process.c:1274-1353 | for every well-formed table, name and version the hash lookup gives the verdict, symbol and value of the linear scan |
| GnuHash.SmallTable | kernel/process.c:1274-1353 | well-formed tables exist: one with one symbol, found |
| HeapBlocks.AlignSizeHolds | kernel/heap.c:17-19 | the aligned size holds the request if and only if rounding does not wrap |
| HeapBlocks.BlocksApart | kernel/heap.c:21-39 | distinct blocks never overlap, headers included |
| HeapBlocks.AllFreeIsInitial | kernel/heap.c:61-76 | once no block is live the heap is the single block it started as |
| HeapBlocks.TakeKeeps | kernel/heap.c:29-51 | allocation keeps the heap tiled and coalesced and adds exactly one live block, large enough |
| HeapBlocks.MergeKeeps | kernel/heap.c:61-67 | merging keeps the tiling and every live block |
| HeapBlocks.FreeKeeps | kernel/heap.c:69-76 | freeing keeps the heap tiled and coalesced and removes exactly one live block |
| KernelHeap.Heap.Initialize | kernel/heap.c:21-27 | one free block over the whole heap |
| KernelHeap.Heap.SplitBlock | kernel/heap.c:29-39 | the headers describe the split row, links mutually inverse |
| KernelHeap.Heap.MergeNext | kernel/heap.c:61-67 | the headers describe the merged row, links mutually inverse |
| KernelHeap.Heap.TakeBlock | kernel/heap.c:41-51 | the fitting block is split and its front taken |
| KernelHeap.Heap.Allocate | kernel/heap.c:41-51 | first fit: an aligned block large enough becomes live, or nothing changes if and only if the request is empty or nothing fits |
| KernelHeap.Heap.Free | kernel/heap.c:69-76 | exactly that block stops being live and free neighbours on both sides are merged |
| KernelHeap.Heap.CountFreeBytes | kernel/heap.c:78-84 | the sum of the free blocks |
| ProcessRefs.ObjectCounts | kernel/process.c:2074-2097 | an object in use by a descriptor of any process has a positive count |
| ProcessRefs.SpaceCounts | kernel/process.c:711-716 | a space in use by any process has a positive count |
| ProcessRefs.Kernel.constructor | kernel/process.c:1884-1892 | all slots blank, no space, no object: all counts are exact |
| ProcessRefs.Kernel.ReleaseObject | kernel/process.c:2074-2084 | one reference fewer, and the object is freed with the last |
| ProcessRefs.Kernel.ReleaseSpace | kernel/process.c:711-716 | one reference fewer, and the space is destroyed with the last |
| ProcessRefs.Kernel.ResetSlot | kernel/process.c:1884-1892 | the slot gives up everything it held and all counts stay exact |
| ProcessRefs.Kernel.ReserveSlot | kernel/process.c:1894-1906 | with or without a current process: an unused slot, else one of another ended process, if and only if there is one; counts stay exact |
| ProcessRefs.Kernel.CreateProcess | kernel/process.c:1908-1932 | with or without a current process: succeeds if and only if a slot, a space and a program are there; the new space has one user; counts stay exact on every path |
| ProcessRefs.Kernel.Clone | kernel/process.c:3026-3091 | the child has the shared or the cloned space and the same descriptors; exact success condition; counts of objects and spaces stay exact on every path |
| ProcessRefs.Kernel.Exec | kernel/process.c:3093-3125 | the process moves to the new space and gives up the old one, counts exact |
| ProcessRefs.Kernel.Close | kernel/process.c:3590-3596 | the descriptor gives up what it referred to, if and only if it is open, counts exact |
| ProcessRefs.Kernel.FindDescriptor | kernel/process.c:2000-2005 | the lowest free descriptor, or none |
| ProcessRefs.Kernel.Duplicate | kernel/process.c:2635-2650 | source and target refer to the same object, what the target referred to is released first; exact success condition, counts exact |
| ProcessRefs.Kernel.CreateMemfd | kernel/process.c:2152-2172 | a new object with exactly one descriptor, if and only if both are free |
| ProcessRefs.Kernel.Finish | kernel/process.c:3007-3024 | the process ends and keeps what it holds, counts exact |
| ProcessRefs.Kernel.Reap | kernel/process.c:3755-3775 | the slot of an ended process gives up everything, counts exact |
| ProcessRefs.Perform | kernel/process.c:3478-3775 | every call, successful or not, changes the slots as it says and leaves every count exact |
| ProcessRefs.Run | kernel/process.c:1884-1932 | over any sequence of loads, forks, execs, exits, waits, closes, dups and memfd creations from an empty kernel every count is exact at every moment |
| ProcessRefs.LiveIsHeld | kernel/process.c:711-716 | in every such state the space of a process and the objects behind its descriptors exist and are counted |
| ProcessRefs.NothingLeaks | kernel/process.c:1884-1892 | in every such state without processes there is no space and no object |
| Scheduler.Table.WakeTimers | kernel/process.c:3486-3496 | exactly the due sleepers become runnable |
| Scheduler.Table.Schedule | kernel/process.c:3498-3528 | dispatches the first runnable slot in cyclic order after the last one dispatched |
| Scheduler.MovesForward | kernel/process.c:3498-3528 | while a runnable slot waits, every dispatch moves towards it without passing it |
| Scheduler.NoDoubleBypass | kernel/process.c:3486-3528 | between two dispatches of one slot every other slot that stayed runnable is dispatched |
| Scheduler.DispatchedSoon | kernel/process.c:3486-3528 | a slot that stays runnable is dispatched within as many dispatches as there are slots |
| Line.Round | graphics/graphics.c:305-311 | one round advances the longer side and stays within half a pixel |
| Line.Draw | graphics/graphics.c:299-312 | terminates for all endpoints with max(dx, dy) + 1 points, from end to end, each the one point of its step within half a pixel of the ideal line, ties decided; and what is doubled at each point |
| Line.TwiceBound | graphics/graphics.c:304-310 | the doubled error term stays within three times the longer side, hence within int when that does |
| LineRange.BoundIsMet | graphics/graphics.c:304-310 | among the terms a wide line doubles the largest is 2(g * floor(dx / 2g) + dx - dy) for the greatest common divisor g of the sides, and it is reached |
| LineRange.DifferencesFit | graphics/graphics.c:299-303 | the differences and their absolute values fit in int if and only if neither side is longer than INT_MAX |
| LineRange.Met | graphics/graphics.c:304-311 | every near multiple of the divisor is the deviation at some point of the line |
| LineRange.RoundsAreMultiples | graphics/graphics.c:304-311 | the rounds of a line are exactly those of the near multiples of the divisor |
| LineRange.MultiplesExactly | graphics/graphics.c:308-310 | all of them fit if and only if the extreme ones do |
| LineRange.OverflowExactly | graphics/graphics.c:299-312 | for every two different points no int computed overflows if and only if `Drawable` holds of the sides, a test on the sides and their divisor |
| LineRange.NoLine | graphics/graphics.c:299-312 | a line from a point to itself never overflows |
| LineRange.CommonLines | graphics/graphics.c:299-312 | the test for horizontal lines, for lines one pixel high, and for all lines up to a third of INT_MAX |
| LineRange.TooWide | graphics/graphics.c:299-312 | a call between two int points that overflows |
| LineRange.NearlyDiagonal | graphics/graphics.c:308-310 | sides for which every doubled term fits and stepping the error term does not |
| CompilerParser.FindText | kernel/compiler.c:37-44 | the first occurrence |
| CompilerParser.ReturnFits | kernel/compiler.c:46-66 | a parsed return value fits an int with room for the last multiplication |
| CompilerParser.ReadNumber | kernel/compiler.c:56-61 | refuses exactly the numbers whose digits but the last exceed 100000000, and reads the others |
| CompilerParser.ParseReturn | kernel/compiler.c:46-66 | the value the source denotes |
| CompilerParser.ReadLiteral | kernel/compiler.c:80-94 | the unescaped literal, refused when it exceeds the buffer |
| CompilerParser.ParsePrint | kernel/compiler.c:68-102 | the message the source denotes |
| CompilerParser.EscapeRoundTrip | kernel/compiler.c:80-94 | every message written with escapes is read back exactly |
| CompilerCode.EmitU64 | kernel/compiler.c:104-106 | eight little-endian bytes at the offset and nothing else |
| CompilerCode.EmitMov | kernel/compiler.c:108-113 | the ten bytes of a mov at the offset |
| CompilerCode.EmitWrite | kernel/compiler.c:160-170 | the write call with the address left to patch |
| CompilerCode.EmitExit | kernel/compiler.c:171-176 | the exit call behind what was emitted |
| CompilerCode.Generate | kernel/compiler.c:137-195 | the image: headers, code with the patched address, message; every write inside the buffer |
| CompilerCode.Compile | kernel/compiler.c:115-195 | an image if and only if the source is accepted, and then that of the program it denotes |
| CompilerMachine.StatusRoundTrip | kernel/process.c:3555-3566 | the exit status survives the 64-bit argument |
| CompilerMachine.ProgramRuns | kernel/compiler.c:160-184 | from the entry point the emitted bytes print exactly the message, in one write or none when it is empty, then exit with the value |
| CompilerMachine.ImageLoads | kernel/compiler.c:143-195 | the headers lead the loader to the segment and the entry point |
| CompilerMachine.CompiledMeansSource | kernel/compiler.c:115-195 | for every accepted source the loaded image prints the source's message in at most one write and exits with its return value |
| Wire.SqueezeClean | tools/nova/wire.py:27-33 | compacted text has no tab, line break or NUL |
| Wire.SqueezeKeeps | tools/nova/wire.py:27-33 | compacting keeps every visible character in order |
| Wire.PiecesJoin | tools/nova/wire.py:75-93 | splitting is lossless and every piece fits a line |
| Wire.ChunkText | tools/nova/wire.py:75-93 | the loop produces exactly the pieces under their prefixes |
| Browser.Interface.PollServices | ui/ui.c:1707-1843 | one poll handles exactly the complete lines received and keeps the rest, never overflowing the wire buffer |
| Framing.WireBound | ui/ui.c:1707-1725 | wherever the stream is cut, at most one unfinished line is left |
| Framing.AnyReads | ui/ui.c:1707-1843 | however the stream is cut into reads of at most 256 bytes, no byte is dropped and the same lines are handled |
| Framing.PageSendable | tools/nova/web.py:150-164 | the lines of a bounded page fit the guest's buffer |
| Framing.PageStaged | ui/ui.c:1735-1780 | until PAGEEND the whole page is staged and what is shown stays |
| Framing.PageArrives | tools/nova/web.py:150-164 | for every bounded page and every cut of the reply the guest ends up showing exactly that page's status, title, address, text and links, after ASCII replacement |
| Framing.ShownUntilComplete | tools/nova/web.py:150-164 | a page that has not arrived completely never replaces the one on screen |

## Left out

- Devices, boot code, context switching, TLB and CR3 handling: hardware interaction; the page table's content is taken to be what the CPU sees.
- Memory refusal: kernel heap requests made by the VM and TLS code may be refused at any time; the heap allocator itself is modelled separately and not plugged in.
- AddressSpaces.VmSpace.CloneCow: the table limit enters as three tables per mapped page, which is sufficient but not necessary.
- vm_find_free_range: the search for a free range is a parameter of the callers.
- Memfd read, write and growth loops (kernel/process.c:2099-2244): their effect on frames is a step of the machine, the loops over user memory are not modelled.
- Timed futex waits, signals that end a sleeping thread, and thread death inside a pthread operation.
- PthreadCondition.BroadcastReleases: assumes fewer than 2^32 signals between a waiter's sample and its sleep; SleepsIff shows that the code needs it.
- pthread rwlocks, spin locks, attributes, keys, create and join: one-line wrappers or out of the protocol.
- NovaFs.NovaFs.Mount: version-1 volumes are not modelled (the migration of kernel/filesystem.c:315-389).
- FsSession.Session: stops at the first call that fails, and leaves out fs_write buffers of more than 2^64 - 512 bytes, which no caller can have.
- Volumes with an extent that ends at or beyond 2^32: sector numbers would wrap in further calls.
- Disk sectors beyond the 28-bit range of the ATA driver: reading or writing one counts as a fault.
- fs_chmod, fs_chown, fs_readlink, fs_path_info, fs_file_info, fs_file_count: single-field accesses.
- resolve_symbol across objects, symbol versions beyond equality of names, and the non-TLS relocations.
- TlsRelocations.AccessFormsAgree: for the 64-bit forms; the 32-bit words are stored but not read back.
- GnuHash.HashedIsScan: for tables the linker could have written (every defined symbol hashed, in its bucket's chain and in the filter); other tables may hide symbols from the hash lookup.
- ELF loading other than the header fields NovaCC writes.
- CompilerCode.Compile: the diagnostics, and failures to allocate or store the image.
- heap_calloc: heap_alloc followed by clearing.
- KernelHeap.Heap.Free: for pointers heap_alloc returned and pointers outside the heap; the code does not check others.
- ProcessRefs.Kernel.Finish: not the exit code, the word cleared for the parent thread and the wake-up.
- Pipes, sockets, epoll, timerfd and the network stack.
- Accounts, HTTP fetching, the HTML parser and link resolution, downloads, chat and history lines of the wire protocol.
- Framing.PageArrives: for pages without NULs within the bounds link resolution sets, arriving on an empty wire buffer.
- Drawing other than lines; clipping of points outside the screen is not part of the line model.
- The `.deb` installer, `libm`, `libdl`, libc string and sort functions.
