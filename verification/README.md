# Chaotix, modelled and proved in Dafny

Chaotix is a small operating system for 32-bit x86 machines. This project models the parts of it that manage state
under constraints, and proves what those parts are for. Code that changes state in place is a class or a method with
loops, as it is in C, and is proved against a specification; the laws are lemmas about the specification or clauses of
the method. `dafny verify dfyconfig.toml` checks everything.

**Memory.** `Frames` is the page frame allocator: a bitmap of words and an array of reference counts that saturate at
255. `Tables` and `Cloning` say what page directories and page tables mean and account for the references; `Paging` is
paging.c over them. `Holes` is the list of free ranges as a value, `HoleList` and `RangeAllocator` the list whose
nodes lie in the free pages themselves and move by mapping their frames elsewhere; `Ledger` and `HeaderLedger` keep
the account of the frames under those nodes. `Heap` (with `HeapState`) is kmalloc, `GrowableBuf` the buffer behind
files, `KernelMemory` the heap with two such buffers on its allocator, and `Directories` puts the page directories
into heap blocks, so that fork and exit are modelled down to the hole that a directory comes from. `Words` and `Bytes`
are memory contents.

**Processes.** `Processes` is the table of processes as a value with the invariant on it, `Signals` what signals do to
it, `Waking` what a switch does to those that wait, and `Scheduler` the code: queue, blocking, kill, fork, exit and
waitpid, which takes zombies out of the list while another loop walks it. `Mutex` is the recursive lock, one atomic
step at a time for any number of processes.

**Files.** `RingBuf`, `Pipes` and `FileTables` are pipes with their descriptors, over all processes. `Namespace` and
`Vfs` are the tree of inodes with names and references. `Paths` and `PathLists` are canonical paths, as values and as
the code that cuts strings apart in place. `Readdir` is both ends of directory listing.

**Programs.** `ShellSyntax` and `ShellParser` are the parser of the shell, with a grammar to measure it by,
`ShellErrors` says which line gets which error. `ExecStack` is the stack image that execve builds. `Calendar`, `Qsort`
and `CStrings` are library code; `Basics` holds shared arithmetic.

Where an invariant is called `Valid()`, every method of the class requires and ensures it, so it holds over every run
from the constructor on. The invariants that carry main results are `Paging.Paging.Valid` (every reference count is
saturated or is the number of page table entries naming the frame, plus one for a page table; and every page table is
named by one directory entry of the user half, by that slot of all directories in the kernel half, or was leaked by a
failed clone), `RangeAllocator.RangeAllocator.Valid` (the linked headers in memory spell the canonical hole list),
`Heap.Heap.Valid` (blocks aligned, disjoint and mapped, every page of the arena free, live or in transit),
`Scheduler.Scheduler.Valid` (every listed process is current, queued once, blocked or dead; the list is sorted by pid;
no listed process has a dead parent; what was reaped was reaped once), `FileTables.FileTables.Valid` (reference counts
are the slots, reader and writer counts the open ends; what was written to a pipe is what was read and then what its
ring buffer holds), `Vfs.Vfs.Valid` (link counts are entries, reference counts entries and handles; every directory
but the root has one entry).

## Model

| member | source | states |
|---|---|---|
| Frames.PageAllocator.constructor | kernel/memory/page_allocator.c:150-160 | a frame that is not available starts saturated, so no sequence of calls can ever hand it out; bitmap and counts agree from the start |
| Frames.PageAllocator.Alloc | kernel/memory/page_allocator.c:182-199 | the lowest free frame, now with one reference, and one free frame less; it fails exactly when no frame is free |
| Frames.PageAllocator.RefPage | kernel/memory/page_allocator.c:201-211 | one reference more up to saturation; bitmap and counts still agree exactly if the frame was in use |
| Frames.PageAllocator.UnrefPage | kernel/memory/page_allocator.c:213-233 | one reference less unless saturated; the frame is free again exactly with the last one |
| Tables.AccountSet | kernel/memory/paging.c:150-200 | writing an entry and counting its frame keeps the account of all references, for a fresh frame and a shared one alike, saturation included |
| Tables.AccountClear | kernel/memory/paging.c:202-208 | an entry names a frame in use, and clearing it with one unref keeps the account |
| Tables.AccountNewTable | kernel/memory/paging.c:106-125 | a fresh page table enters the account with one reference |
| Tables.AccountDropTable | kernel/memory/paging.c:352-356 | an emptied page table leaves the account with its last reference |
| Tables.SamePte | kernel/memory/paging.c:101-142 | two pages are served by the same entry exactly if they are the same page of one directory, or of the kernel half |
| Tables.KernelHalfShared | kernel/memory/paging.c:210-226 | all directories translate every kernel address alike, at all times |
| Cloning.AccountsDetermine | kernel/memory/paging.c:334-359 | two states that account for the same entries have the same counts exactly if the same counts are saturated: what makes the restore after a destroy exact |
| Cloning.ForkTakesTwo | kernel/memory/paging.c:298-327 | a process with one private page cannot fork with one free frame: the input for which a fork fails and leaks |
| Cloning.RestoredEntries | kernel/memory/paging.c:334-359 | fork followed by destroy leaves exactly the entries there were |
| Paging.Paging.constructor | kernel/memory/paging.c:376-387 | the kernel half has all its page tables from the start, and the account of references holds |
| Paging.Paging.GetOrCreatePageTable | kernel/memory/paging.c:106-125 | the table of the address, made if need be, present, writable and for user mode; translations stay the same, and in the kernel half no frame is ever taken; it fails exactly if the table is missing and no frame is free |
| Paging.Paging.MapPageToFreePage | kernel/memory/paging.c:150-165 | the page gets a frame that was free; every other page of every directory keeps its translation; else all of them do, which is exactly if the free frames do not suffice for the page and a missing table |
| Paging.Paging.CopyPageMapping | kernel/memory/paging.c:182-200 | both pages are on the same frame, counted once more; it fails exactly if a table is missing and no frame is free, so never in the kernel half |
| Paging.Paging.UnmapPage | kernel/memory/paging.c:202-208 | exactly this page goes, and its frame loses one reference |
| Paging.Paging.MapToFreePages | kernel/memory/paging.c:389-400 | n pages on distinct frames that were free, nothing else changed; all of them exactly if there is a free frame for each page and each missing table; else exactly the first ones are mapped, and no frame is free |
| Paging.Paging.CopyMapping | kernel/memory/paging.c:418-432 | the two ranges share their frames page by page, and only those frames are counted differently; it fails exactly if there are fewer free frames than missing tables |
| Paging.Paging.Unmap | kernel/memory/paging.c:434-440 | exactly the range is unmapped; frames that had one reference are free again |
| Paging.Paging.ClonePageTable | kernel/memory/paging.c:256-296 | the new table has the same flags, shared pages on the same frames and private ones on fresh frames with the same bytes; it fails exactly if there are fewer free frames than a table and the private pages need, and then its table is left behind and all frames are gone |
| Paging.Paging.NewDirectory | kernel/memory/paging.c:210-226 | an empty user half, and the kernel half of all directories |
| Paging.Paging.CloneInto | kernel/memory/paging.c:298-327 | fork: the same user pages with the same flags, shared ones on the same frame and all others on a frame of their own with the same bytes; every existing directory translates as before and keeps its entries, and the user page tables are new ones with the flags of the old; it succeeds exactly if there are as many free frames as user page tables and private user entries, which is what it takes; a failure takes all frames, and a success leaks nothing |
| Paging.Paging.CostOfShared | kernel/memory/paging.c:298-327 | pages mapped as shared cost a later fork a frame for each page table that was made for them, and nothing else |
| Paging.Paging.SameForkCost | kernel/memory/paging.c:298-327 | what a fork takes depends only on the user half of the current directory, so allocating the block of the new one does not change it |
| Paging.Paging.ReleaseCurrentDirectory | kernel/memory/paging.c:334-359 | the user half is given back: exactly its page tables and entries go, no count becomes or stops being saturated, and the kernel directory is current |
| Paging.Paging.SwitchPageDirectory | kernel/memory/paging.c:361-372 | what the kernel half shows is the same from the other directory |
| Paging.Paging.CloneAndRelease | kernel/memory/paging.c:298-359 | fork and exit of the child: it works exactly if the frames for the fork are there; then the entries are the old ones, and all counts are the old ones if and only if none reached saturation on the way |
| Paging.Paging.ForkIsolation | kernel/memory/paging.c:256-327 | after a fork, a write to a page on either side shows on the other side if and only if the page is shared; the frame of a private page of the child is behind no other page of any directory |
| Paging.Paging.SoleFrame | kernel/memory/paging.c:106-208 | a frame with one reference is behind one page of an address space |
| Paging.Paging.MappedInUse | kernel/memory/paging.c:182-208 | a mapped page is on a frame in use, so the allocator never hands out a mapped frame |
| Directories.AddressSpaces.CreatePageDirectory | kernel/memory/paging.c:210-226 | a new directory in a heap block of its own, exactly if two pages in a row and the frames for them are free, counting the header frame that an exact fit frees; user pages of every other one stay mapped and keep their bytes |
| Directories.AddressSpaces.CloneCurrentPageDirectory | kernel/memory/paging.c:298-327 | fork with its heap block: pages as in CloneInto; exactly if there is also a free frame for each user page table and private page; frames taken for it were free, or the heap's; all live heap blocks keep their bytes; user pages keep their bytes; a failure for want of frames takes all of them, and the new directory stays behind with its block exactly if there was one |
| Directories.AddressSpaces.SwitchPageDirectory | kernel/memory/paging.c:361-372 | the heap and its blocks survive a switch |
| Directories.AddressSpaces.DestroyCurrentPageDirectory | kernel/memory/paging.c:334-359 | the directory is gone with its heap block and no other; all other directories, with the bytes of their user pages, and blocks stay |
| Directories.AddressSpaces.ForkAndExit | kernel/memory/paging.c:298-359 | fork, switch to the child, exit: the fork works exactly as above; then it stops at an assertion exactly if the only hole of the heap was the two pages of the directory; else mappings, user pages, live blocks and hole list are the old ones, as many frames are free, and all counts are the old ones if and only if none got saturated and, before the fork, the first hole that fits was longer than two pages or its header on a frame below every free one |
| Directories.NoneSaturated | kernel/memory/paging.c:298-359 | equal counts before a fork and after the exit mean that no count got saturated between |
| Directories.UserFrameNotHead | kernel/memory/range_allocator.c:99-115 | no frame of a user page holds a hole header |
| Holes.CanonicalUnique | kernel/memory/range_allocator.c:70-187 | two canonical hole lists with the same free pages are equal: the list is a function of the free set |
| Holes.FirstFitIsLowest | kernel/memory/range_allocator.c:76-85 | first fit finds a place exactly if some run of n pages is free, and then the lowest |
| Holes.TakeFree | kernel/memory/range_allocator.c:87-114 | taking removes exactly the pages handed out, and the list stays canonical |
| Holes.GiveFree | kernel/memory/range_allocator.c:129-183 | giving back adds exactly the pages given back, and the list stays canonical whatever it touches |
| Holes.TakeThenGive | kernel/memory/range_allocator.c:87-183 | on the value of the list: giving back what was taken gives the identical list (what the code does when the list is empty in between is in RangeAllocator.AllocThenFree) |
| Holes.GiveCommutes | kernel/memory/range_allocator.c:129-183 | on the value of the list: the order in which two runs are given back does not matter |
| Holes.TakenAll | kernel/memory/range_allocator.c:87-92 | an allocation empties the list exactly if it takes the only hole whole |
| RangeAllocator.RangeAllocator.Init | kernel/memory/range_allocator.c:51-68 | one hole that is everything, with its header in its first page, exactly if there is a frame for that page and for its table if missing |
| RangeAllocator.RangeAllocator.Alloc | kernel/memory/range_allocator.c:70-118 | no space exactly if no run of free pages is long enough; else the lowest such run, unmapped, and exactly it leaves the free set; moving the header fails exactly if its new page lacks a table and no frame is free, never in the kernel half; on failure the list and all mappings are the old ones |
| RangeAllocator.RangeAllocator.Free | kernel/memory/range_allocator.c:120-187 | refused exactly if outside the range; else exactly the pages come back, glued to the holes they touch; it fails exactly if no hole ends where they start and the frames for a header page and a missing table are not there, in the kernel half exactly if no frame is free and no hole touches the pages, and then nothing has changed |
| RangeAllocator.RangeAllocator.AllocThenFree | kernel/memory/range_allocator.c:70-187 | the assertion of the free fails exactly if the allocation took the only hole whole; otherwise the list is the identical one, and in the kernel half the free cannot fail and all reference counts are the old ones if and only if the hole was longer or its header on a frame below every free one |
| RangeAllocator.RangeAllocator.FramesConserved | kernel/memory/range_allocator.c:70-187 | free frames and holes balance over an allocation or a free: what the frame conditions of the heap rest on |
| RangeAllocator.RangeAllocator.FreeBoth | kernel/memory/range_allocator.c:120-187 | two runs given back in either order leave the same list |
| RangeAllocator.RangeAllocator.SomeHole | kernel/memory/range_allocator.c:71-71 | the assertion that there is a hole holds exactly if the list is not empty |
| RangeAllocator.RangeAllocator.Survives | kernel/memory/paging.c:298-372 | an allocator in the kernel half is left intact by fork, switch and exit |
| RangeAllocator.HeaderCanStray | kernel/memory/range_allocator.c:87-183 | the input for which the counts do not come back: the only hole taken whole, with a free frame below that of its header |
| HeaderLedger.Conserved | kernel/memory/range_allocator.c:94-183 | free frames and holes balance: every hole less is a free frame more |
| HeaderLedger.HeadFramesSize | kernel/memory/range_allocator.c:46-49 | there are as many header frames as holes |
| Heap.HeaderFromPtr | kernel/memory/kmalloc.c:83-88 | the header is found from the data pointer, also when the data starts a page later |
| Heap.DataAligned | kernel/memory/kmalloc.c:61-61 | for every power of two up to the page size the data is aligned, clear of the header, and no further than the alignment makes it |
| Heap.Heap.KalignedAlloc | kernel/memory/kmalloc.c:55-76 | the block is in the lowest run that fits, aligned, zeroed, disjoint from all live blocks, whose bytes stay; zero bytes are a null pointer and nothing changes; else the pointer is null exactly if no run of free pages is long enough, and then nothing has changed, or there are too few frames, counting the header frame that an exact fit frees, and then exactly the first run that fits and all free frames are lost |
| Heap.Heap.ReadHeader | kernel/memory/kmalloc.c:83-91 | for every live block the magic number is found and the size is the one allocated |
| Heap.Heap.Kfree | kernel/memory/kmalloc.c:115-122 | exactly this block goes, its pages join the free set, and all other blocks keep their bytes; free frames and holes balance with the pages; freeing null changes nothing |
| Heap.Heap.MappedExactly | kernel/memory/kmalloc.c:55-122 | a heap page is mapped if and only if it belongs to a live block or starts a hole |
| Heap.Heap.AllFreedIsOneHole | kernel/memory/kmalloc.c:115-122 | when everything is freed, the hole list is the initial one |
| Heap.Heap.SameBlocks | kernel/memory/kmalloc.c:55-122 | between two moments with the same live blocks the hole list is the same and as many frames are free; all reference counts are the same if and only if the hole headers are on the same frames |
| Heap.Heap.AllocThenFree | kernel/memory/kmalloc.c:55-122 | the pointer as above; then it stops exactly if the block took the last hole whole; else blocks and hole list are the old ones, and all reference counts are if and only if, before the call, the hole was longer or its header on a frame below every free one |
| Heap.FramesRunOut | kernel/memory/kmalloc.c:66-67 | the input for which an address range is lost: three pages of a hole of ten with two free frames |
| Heap.Heap.Survives | kernel/memory/paging.c:298-372 | the heap and its blocks survive fork, switch and exit |
| Heap.Heap.Bystander | kernel/growable_buf.c:64-105 | the heap and its blocks survive what a growable buffer does on the same allocator |
| HeapState.SameBlocksAgain | kernel/memory/kmalloc.c:55-122 | the same live blocks mean the same hole list and as many free frames, for any two states of the heap |
| HeapState.HeapSpared | kernel/memory/kmalloc.c:55-122 | a step that touches no page and frame but its own keeps all blocks of the heap |
| GrowableBuf.NewCapacity | kernel/growable_buf.c:65-68 | the new capacity is a whole number of pages, enough, and at least twice the old |
| GrowableBuf.GrowableBuf.Pread | kernel/growable_buf.c:53-62 | what the abstract file holds there, up to its end |
| GrowableBuf.GrowableBuf.GrowBuf | kernel/growable_buf.c:64-105 | the file stays the same, every page it had keeps its frame at the new address, and no page or frame of anyone else is touched; which of the five outcomes it has is a function of the holes and the number of free frames before: no hole, no run long enough, too few frames for the pages it did not have, no hole or no header frame for the old pages, or success |
| GrowableBuf.OldPagesLost | kernel/growable_buf.c:91-98 | the input for which the old pages cannot be given back |
| GrowableBuf.NewPagesLost | kernel/growable_buf.c:74-90 | the input for which the new range and all frames are lost |
| GrowableBuf.GrowableBuf.Pwrite | kernel/growable_buf.c:107-121 | the file with the bytes over it, a hole reading as zeros; it fails exactly where the file has to grow and growing fails, with that outcome, and without space or frames the file is the old one |
| GrowableBuf.GrowableBuf.Truncate | kernel/growable_buf.c:128-142 | the file cut, or extended with zeros; bytes past the end are zero, so a later extension shows none of the old ones; it fails exactly where growing does |
| GrowableBuf.GrowableBuf.Mmap | kernel/growable_buf.c:144-157 | refused exactly for an offset or a private mapping, or past the size; else the user pages are on the frames of the buffer, with the flags that were asked for, exactly if there is a frame for each missing table, and otherwise exactly the first ones are |
| GrowableBuf.GrowableBuf.MmapThenFork | kernel/growable_buf.c:144-157 | a file mapped and then a fork: parent, child and buffer are on the same frames, page by page, with the flags that were asked for; it works exactly if there are two frames for each missing page table and what the fork took before |
| GrowableBuf.GrowableBuf.Survives | kernel/memory/paging.c:298-327 | a buffer keeps its file through a fork |
| GrowableBuf.GrowableBuf.Bystander | kernel/growable_buf.c:64-157 | another buffer with no frame in common keeps its file through every operation of this one, and has none in common after it |
| GrowableBuf.GrowableBuf.BesideHeap | kernel/growable_buf.c:64-157 | a buffer keeps its file through every allocation and free of the heap |
| GrowableBuf.OtherSpared | kernel/growable_buf.c:64-142 | the step behind Bystander, for any two states |
| GrowableBuf.Undisturbed | kernel/growable_buf.c:64-142 | whoever touches only pages and frames elsewhere leaves the file of a buffer alone |
| KernelMemory.KernelMemory.Alloc | kernel/memory/kmalloc.c:55-76 | over every run: an allocation keeps the blocks and both files, and its pointer is null exactly as in KalignedAlloc |
| KernelMemory.KernelMemory.Free | kernel/memory/kmalloc.c:115-122 | over every run: a free keeps all other blocks and both files |
| KernelMemory.KernelMemory.Write | kernel/growable_buf.c:107-121 | over every run: writing to either buffer keeps all blocks and the other file, and ends as in Pwrite |
| KernelMemory.KernelMemory.Truncate | kernel/growable_buf.c:128-142 | over every run: so does cutting or extending one |
| Processes.BoundedWaiting | kernel/scheduler.c:110-247 | whatever all processes do, the one at position k of the queue is dispatched after exactly k + 1 switches, and is queued until then |
| Processes.UnregisterEnds | kernel/scheduler.c:73-90 | the walk of scheduler_unregister comes to its end without a hit exactly if the process is not listed, as for a reaped one |
| Scheduler.Scheduler.Register | kernel/scheduler.c:51-71 | the list stays sorted by pid, and the process joins the end of the queue |
| Scheduler.Scheduler.Deque | kernel/scheduler.c:110-119 | the head of the queue, or idle if it is empty |
| Scheduler.Scheduler.TryUnblock | kernel/scheduler.c:126-139 | exactly a process with a pending signal or a true predicate is queued; with a signal pending nothing is reaped |
| Scheduler.Scheduler.UnblockProcesses | kernel/scheduler.c:121-140 | the walk, during which predicates take entries out of the list, wakes exactly the blocked processes with a reason, in the order of the list: a pending signal, a true predicate, or a wait with its answer, which is a dead target that leaves the list, or that there is no target; nobody else changes, and nobody with a reason is left asleep |
| Scheduler.Scheduler.Switch | kernel/scheduler.c:156-199 | the walk of unblock_processes, then the head of the queue runs, never idle while one is queued and never a dead one, and pending signals tell it to die; all others are as the walk left them, and nobody who could be woken sleeps |
| Scheduler.Scheduler.Yield | kernel/scheduler.c:201-247 | the running process goes to the end of the queue, idle to none, and the switch follows from exactly that state; nobody awake has his call changed |
| Scheduler.Scheduler.Block | kernel/scheduler.c:256-271 | returns at once if the predicate is true; else one switch, and the caller sleeps on, in no queue, exactly if no signal is pending and the predicate stays false; otherwise it runs or is queued |
| Scheduler.Scheduler.WaitShouldUnblock | kernel/syscall/process.c:155-205 | the first dead target is taken out of the list; true also exactly if there is no target at all; without a dead target nothing changes |
| Waking.Sleeper | kernel/scheduler.c:256-271 | from what a switch does: a process that stopped for a condition sleeps on exactly if no signal is pending and the condition does not hold |
| Waking.Waiter | kernel/syscall/process.c:216-219 | a wait without an answer is woken in the same switch exactly by a signal |
| Waking.ChildIsTarget | kernel/syscall/process.c:163-180 | a new child is a target of its parent whichever way it asks, and of nobody else who asks for any child |
| Scheduler.Scheduler.WaitStart | kernel/syscall/process.c:207-219 | a waiter leaves with an answer in hand exactly if a target is dead or there is none, with the first dead target taken out of the list in the first case; else it blocks, and is woken in the same switch exactly by a signal that is pending already; every zombie is reaped at most once |
| Scheduler.Scheduler.WaitAnswered | kernel/syscall/process.c:216-231 | the end of a wait that slept: interrupted exactly if a signal was pending when it was woken; else the pid and status of a dead target that was listed then and left the list, and that one is freed; or there was no target |
| Scheduler.Scheduler.WaitFinish | kernel/syscall/process.c:217-232 | the freed zombie was dead, matched the selector, and is in no list or queue; its pid and status are returned; an interrupted wait frees nothing; nothing else changes |
| Scheduler.Scheduler.WaitNoHang | kernel/syscall/process.c:209-231 | with a dead one among the targets the pid and status of the first are returned, and exactly that one leaves list and table; else no child is reported, and nothing changes |
| Scheduler.Scheduler.Fork | kernel/syscall/process.c:82-133 | a pid no process has, a child of the caller in its group, listed and at the end of the queue; nothing else changes |
| Scheduler.Scheduler.SetPgid | kernel/syscall/process.c:53-64 | only the group changes, and the invariant stays |
| Scheduler.Scheduler.AdoptOrphans | kernel/process.c:168-177 | exactly the children of the dying process become those of init |
| Scheduler.Scheduler.Perish | kernel/process.c:158-181 | the process is dead, exactly its children are those of init, and nothing else changes |
| Scheduler.Scheduler.Exit | kernel/process.c:190-195 | the zombie keeps its status until it is waited for, its children are those of init, and the switch follows from exactly that state |
| Scheduler.Scheduler.DieIfNeeded | kernel/process.c:185-188 | a process dies on the way out exactly if it was told to, as in Exit |
| Scheduler.Scheduler.SendSignal | kernel/process.c:311-332 | a bad number, one that is ignored, one whose handling panics, or one that terminates: the running process is told to die, any other listed one, a zombie too, gets the bit, and nothing else changes |
| Scheduler.Scheduler.SendToEach | kernel/process.c:341-371 | exactly the listed processes of the group, or all but init, get the signal |
| Scheduler.Scheduler.Kill | kernel/syscall/process.c:135-143 | exactly the listed processes that the argument addresses get the signal; a bad number is an error only if there is one; no process is an error only for a pid |
| Scheduler.Scheduler.HandlePendingSignals | kernel/process.c:373-395 | with signals pending the process is told to die, its status is the highest of them, and none is left; without one nothing changes |
| RingBuf.RingBuf.Read | kernel/ring_buf.c:65-76 | as many bytes as there are, up to the count, off the front of the contents |
| RingBuf.RingBuf.Write | kernel/ring_buf.c:78-89 | as many bytes as there is room for, behind the contents |
| RingBuf.RingBuf.EmptyAndFull | kernel/ring_buf.c:57-63 | the two index tests mean empty and full, with one slot never used |
| Pipes.Closed | kernel/fs/fifo.c:75-83 | closing a slot keeps: references are the slots, reader and writer counts the ends that slots lead to |
| Pipes.NoEndLeft | kernel/fs/fifo.c:62-83 | a counter is zero exactly if no slot of any process leads to that end |
| Pipes.Born | kernel/fs/fifo.c:62-73 | a new pipe has one end of either kind, in two slots |
| FileTables.FileTables.TryRead | kernel/fs/fifo.c:85-111 | what is read comes off the front of the ring buffer, so that all reads together are a prefix of all writes; nothing for a count that is not zero only when the buffer is drained and no slot anywhere leads to a write end; another pass exactly if it is drained and one does |
| FileTables.FileTables.TryWrite | kernel/fs/fifo.c:113-146 | what is accepted goes behind the contents; broken exactly if no slot anywhere leads to a read end; another pass exactly if the buffer is full and one does |
| FileTables.FileTables.AllocFd | kernel/process.c:216-236 | the slot asked for or the lowest free one; each error exactly in its case; on an error nothing changes |
| FileTables.FileTables.Close | kernel/syscall/fs.c:55-65 | exactly this slot goes, and its description is closed |
| FileTables.FileTables.Dup | kernel/syscall/fs.c:343-350 | the lowest free slot for the same description; an error exactly if the descriptor is not open or the table is full, and then nothing changes |
| FileTables.FileTables.Dup2 | kernel/syscall/fs.c:361-379 | the slot asked for leads to the description of the other one, whatever it led to before; it fails exactly if the old descriptor is not open, the new one is too large, or it is negative and the table full, and then nothing changes |
| FileTables.FileTables.MakePipe | kernel/syscall/fs.c:381-419 | two new slots on the two ends of one new empty pipe, exactly if two slots are free; else all is as before |
| FileTables.FileTables.Fork | kernel/fs/fs.c:69-82 | the child has the same slots, each one more reference |
| FileTables.FileTables.Exit | kernel/fs/fs.c:60-67 | exactly the slots of this process go |
| Namespace.AliveIff | kernel/fs/fs.c:84-101 | in the middle of calls, an inode exists exactly as long as it has a name, a handle or a call at work on it |
| Namespace.Reached | kernel/fs/dentry.c:80-132 | every directory that has a name is reached from the root |
| Namespace.OnePath | kernel/fs/dentry.c:80-132 | and by one path only: the directories form a tree |
| Namespace.LastReference | kernel/fs/fs.c:89-95 | with the last reference and no name, no entry and no handle names the inode |
| Vfs.Vfs.Alive | kernel/fs/fs.c:84-101 | between system calls an inode exists exactly as long as it has a name or a handle |
| Vfs.Vfs.InodeUnref | kernel/fs/fs.c:89-101 | the inode goes exactly with its last reference; names and handles stay |
| Vfs.Vfs.LookupChild | kernel/fs/fs.c:103-109 | the inode the name leads to, with one reference to it in exchange for the one to the directory |
| Vfs.Vfs.CreateChild | kernel/fs/fs.c:111-121 | a new inode under a name that is free, empty, with one reference in hand; under a taken name nothing changes |
| Vfs.Vfs.LinkChild | kernel/fs/fs.c:123-143 | one entry more and no reference in hand; with the name taken, one reference stays in hand |
| Vfs.Vfs.UnlinkChild | kernel/fs/fs.c:145-155 | exactly the entry goes, and with its last name and reference the inode |
| Vfs.Vfs.InodeOpen | kernel/fs/fs.c:157-182 | refused exactly for writing a directory; else a handle that takes over the reference |
| Vfs.Vfs.Close | kernel/fs/fs.c:195-208 | exactly this handle goes, and nothing but references changes |
| Vfs.Vfs.Append | kernel/fs/dentry.c:80-110 | one entry more, under a name that was free; names in a directory stay unique |
| Vfs.Vfs.Resolve | kernel/fs/vfs.c:311-362 | the inode, or the very error, that walking the components from the root gives; the parent exactly when asked for and there; no reference is lost |
| Vfs.Vfs.CreateInode | kernel/fs/vfs.c:400-436 | one new entry exactly if the parent is there and the name is free; else nothing, and the existing inode or an error |
| Vfs.Vfs.Open | kernel/fs/vfs.c:438-454 | a new file exactly if asked for, missing, and its directory there; else a handle on the inode of the path, exactly if it leads somewhere, exclusive creation is not asked for, and no directory is to be written; each error exactly in its case, and then there is no handle |
| Vfs.Vfs.Mkdir | kernel/syscall/fs.c:106-112 | one new empty directory exactly if the parent is there and the name is free |
| Vfs.Vfs.Link | kernel/syscall/fs.c:133-169 | one entry more for the same inode, exactly if the new name can be made and the old one leads to no directory; each error exactly in its case; no inode changes its kind |
| Vfs.Vfs.Unlink | kernel/syscall/fs.c:171-192 | exactly the entry of the path goes, and only if it leads to no directory; each error exactly in its case |
| Vfs.Vfs.Rmdir | kernel/syscall/fs.c:300-330 | exactly the entry of the path goes, and only if it leads to an empty directory; each error exactly in its case |
| Vfs.Vfs.Chdir | kernel/syscall/process.c:249-271 | the handle of the working directory is exchanged for one on the directory the path leads to; the error of the path, or that it is no directory, exactly in its case, and then nothing changes |
| Paths.CanonicalizedCanonical | kernel/fs/vfs.c:364-398 | the result is absolute, has no empty component, no dot and no two dots, and splits into the components that the path resolves to |
| Paths.CanonicalStays | kernel/fs/vfs.c:236-309 | a canonical path stands for itself whatever the working directory |
| Paths.BothSpellings | kernel/fs/vfs.c:236-398 | a path and its canonical spelling resolve alike from everywhere; canonicalising twice is canonicalising once |
| PathLists.StrtokR | common/string.c:175-204 | one token of the text, with a null character after it, the rest still to come, and no other character changed |
| PathLists.CreateComponentList | kernel/fs/vfs.c:236-309 | the list left by the stack of components is the fold of the specification |
| PathLists.CanonicalizePath | kernel/fs/vfs.c:364-398 | the canonical spelling as a null-terminated string |
| PathLists.WalkFromWorkingDirectory | kernel/fs/vfs.c:236-398 | the canonical spelling leads where the walk of the path from the working directory ends, or from the root if it begins with a separator, exactly if every directory gone through is there |
| PathLists.DotDotIsParent | kernel/fs/vfs.c:236-362 | walking a path through real parents ends where its normalised form leads, exactly if every directory gone through is there |
| PathLists.MissingDirectory | kernel/fs/vfs.c:276-297 | the input for which it is not: a directory that does not exist, and back out |
| PathLists.WorkingDirectory.Chdir | kernel/syscall/process.c:249-271 | the path of the working directory stays canonical over every run; if every directory gone through is there, the new directory is where the walk from the old one, or from the root, ends, and it fails exactly if there is none; on failure nothing changes |
| Mutex.Mutex.Exclusive | kernel/lock.c:46-77 | at most one process is inside; outside the flag section holder is that process and level its nesting depth |
| Mutex.Mutex.NobodyIffZero | kernel/lock.c:46-77 | outside the flag section there is no holder exactly if level is 0, and exactly if nobody is inside |
| Mutex.Mutex.CompareExchange | kernel/lock.c:50-51 | the exchange succeeds exactly if the flag was clear |
| Mutex.Mutex.Test | kernel/lock.c:52-52 | the test lets in exactly when the mutex is free or already ours |
| Mutex.Mutex.SetHolder | kernel/lock.c:53-53 | the invariant holds between the two stores too |
| Mutex.Mutex.CountUp | kernel/lock.c:54-54 | level follows the depth |
| Mutex.Mutex.ReturnLocked | kernel/lock.c:55-56 | one nesting level more |
| Mutex.Mutex.BackOff | kernel/lock.c:58-60 | the flag is given back, and the caller is where it was |
| Mutex.Mutex.CheckAndCount | kernel/lock.c:68-70 | both assertions hold; last exactly if level is 0 now |
| Mutex.Mutex.ClearHolder | kernel/lock.c:71-71 | the invariant holds when the holder is cleared |
| Mutex.Mutex.ReturnUnlocked | kernel/lock.c:72-73 | one nesting level less |
| ShellSyntax.ReadsSpellings | userland/sh.c:356-530 | the parser reads a line as a command if and only if the line spells that command in the grammar, with any blanks |
| ShellSyntax.LineRead | userland/sh.c:356-530 | every spelling is read as its command |
| ShellSyntax.LineWritten | userland/sh.c:356-530 | every accepted line is a spelling of its tree |
| ShellSyntax.PrintThenRead | userland/sh.c:356-530 | printing a well-formed command and parsing it gives the same tree |
| ShellSyntax.TreesRead | userland/sh.c:356-530 | the trees that the parser can return are exactly the well-formed ones: at most 15 arguments, pipes and sequences nested to the right |
| ShellSyntax.Unambiguous | userland/sh.c:356-530 | no line spells two commands |
| ShellSyntax.EmptyIffBlank | userland/sh.c:356-385 | a line is taken for empty exactly if it has nothing but blanks |
| ShellErrors.FullLine | userland/sh.c:356-385 | a line whose first command with sixteen words or more comes after commands that are in order: too many arguments if nothing but blanks is behind the sixteenth word, else a syntax error |
| ShellErrors.TooManyReported | userland/sh.c:513-530 | too many arguments is what a line gets if and only if it is such a line with nothing but blanks behind the sixteenth word |
| ShellErrors.SeventeenWords | userland/sh.c:520-523 | the input that gets the other error: seventeen words |
| ShellParser.Parser.Parse | userland/sh.c:513-530 | the parser over the mutable line finds the tree of the grammar, and every string in it reads back as its token once the line is cut; without a tree the line is as it was |
| ShellParser.Parser.NullTerminate | userland/sh.c:485-511 | a null character at each end of a word of the tree, and no other character changed |
| ExecStack.Execve | kernel/syscall/exec.c:162-338 | the new program reads exactly the strings that the caller's pointers list, exactly if everything fits; a push leads off the stack exactly if the rounded sizes fail where the sizes pass the check |
| ExecStack.StringList.constructor | kernel/syscall/exec.c:56-90 | the strings of the caller, in one buffer |
| ExecStack.UserStack.PushStrings | kernel/syscall/exec.c:124-150 | all strings are on the stack, in order, disjoint, above the pointer, exactly if their rounded sizes fit; off the stack exactly if the check passes a string whose rounded size does not fit |
| ExecStack.UserStack.PushVector | kernel/syscall/exec.c:152-160 | a null word and the pointers below it, exactly if there is room |
| ExecStack.UserStack.Build | kernel/syscall/exec.c:292-338 | a zero return address, argc, argv and envp decode to the original strings; the strings are disjoint, above the vectors, inside the stack |
| ExecStack.VectorReads | kernel/syscall/exec.c:152-160 | read upwards, the vector lists exactly the strings from there on, in order |
| ExecStack.MainFound | userland/lib/crt0.c:46-49 | what the start code reads from the frame is argc, argv and envp |
| ExecStack.RoundingCanMissTheStack | kernel/syscall/exec.c:139-144 | the input that goes off the stack: an empty string and one of 9000 bytes |
| ExecStack.NextPowerOfTwoBounds | kernel/syscall/exec.c:144-144 | a power of two, not below x, and below twice x |
| Calendar.Zeller | common/calendar.h:31-41 | the formula for the day of the week is (4 + days since the epoch) mod 7 for every date |
| Calendar.DayOfYear | common/calendar.h:23-29 | the days of the months before and the day |
| Calendar.DaysSinceEpoch | kernel/time.c:62-68 | the days of the years before and the day of the year |
| Calendar.BrokenDown.FromTime | userland/lib/time.c:74-111 | for every time from the epoch on the fields are in range and are the only ones whose seconds are that time; day of the year and of the week agree |
| Calendar.DaysInjective | kernel/time.c:62-68 | two dates with the same days since the epoch are the same: every valid date comes back |
| Calendar.SecondsInjective | kernel/time.c:115-118 | two moments with the same seconds are the same |
| Calendar.ClockHourRight | kernel/time.c:104-107 | the hour read is right exactly if the clock has 24 hours or it is morning; else it is twelve hours early in binary coded decimals, and in binary eight hours later modulo twelve |
| Calendar.BcdRoundTrip | kernel/time.c:57-60 | binary coded decimals come back |
| Qsort.Qsort | common/stdlib.c:29-57 | for every total preorder and length: sorted, a permutation, nothing outside touched, and calls nested at most as deep as the logarithm of the length |
| Qsort.Partition | common/stdlib.c:33-47 | smaller elements before the pivot and no smaller ones after it; a permutation; nothing outside touched |
| Qsort.MemSwap | common/stdlib.c:19-27 | the two elements change places, also when they are the same one |
| Readdir.Context.Callback | kernel/fs/fs.c:304-324 | the record is appended exactly if it fits; else nothing is written |
| Readdir.Description.DentryGetdents | kernel/fs/dentry.c:59-78 | the records of the entries passed, as many as fit, and the offset after them |
| Readdir.Description.Getdents | kernel/fs/fs.c:326-343 | as many whole entries as fit, and no byte behind them changed; 0 exactly at the end; an error exactly if not even one fits, and then the offset stays |
| Readdir.Dir.Readdir | userland/lib/dirent.c:72-100 | the next entry of the directory, growing the buffer as needed; none exactly after the last |
| Readdir.ReadAll | userland/lib/dirent.c:72-100 | reading until the end gives every entry exactly once, in order, whatever the size of the first buffer |
| Readdir.RecordReads | kernel/fs/fs.c:304-324 | a record decodes to its entry, and its length leads to the next one |
| Readdir.LengthRight | kernel/fs/fs.c:316-316 | the 16-bit length is right exactly if it fits |
| CStrings.Strlcpy | common/string.c:122-131 | the string cut to the size, a null character, nothing else written, and the full length returned |
| CStrings.Strlen | common/string.c:92-97 | the length up to the first null character |

## Findings

Where the code does not do what it is for, the model keeps the code. The members named say when it does.

- kernel/memory/range_allocator.c:122 asserts that the list of holes is not empty, but an allocation may take the last
  hole whole. A free after that stops the kernel, although the free is correct. `RangeAllocator.AllocThenFree` has the
  exact condition (`Holes.TakenAll`), and `Directories.ForkAndExit` what it means for fork: exit of a child stops
  exactly if the page directory was the last two pages of the heap. grow_buf frees the old range after it has
  allocated the new one, and `GrowableBuf.GrowBuf` has the condition for it.
- kernel/growable_buf.c:91-98: when the old range cannot be given back, because no frame is free for the header of a
  new hole, grow_buf returns an error with the old pages unmapped and the buffer still pointing at them. On the state
  before: `GrowableBuf.GrowOutcome` is `NotFreed`, which `GrowableBuf.GrowBuf` proves to be exactly when;
  `GrowableBuf.OldPagesLost` names an input.
- Freeing what was just allocated restores the hole list, but not always the same reference counts: when an allocation
  takes a hole whole, the frame of its header is freed, and the header of the later free goes to the lowest free
  frame, which may be another. `RangeAllocator.AllocThenFree`, `Heap.AllocThenFree` and `Directories.ForkAndExit` have
  the exact condition before the call (`RangeAllocator.HeaderReturns`), `RangeAllocator.HeaderCanStray` an input. As
  many frames are free, and `Heap.SameBlocks` says the same for any two moments.
- kernel/memory/kmalloc.c:66-67: without enough frames for all pages, the address range and all frames there were stay
  taken, and nobody has them. `Heap.KalignedAlloc` says exactly when and what (`AsProvided`, `Lost`), and
  `Heap.FramesRunOut` names an input. kernel/growable_buf.c:74-90 does the same: `GrowOutcome` is `NoFrames`, and
  `GrowableBuf.NewPagesLost` names an input.
- kernel/memory/paging.c:298-327: a clone that runs out of frames leaves the page tables it has filled, and the
  directory with its heap block, behind, and no frame is free then. `Paging.CloneInto` and
  `Directories.CloneCurrentPageDirectory` have the exact condition (`Paging.ForkCost`: a frame for each user page
  table and each private page), `Cloning.ForkTakesTwo` an input. The ghost set `leaked` in `Paging` has the tables; a
  success adds nothing to it.
- kernel/syscall/exec.c:139-144 checks the size of a string and then subtracts the next power of two of it, so a
  string can pass the check and be written below the stack; and the check itself wraps around if the string is larger
  than the stack pointer. `ExecStack.UserStack.PushStrings` says exactly when, `RoundingCanMissTheStack` names an
  input.
- kernel/time.c:104-107 takes the hour modulo 12 before it tests the bit for the afternoon, so the hour of a 12-hour
  clock is wrong in the afternoon: twelve hours early in binary coded decimals, and in binary as eight hours later
  modulo twelve, 13:00 as 9 (`Calendar.ClockHourRight`).
- kernel/syscall/process.c:209-211: with WNOHANG, waitpid reports that there is no child when there are children but
  none is dead, and never returns 0 (`Scheduler.WaitNoHang`).
- kernel/fs/fs.c:316: the length of a directory record is 16 bits wide; for a name of 65531 bytes or more it is wrong
  (`Readdir.LengthRight`).
- kernel/fs/fs.c:136-140: when the name is taken, inode_link_child gives back one of two references and the caller of
  it gives back none, so one is leaked (`Vfs.LinkChild`). sys_link looks the name up first, so this takes another
  process in between.
- kernel/fs/vfs.c:283-288 drops a component for each `..` without looking whether it is there, so that a path through
  a missing directory resolves (`PathLists.DotDotIsParent` for when, `PathLists.MissingDirectory` for one).
- userland/sh.c:520-523: too many arguments are reported as a syntax error when the line goes on behind the sixteenth
  one, because the first error is overwritten (`ShellErrors.FullLine` and `ShellErrors.TooManyReported` for when,
  `ShellErrors.SeventeenWords` for an input).
- kernel/process.c:268-321: kill panics for signal 0, which has no disposition, and for the signals that stop or
  continue a process, if there is a process to get them (`Scheduler.Kill`, with `Signals.Reply`).
- kernel/memory/range_allocator.c:82-85 returns without giving the lock back when there is no space.

## Left out

Weaker than the code could be read, on purpose:

- GrowableBuf.GrowableBuf.GrowBuf: requires that the new capacity fits in 32 bits, which the source does not look at; after `NotFreed`, when the buffer points at pages that are gone, and after `Stopped`, which is a panic, nothing is promised but the reason.
- GrowableBuf.GrowableBuf.Pwrite: the same, where the file has to grow.
- GrowableBuf.GrowableBuf.Truncate: the same, where the file has to grow.
- KernelMemory.KernelMemory.Write: the same, and blocks and buffers only where growing does not end in `NotFreed` or `Stopped`.
- KernelMemory.KernelMemory.Truncate: likewise.
- GrowableBuf.GrowableBuf.Mmap: bytes that a user writes through the mapping behind the end of the file, in its last page, are not modelled; they would show when the file grows.
- RangeAllocator.RangeAllocator.Alloc: requires a hole, which the source asserts; `SomeHole` says when there is one.
- RangeAllocator.RangeAllocator.Free: requires a hole, which the source asserts, and that the pages are not free already.
- Heap.Heap.KalignedAlloc: requires a hole where the size is not zero, which the allocator asserts; sizes whose sum with the header wraps around 32 bits are out.
- Heap.Heap.Kfree: requires a hole and a live block, both asserted in the source.
- Directories.AddressSpaces.CreatePageDirectory: requires a hole, as the heap does; what the heap block holds is not tied to the directory entries byte by byte.
- Directories.AddressSpaces.CloneCurrentPageDirectory: requires a hole, as the heap does.
- Directories.AddressSpaces.DestroyCurrentPageDirectory: requires a hole, which range_allocator_free asserts.
- FileTables.FileTables.MakePipe: the allocation of the pipe and its buffer does not fail; the buffer of a destroyed pipe stays in the model's map.
- FileTables.FileTables.Dup2: two equal descriptors are out, as the source then closes the one it is about to share.
- Scheduler.Scheduler.Perish: requires that the process is not init, whose exit is a panic.
- Vfs.Vfs.CreateChild: requires that the directory still has a name, which holds as no call runs between the steps of another.
- Readdir.ReadAll: requires names whose record length fits in 16 bits, see `Readdir.LengthRight`; the new buffer of a realloc is fresh and holds nothing that readdir would still read.
- ExecStack.Execve: strings of up to 2 GiB; reading the executable and mapping its segments is not part of this model.
- Calendar.BrokenDown.FromTime: the years are not bounded by 32 bits.

Not modelled:

- Reading the memory map at boot and the tables of the boot loader; the model starts with the frames that are available and the kernel image mapped.
- The quickmap window, the recursive directory entry and the TLB: page tables are read and written directly.
- Frames outside the bitmap and mapped devices.
- Page faults, krealloc and memory protection.
- Concurrency inside operations on memory and files, which run under locks or to their end; preemption inside scheduler_block.
- mutex_unlock_if_locked, which is no balanced call.
- That a signalled process comes to run and dies; only that it is told to.
- sys_rename, lseek, F_SETFL, mount points, device files and sockets; a descriptor table that is full after the file was opened.
- Memory exhaustion in the file system, the shell, execve and the path code.
- growable_buf_destroy and ring_buf_write_evicting_oldest.
- The line editor of the shell, and running the commands it has parsed.
