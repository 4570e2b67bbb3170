# pros kernel: verified model

This project models, in Dafny 4.11, the parts of the pros kernel that carry its state: the scheduler and
the sleeping console reader, physical and virtual memory, the kernel heap, the in-memory filesystem with
its system calls, path resolution and the archive that fills the tree, and program loading. Nothing was
executed: every statement below is proved by the verifier, for all inputs, all runs or all reachable
states. `dafny verify dfyconfig.toml` checks the whole project.

## How the model is laid out

- **Scheduler and console.** `Ldisc` is the line discipline: a class over its 256-byte buffer, proved
  against a small value model and, over every history of keys and reads, against a reference reader that
  knows only the keys accepted so far and how many bytes were read.
  `RunQueue` is the ring of tasks as linked objects. `Protocol` is a transition system whose atomic steps
  are the statements of `sched.c` and `console_dev.c` that another party can get between: any number of
  reader tasks, the serial and timer interrupts, and the scheduler thread on one CPU. An interrupt is
  enabled only while the mask is open. Task steps follow console_dev.c:71-90, sched.c:89-94, 106-119 and
  131-136; handler steps follow console_dev.c:51-69, sched.c:60-87 and 121-129; scheduler steps follow
  sched.c:138-165; the lock is spinlock.c:6-26. `ProtocolSafety` proves an inductive invariant and the
  consequences over every run.
- **Memory.** `Pte` holds both page-table-entry codecs, with exact conditions for what comes back. `Pmm`
  is the free list threaded through the free pages. `PageTables`, `Vmm` and `Teardown` put tables in the
  same physical memory: the reference is the walk the hardware does, decoded to a frame and flags.
  `HeapLayout` and `Heap` are the block list with in-band headers on pages taken from `Pmm`.
  `KernelMemory` puts the free list, the heap and any number of address spaces over one memory: no frame
  has two owners, and no operation of one changes what another holds. `PageBytes` reads the words of a
  page as bytes.
- **Files.** `SparseFile` says what a page-list file means as a flat byte sequence, and `Ramfs` is the
  code. `Feeding` is the general law that feeding data in pieces equals feeding it at once; the page
  loops of `Ramfs` and the 512-byte loops of `SysFile` are instances. `UserMemory` is the checked copy to
  and from the caller. `Dirents` packs directory records and walks them as the shell does.
- **Paths and archives.** `Tokenizer` is the in-place tokenizer, `VfsTree` the node tree, `Vfs` the mount
  list and the path walk, `VfsView` the tree seen as a map from paths to contents. `TarFormat` says what an
  archive is, whatever its unread fields hold, and prints archives in ustar Interchange Format (POSIX.1, pax
  utility): every header field, any modes, owners and times, and the checksum. `TarWalk` is the block walk in
  general, and `Tar` is the loader and what it makes of an archive.
- **Programs.** `ElfImage` is the image a program should have (gABI chapter 5, Program Loading), `Elf` the
  two-pass loader, `UserStack` the initial stack (section 3.4.1 of the System V AMD64 psABI) and the code
  that reads it back. Both work in the page tables and on the free list of the modules above, so what they
  promise is what the hardware walk finds, and what they take is given back when the space is destroyed.
  `Process` puts context, program and stack together as the kernel does for init.

Allocation failure is a parameter: `grants` is the number of allocations that still succeed, so a
statement for all `grants` covers memory running out at any point. Integer widths are written out where
the code depends on them (`AlignUp`, `Rounded`, `Add64`, `Wanted`, program header offsets).

Where the code differs from what one might expect, the code is followed:

- Erasing on a full line removes the character before the one that was dropped, so typing then erasing
  undoes nothing there (`Ldisc.EraseUndoesTypingIffRoom` has the exact condition).
- A name of 128 bytes or more is stored cut off, and the comparison over 128 bytes then never matches it:
  the node is made and cannot be found (`VfsTree.LongNameIsLost`, with the exact condition in
  `VfsTree.CreateThenLookup`).
- A mount matches a raw string prefix of the path, not whole components; the longest wins, and among
  equals the newest.
- `pmm_alloc` of 0 pages searches for 2^64 of them, and so fails on any real list.
- `krealloc` may absorb free neighbours and still fail; the old block is then larger, with its bytes.
- When memory runs out between taking a frame and mapping it, `elf_load` and `elf_build_user_stack` do not
  give the frame back; `Elf.Load` and `UserStack.Build` say which frame is lost, and that no other is.
- A stack built where the program has a page replaces that page (`Process.Prepare`).
- A demand fault trusts the fault code: on a page that is mapped it drops the frame that was there
  (`Teardown.OwnedSpace.Fault`).
- On x86_64 a frame address with bit 63 set turns into the no-execute flag (`Pte.X86FlagsBack`).

## Model

| member | source | states |
|---|---|---|
| Ldisc.LineDiscipline.constructor | kernel/src/core/ldisc.c:17-23 | A fresh discipline holds the empty line. |
| Ldisc.LineDiscipline.FeedByte | kernel/src/core/ldisc.c:25-59 | On the buffer in place: the new line and the echo are those of the value model, and the result says whether a line is ready. |
| Ldisc.LineDiscipline.DrainInto | kernel/src/core/ldisc.c:61-76 | Exactly the bytes due reach the caller's buffer, nothing behind them changes, and the line left is the value model's. |
| Ldisc.LineDiscipline.CopyOut | kernel/src/core/ldisc.c:61-66 | The copy moves exactly the next bytes of the line and leaves what lies behind them in the caller's buffer. |
| Ldisc.FeedIsEdit | kernel/src/core/ldisc.c:25-55 | Any key but a newline into an open line does what the reference editor does to the keys typed so far, and leaves the line open. |
| Ldisc.BufferIsReference | kernel/src/core/ldisc.c:25-76 | After every history the buffer agrees with the reference reader, which knows only the keys accepted and how many bytes were read: the line is finished exactly when the transcript is longer than what was read, what waits is the rest of the transcript, and an open buffer is the reference edit of the keys since the last newline. |
| Ldisc.DrainParts | kernel/src/core/ldisc.c:61-76 | A read of a finished line takes the front of what waits and leaves the rest; the line is open again exactly when nothing is left. |
| Ldisc.FeedAndUnread | kernel/src/core/ldisc.c:25-55 | What a key adds to the reference transcript is what waits after it. |
| Ldisc.AgreesNext | kernel/src/core/ldisc.c:25-76 | Every key and every read keeps the buffer, and what readers got, in step with the reference reader. |
| Ldisc.DrainedIsTranscript | kernel/src/core/ldisc.c:25-76 | Over every history of keys and reads of any sizes, bytes read followed by bytes waiting are the reference transcript of the accepted keys, and the bytes read are as many of its first bytes as the reference counts. |
| Ldisc.PromptReadersSeeEverything | kernel/src/core/ldisc.c:25-76 | If lines are read before more is typed, no key is ignored and readers get the transcript of everything typed. |
| Ldisc.EraseUndoesTypingIffRoom | kernel/src/core/ldisc.c:32-50 | Typing a character and erasing it is the identity if and only if the line was not full; on a full line one earlier character is lost. |
| Ldisc.EraseUndoesTyping | kernel/src/core/ldisc.c:32-50 | With room, typing and erasing is the identity whatever is typed afterwards. |
| Ldisc.EchoShowsTheLine | kernel/src/core/ldisc.c:25-55 | After every history a one-line terminal fed the echo shows exactly the open line, with its cursor at the end. |
| RunQueue.FirstReadyIsNearest | kernel/src/proc/sched.c:17-29 | A search that has passed over no ready task finds the nearest one, or there is none. |
| RunQueue.PickIsNearest | kernel/src/proc/sched.c:17-29 | Round robin picks the nearest ready task after the cursor, and none only when no task is ready. |
| RunQueue.PickApproaches | kernel/src/proc/sched.c:17-29 | A pick that passes over a ready task brings the cursor strictly nearer to it. |
| RunQueue.Queue.constructor | kernel/src/proc/sched.c:41-44 | The queue starts empty and valid. |
| RunQueue.Queue.Add | kernel/src/proc/sched.c:46-54 | The linked tasks stay one cycle holding each task once; the new one comes right after the head; adding NULL does nothing. |
| RunQueue.Queue.Search | kernel/src/proc/sched.c:17-29 | The do/while walk over the links from any task of the ring ends at the round-robin choice behind it, that task itself last, or with none. |
| RunQueue.Queue.PickNext | kernel/src/proc/sched.c:17-29 | The ring walk returns the round-robin choice for every starting point the cursor stands for, and moves the cursor only to it. |
| RunQueue.Queue.AnyAlive | kernel/src/proc/sched.c:31-39 | True if and only if some task of the ring is not dead. |
| RunQueue.Queue.Wakeup | kernel/src/proc/sched.c:121-129 | Exactly the tasks blocked on the channel become ready; no other state changes. |
| ProtocolSafety.ControlKept | kernel/src/proc/sched.c:60-165 | Every enabled step keeps the control invariant: who is on the CPU, the mask, the lock, the pending wakeup, the task states. |
| ProtocolSafety.StepInv | kernel/src/proc/sched.c:60-165 | Every enabled step keeps the whole invariant. |
| ProtocolSafety.RunKeeps | kernel/src/proc/sched.c:60-165 | The invariant holds at every state of every run. |
| ProtocolSafety.NoLostWakeup | kernel/src/proc/sched.c:106-129 | In every reachable state, a finished line while a task is blocked means the handler that finished it is on the CPU, masked, with its wakeup ahead. |
| ProtocolSafety.PendingWakeupHappens | kernel/src/drivers/console_dev.c:51-69 | Two steps of that handler later no task is blocked. |
| ProtocolSafety.IdleOnlyWhenStuck | kernel/src/proc/sched.c:138-165 | The scheduler idles only when every task is blocked or dead and no line is waiting. |
| ProtocolSafety.SafeRuns | kernel/src/proc/sched.c:60-165 | In every reachable state: no panic, at most one task running and it is current and on the CPU, the lock held only on the CPU with interrupts masked, no acquire ever spins, shutdown only with all tasks dead, switch counts balance. |
| ProtocolSafety.DeadIsFinal | kernel/src/proc/sched.c:89-94 | From the state a task is dead in on, it stays dead and its switch count never changes. |
| ProtocolSafety.SwitchesKept | kernel/src/proc/sched.c:138-165 | Every step keeps the balance of switches into tasks and back. |
| ProtocolSafety.ReadersGetTheTranscript | kernel/src/drivers/console_dev.c:51-90 | Over every run of any number of readers, the bytes they got followed by those waiting are the reference transcript, and they are as many as the reference reader counts. |
| ProtocolSafety.WaitingIsBounded | kernel/src/proc/sched.c:138-162 | While a task stays ready and is not chosen, its ring distance falls by at least one with every choice. |
| ProtocolSafety.BoundedWaiting | kernel/src/proc/sched.c:138-162 | In every run a task that stays ready is dispatched before n choices are made among n tasks. |
| Pte.X86Frame | kernel/src/arch/x86_64/arch.c:90-108 | The frame comes back if and only if it is page aligned and below 2^52; presence is as asked for. |
| Pte.X86FlagsBack | kernel/src/arch/x86_64/arch.c:90-118 | The flags come back if and only if bit 63 of the frame is clear or no-execute was asked for. |
| Pte.ArmFrame | kernel/src/arch/aarch64/arch.c:83-142 | The frame comes back if and only if it is page aligned and below 2^48, for leaves and tables. |
| Pte.ArmFlagsBack | kernel/src/arch/aarch64/arch.c:83-138 | The flags of a leaf always come back. |
| Pte.EntryBack | kernel/src/mm/vmm.c:121-194 | For either architecture, an entry made for a frame in range is present and gives back the frame, and a leaf its flags. |
| Pmm.FreedRunIsRun | kernel/src/mm/pmm.c:119-130 | Frames freed together lie on the list as a run an allocation of as many recognises. |
| Pmm.RunBase | kernel/src/mm/pmm.c:113-116 | The last page of a run is the lowest, and the run is what freeing from there would list. |
| Pmm.Memory.Contiguous | kernel/src/mm/pmm.c:83-93 | The inner search answers true if and only if that many list neighbours descend page by page. |
| Pmm.Memory.FindRun | kernel/src/mm/pmm.c:79-103 | The outer search finds the first run with the node before it, or there is none. |
| Pmm.Memory.Unlink | kernel/src/mm/pmm.c:104-112 | Exactly the run leaves the list; the order of the rest is kept. |
| Pmm.Memory.Alloc | kernel/src/mm/pmm.c:78-117 | Fails, changing nothing, if and only if no run of that many neighbours exists; otherwise takes out exactly the first such run and returns its lowest address; only links of pages that stay free are written. |
| Pmm.Memory.AllocOne | kernel/src/mm/pmm.c:78-117 | One page is the head of the list; 0 if and only if the list is empty. |
| Pmm.Memory.Free | kernel/src/mm/pmm.c:119-130 | The frames go in front of the list in descending order, no frame is listed twice, and no other page is written; freeing 0 does nothing. |
| Pmm.Memory.FreeThenAlloc | kernel/src/mm/pmm.c:78-130 | Freeing a block and allocating as much returns the same block and restores the list. |
| Pmm.Memory.FreePageCount | kernel/src/mm/pmm.c:132-139 | Counts the list. |
| PageTables.WalkIsLeaf | kernel/src/mm/vmm.c:145-161 | The hardware walk through the tables in memory reaches exactly the leaf entry the table tree describes. |
| PageTables.LeafWrite | kernel/src/mm/vmm.c:163-185 | Writing one leaf entry keeps the tree and changes one leaf. |
| PageTables.LinkKeeps | kernel/src/mm/vmm.c:121-139 | Linking a zeroed table where none was keeps the tree and every leaf. |
| Vmm.IndexIsDigit | kernel/src/mm/vmm.c:145-161 | The shift and mask of each level pick the digit of the page number the tree uses there. |
| Vmm.DecodedBack | kernel/src/mm/vmm.c:163-194 | An entry made for an aligned frame in range decodes to that frame and those flags, on either architecture. |
| Vmm.AddressSpace.constructor | kernel/src/mm/vmm.c:55-71 | Over an empty root every lower-half page is unmapped. |
| Vmm.AddressSpace.WriteTable | kernel/src/mm/vmm.c:121-139 | A frame zeroed and linked: exactly those two pages change. |
| Vmm.AddressSpace.GetOrCreateTable | kernel/src/mm/vmm.c:121-139 | The child table is there afterwards unless memory ran out; no translation changes; frames leave the free list only to become tables. |
| Vmm.AddressSpace.LinkTable | kernel/src/mm/vmm.c:121-139 | A fresh frame becomes the zeroed child table of its parent, no translation changes, and nothing but tables is written. |
| Vmm.AddressSpace.WalkDown | kernel/src/mm/vmm.c:145-161 | One level of the walk: the next table on the way to the page is there afterwards unless memory ran out; no translation changes. |
| Vmm.AddressSpace.WalkCreating | kernel/src/mm/vmm.c:145-161 | The leaf table of the address is there afterwards unless memory ran out; no translation changes. |
| Vmm.AddressSpace.WalkFinding | kernel/src/mm/vmm.c:145-161 | Finds the leaf table of the address if and only if there is one, and changes nothing. |
| Vmm.AddressSpace.WriteLeaf | kernel/src/mm/vmm.c:163-185 | One entry write changes the translation of one page. |
| Vmm.AddressSpace.MapPage | kernel/src/mm/vmm.c:163-174 | Success changes what the hardware walk finds for exactly one page: to the frame and flags given, for an aligned frame in range. Mapping a mapped page again never fails; failure changes no translation and means memory ran out; memory outside tables and free pages is untouched. |
| Vmm.AddressSpace.UnmapPage | kernel/src/mm/vmm.c:176-185 | Removes exactly one translation, as the hardware walk sees it; fails, changing nothing, if and only if the page is not mapped. |
| Vmm.AddressSpace.VirtToPhys | kernel/src/mm/vmm.c:187-194 | The frame the hardware walk finds, with the offset in the page; 0 when unmapped. |
| Vmm.AddressSpace.MapZeroed | kernel/src/mm/vmm.c:244-256 | Mapping a zeroed frame that is nobody's: exactly that page changes, or, out of memory, the frame is back on the free list and nothing changed. |
| Vmm.AddressSpace.DemandFault | kernel/src/mm/vmm.c:226-259 | Handled only in the demand range and for a fault whose code says that the page was absent: then exactly that page maps to a zeroed frame of its own; declined there only out of memory, with no translation changed. |
| Vmm.NewContextRoot | kernel/src/arch/x86_64/arch.c:137-153 | A root with an empty lower half, and on x86_64 the kernel's upper half, taken from the free list; 0 if and only if the list is empty. |
| Vmm.CreateContext | kernel/src/mm/vmm.c:55-71 | A context with nothing mapped and only its root owned; on failure the free list is as it was. |
| Teardown.FreedIsUnder | kernel/src/mm/vmm.c:77-88 | Everything the recursive free gives back lies under the table. |
| Teardown.UnderIsFreed | kernel/src/mm/vmm.c:77-88 | Everything under the table is given back. |
| Teardown.FreedOnce | kernel/src/mm/vmm.c:77-88 | Nothing is given back twice, nor the table itself. |
| Teardown.FreedIsEverything | kernel/src/mm/vmm.c:90-106 | What destroying gives back is the root, every lower-half table and every mapped frame, and nothing else. |
| Teardown.FreeTable | kernel/src/mm/vmm.c:77-88 | The recursion, reading each table from memory only while it is not free, pushes exactly the frames below the table. |
| Teardown.FreeEntries | kernel/src/mm/vmm.c:77-106 | The same for the first entries of a table, 256 of them at the root so that the upper half is not entered. |
| Teardown.KeptElsewhere | kernel/src/mm/vmm.c:77-194 | Writes to pages that are no tables of an address space keep its tables and change nothing the hardware walk finds. |
| Teardown.StockMapped | kernel/src/mm/vmm.c:163-174 | Mapping a frame moves it, and the tables made for it, between owners: free frames, tables and mapped frames together gain exactly that frame. |
| Teardown.StockAfterMap | kernel/src/mm/vmm.c:163-174 | In general: free frames, tables and mapped frames together gain the frame mapped and lose exactly the one that page had before. |
| Teardown.KeptByOthers | kernel/src/mm/vmm.c:121-185 | Writes to tables and free pages leave the contents of every mapped page alone. |
| Teardown.OwnedSpace.constructor | kernel/src/mm/vmm.c:55-71 | A fresh context owns no frames. |
| Teardown.OwnedSpace.Map | kernel/src/mm/vmm.c:163-174 | Ownership over map: the page owns the caller's frame and the hardware finds it there with the flags given, or memory ran out and nothing changed hands; mapping a page's own frame again never fails; only tables and free pages are written, so every mapped page keeps its contents. |
| Teardown.OwnedSpace.Unmap | kernel/src/mm/vmm.c:176-185 | Ownership over unmap: the frame is the caller's again, the hardware finds nothing there, every mapped page keeps its contents, and no one else's frame is touched. |
| Teardown.OwnedSpace.Fault | kernel/src/mm/vmm.c:226-259 | Ownership over demand faults: the page owns the frame that left the free list; the frame it had before, if the fault code was wrong, is nobody's; every mapped page keeps its contents, and no one else's frame is touched. |
| Teardown.OwnedSpace.TakeFrame | kernel/src/mm/pmm.c:78-117 | Taking one frame: it leaves the free list and is nobody's; no translation and no mapped page changes; 0 if and only if there is none. |
| Teardown.OwnedSpace.WriteFrame | kernel/src/proc/elf.c:133-143 | Writing a frame that is neither free nor a table changes that page and nothing the hardware walk finds. |
| Teardown.OwnedSpace.Destroy | kernel/src/mm/vmm.c:90-106 | After any such history the free list gains the root, every table and every mapped frame, each exactly once, and no other page is written. |
| PageBytes.BytesStored | kernel/src/proc/elf.c:133-143 | A page stored as bytes, in words of eight, reads back as those bytes. |
| HeapLayout.MergeKeeps | kernel/src/mm/heap.c:20-31 | Joining contiguous neighbours keeps the blocks an exact tiling of the pages. |
| HeapLayout.CutKeeps | kernel/src/mm/heap.c:33-53 | Cutting a block keeps the tiling. |
| HeapLayout.MergeUndoesCut | kernel/src/mm/heap.c:20-53 | Coalescing undoes a split. |
| HeapLayout.CoalescedKeeps | kernel/src/mm/heap.c:20-31 | The coalescing loop keeps the tiling, and ends with nothing left to absorb there. |
| HeapLayout.CoalescedKeepsUsed | kernel/src/mm/heap.c:20-31 | Coalescing one block leaves every other block in use in the list. |
| HeapLayout.MergeStep | kernel/src/mm/heap.c:20-31 | One header write joins two blocks: the in-memory list is then the joined one, and nothing else changed. |
| HeapLayout.CutStep | kernel/src/mm/heap.c:33-53 | Two header writes cut a block: the in-memory list is then the cut one, and nothing else changed. |
| HeapLayout.GrowStep | kernel/src/mm/heap.c:84-96 | New pages become one free block in front of the in-memory list. |
| HeapLayout.SplitFacts | kernel/src/mm/heap.c:33-53 | A split keeps the block's place and at least the size asked for, and every other block in use. |
| Heap.AlignUp | kernel/src/mm/heap.c:146-147 | The least multiple of 16 from the size on, within 64 bits for every size that passes the check. |
| Heap.Rounded | kernel/src/mm/heap.c:67-73 | A request that passes the overflow check rounds to a multiple of 16, at least 16, with room for the header and a page in 64 bits. |
| Heap.PagesFor | kernel/src/mm/heap.c:86-91 | The pages asked for hold the block and its header. |
| Heap.KernelHeap.constructor | kernel/src/mm/heap.c:55-65 | A heap without pages is valid over any page allocator. |
| Heap.KernelHeap.Init | kernel/src/mm/heap.c:55-65 | The first page becomes one free block; fails if and only if there is no page. |
| Heap.KernelHeap.AbsorbNext | kernel/src/mm/heap.c:20-31 | One round of the loop joins the block with the next, in memory and in the list. |
| Heap.KernelHeap.Coalesce | kernel/src/mm/heap.c:20-31 | The loop over in-band headers yields the coalesced list, writing one header. |
| Heap.KernelHeap.Split | kernel/src/mm/heap.c:33-53 | The block is cut when the rest is useful, the rest coalesces, and nothing outside the block or inside the kept payload is written. |
| Heap.KernelHeap.FindFit | kernel/src/mm/heap.c:75-82 | First fit: the first free block large enough, or there is none. |
| Heap.KernelHeap.Take | kernel/src/mm/heap.c:98-105 | The block is split and put in use; nothing outside it is written. |
| Heap.KernelHeap.Grow | kernel/src/mm/heap.c:84-96 | One more block on fresh pages, or 0, changing nothing, if and only if the page allocator has no such run. |
| Heap.KernelHeap.Kmalloc | kernel/src/mm/heap.c:67-106 | Fails, changing nothing, if and only if the size overflows or neither the list nor the page allocator can serve it; else an unused block of at least that size, and every block in use keeps its place and payload; the tiling invariant holds. |
| Heap.KernelHeap.Kfree | kernel/src/mm/heap.c:174-182 | The block is free and coalesced; every other block in use keeps its place and payload; NULL does nothing. |
| Heap.KernelHeap.CopyPayload | kernel/src/mm/heap.c:166-171 | The copy moves the bytes and touches nothing outside the destination. |
| Heap.KernelHeap.Trim | kernel/src/mm/heap.c:151-164 | Shrinking in place keeps the pointer, the bytes that fit and all other blocks in use. |
| Heap.KernelHeap.Move | kernel/src/mm/heap.c:166-171 | Moving keeps all old bytes in the new block and all other blocks in use; failure changes nothing. |
| Heap.KernelHeap.TrimOrMove | kernel/src/mm/heap.c:160-172 | A block that is large enough is trimmed in place, any other is moved, with the exact condition for failure; failure changes nothing; the bytes and the other blocks in use are kept. |
| Heap.KernelHeap.Enlarge | kernel/src/mm/heap.c:158-172 | A block that is too small absorbs the free blocks behind it and is then trimmed or moved; the exact condition for failure; all its bytes are kept either way. |
| Heap.KernelHeap.Resize | kernel/src/mm/heap.c:146-172 | All cases for a pointer and a rounded size, with the exact condition for failure. |
| Heap.KernelHeap.Krealloc | kernel/src/mm/heap.c:122-172 | All five cases: success holds the first min(old, new) bytes, failure for a size other than 0 (exactly when the size cannot be held) leaves the old block in use with its bytes, no other payload changes. |
| Heap.KernelHeap.Store | kernel/src/mm/heap.c:67-106 | Whatever an owner writes within its payload keeps the heap valid. |
| KernelMemory.IntactKept | kernel/src/mm/vmm.c:55-194 | An address space none of whose frames is written or freed stays sound, maps every page as it did, and its pages hold what they held. |
| KernelMemory.AroundKept | kernel/src/mm/vmm.c:90-194 | What one address space does, among any number of others on the same memory, keeps them sound, apart from each other and unchanged. |
| KernelMemory.SoundKept | kernel/src/mm/heap.c:84-96 | Frames that leave the free list for the heap leave all address spaces sound and unchanged. |
| KernelMemory.Machine.constructor | kernel/src/mm/heap.c:55-65 | A heap over the memory and no address space yet. |
| KernelMemory.Machine.OneOwner | kernel/src/mm/pmm.c:78-130 | No frame has two owners among the free list, the heap and the tables and pages of all address spaces. |
| KernelMemory.Machine.Create | kernel/src/mm/vmm.c:55-71 | One more address space with nothing mapped, or none exactly when there is no frame or no room for the structure; all others unchanged, and still no frame has two owners. |
| KernelMemory.Machine.Map | kernel/src/mm/vmm.c:163-174 | The hardware finds the frame and flags at that page, no other page of the address space changes its mapping and none its contents; every other address space maps and holds what it did; still no frame has two owners. |
| KernelMemory.Machine.Unmap | kernel/src/mm/vmm.c:176-185 | One page of one address space is gone and all frames keep their contents; every other address space maps and holds what it did; still no frame has two owners. |
| KernelMemory.Machine.Fault | kernel/src/mm/vmm.c:226-259 | A handled fault gives the page the frame at the head of the free list; every other address space is unchanged; still no frame has two owners. |
| KernelMemory.Machine.Destroy | kernel/src/mm/vmm.c:90-106 | Exactly what the address space held becomes free; every other address space maps and holds what it did, the heap keeps its frames, and still no frame has two owners. |
| KernelMemory.Machine.Kmalloc | kernel/src/mm/heap.c:67-106 | kmalloc on the shared memory: its exact condition for failure, which changes nothing; a block in use that no one used before, payloads in use kept, every address space unchanged, still no frame with two owners. |
| KernelMemory.Machine.Krealloc | kernel/src/mm/heap.c:122-172 | krealloc on the shared memory: the exact condition for failure, which leaves the old block in use with its bytes; else bytes kept in a block in use; other payloads kept, every address space unchanged, still no frame with two owners. |
| KernelMemory.Machine.Kfree | kernel/src/mm/heap.c:174-182 | kfree on the shared memory: the block is free and coalesced, other payloads are kept, still no frame with two owners. |
| Feeding.FeedConcat | kernel/src/fs/ramfs/ramfs.c:182-225 | Feeding two pieces is feeding their concatenation, stopping where the first stops. |
| Feeding.FeedAgain | kernel/src/fs/ramfs/ramfs.c:182-225 | After a refusal that memory pressure makes lasting, feeding more is refused and changes nothing. |
| Feeding.FeedMore | kernel/src/fs/vfs/file.c:231-270 | In step with one large feed: a chunk taken whole extends it, a chunk cut short ends it with the same state and count. |
| SparseFile.WriteThenRead | kernel/src/fs/ramfs/ramfs.c:138-225 | On the flat reference, reading where one wrote gives what one wrote. |
| SparseFile.WalkKeepsBytes | kernel/src/fs/ramfs/ramfs.c:31-70 | Growing the page list and making a page changes no byte of the file. |
| SparseFile.WalkAgain | kernel/src/fs/ramfs/ramfs.c:31-70 | Asking for the same page again gives the same answer. |
| SparseFile.PutAllBytes | kernel/src/fs/ramfs/ramfs.c:182-225 | Exactly the bytes accepted are stored at their offsets, and the size grows to their end. |
| SparseFile.PutAllRefines | kernel/src/fs/ramfs/ramfs.c:182-225 | A sparse write, short or not, is a flat write of the accepted prefix, and leaves zeros past the size. |
| SparseFile.ChunkIsPutAll | kernel/src/fs/ramfs/ramfs.c:192-216 | Copying a chunk into one page is writing its bytes one by one. |
| SparseFile.PutAllEnough | kernel/src/fs/ramfs/ramfs.c:182-225 | With two allocations per byte a write takes everything. |
| SparseFile.HistoryIsFlat | kernel/src/fs/ramfs/ramfs.c:138-225 | Every history of reads and writes, with memory running out at any point, is a history of a flat zero-extended file. |
| Ramfs.FileNode.constructor | kernel/src/fs/ramfs/ramfs.c:72-92 | A new node is valid and empty. |
| Ramfs.FileNode.NextCount | kernel/src/fs/ramfs/ramfs.c:39-42 | The doubling loop ends with the capacity the value model has, and its byte count does not overflow. |
| Ramfs.FileNode.WalkPage | kernel/src/fs/ramfs/ramfs.c:31-70 | The doubling array yields the page or makes it as the value model does; without the allocate flag nothing changes. |
| Ramfs.FileNode.Read | kernel/src/fs/ramfs/ramfs.c:138-180 | The chunk loop delivers exactly the flat read, touches nothing behind it, makes no page and changes no state; EINVAL for a node that is no file or a NULL buffer. |
| Ramfs.FileNode.ReadLoop | kernel/src/fs/ramfs/ramfs.c:150-177 | Page by page, with holes as zeros, exactly the wanted bytes are delivered. |
| Ramfs.FileNode.WriteLoop | kernel/src/fs/ramfs/ramfs.c:185-216 | The page loop is the byte-by-byte write, with its count and its new offset. |
| Ramfs.FileNode.Write | kernel/src/fs/ramfs/ramfs.c:182-225 | The chunk loop is the byte-by-byte write, stops where memory stops, and on the contents is a flat write of the bytes counted. |
| UserMemory.LoadStored | kernel/src/mm/uaccess.c:8-24 | What was copied to the caller is what is copied back. |
| UserMemory.StoreConcat | kernel/src/mm/uaccess.c:17-24 | Copying two adjacent pieces is copying both at once. |
| UserMemory.UserHalf | kernel/src/mm/uaccess.c:8-24 | The 64-bit check with its wrap test accepts exactly the ranges that end at or below the split. |
| UserMemory.Memory.CopyToUser | kernel/src/mm/uaccess.c:17-24 | All bytes arrive, or EFAULT and none does, according to the range. |
| UserMemory.Memory.CopyFromUser | kernel/src/mm/uaccess.c:8-15 | All bytes are fetched, or EFAULT, according to the range. |
| SysFile.ReachNext | kernel/src/fs/vfs/file.c:207-216 | The next chunk is within the caller's reach exactly when it fits below the split. |
| SysFile.Node.OpsRead | kernel/src/fs/vfs/file.c:209-210 | The driver call: a flat read for a regular file, anything within the count for a character device. |
| SysFile.Node.OpsWrite | kernel/src/fs/vfs/file.c:254-255 | The driver call: the ramfs write for a regular file, any count for a character device. |
| SysFile.FlatReadPart | kernel/src/fs/vfs/file.c:207-209 | A read of a chunk further on is that part of the one large read. |
| SysFile.NextPart | kernel/src/fs/vfs/file.c:207-209 | The next chunk is the next part of the one large read, and full unless the read ends in it. |
| SysFile.ReadOnce | kernel/src/fs/vfs/file.c:207-226 | One round reads at the offset, copies out and advances; on a fault or error neither the offset nor the caller's memory changes. |
| SysFile.ReadRound | kernel/src/fs/vfs/file.c:207-226 | A round on a regular file extends the bytes delivered by the next chunk of the one large read. |
| SysFile.ReadFile | kernel/src/fs/vfs/file.c:194-229 | Reading through 512-byte chunks is one read at the starting offset as far as the caller's buffer is reachable; the offset advances by exactly the non-negative result; every error code. |
| SysFile.WriteStep | kernel/src/fs/vfs/file.c:248-267 | A chunk written whole, or cut short, is the next part of the one large write. |
| SysFile.WriteOnce | kernel/src/fs/vfs/file.c:248-267 | One round fetches, writes at the offset and advances by what was taken; on a fault neither the file nor the offset changes. |
| SysFile.WriteRound | kernel/src/fs/vfs/file.c:248-267 | A round on a regular file keeps the loop in step with the one large write. |
| SysFile.WriteFile | kernel/src/fs/vfs/file.c:231-270 | Writing through 512-byte chunks is one write, at the starting offset, of the bytes that can be fetched; the offset advances by exactly the non-negative result; every error code. |
| Endian.ValueOfLittleEndian | kernel/src/fs/vfs/file.c:120-192 | A stored little-endian field reads back as the number. |
| Dirents.RecordIsRecord | kernel/src/fs/vfs/file.c:150-177 | A packed record has every field at its offset and zero padding to its 8-byte aligned length. |
| Dirents.ReadRecord | user/src/psh/psh.c:98-111 | The shell's step over a record recovers the entry and how far the next one is. |
| Dirents.ReadRecords | user/src/psh/psh.c:98-111 | The shell's walk over a buffer of packed records recovers every entry in order and ends exactly on the length. |
| Dirents.SeekResumes | kernel/src/fs/vfs/file.c:120-192 | Seeking to the d_off of a record resumes with the entry after it. |
| Dirents.Directory.constructor | kernel/src/fs/vfs/file.c:51-68 | An open directory starts before its first entry. |
| Dirents.Directory.ReadDir | kernel/src/fs/ramfs/ramfs.c:244-264 | The entry at an index, or 0 past the last. |
| Dirents.Directory.MakeRecord | kernel/src/fs/vfs/file.c:150-177 | The record built in the kernel buffer is the record of the entry. |
| Dirents.Directory.PutEntry | kernel/src/fs/vfs/file.c:136-189 | One round packs the next entry behind the others, or says why it cannot. |
| Dirents.Directory.GetDents | kernel/src/fs/vfs/file.c:120-192 | As many whole records as fit, in order from the offset, with the offset behind the last; the result is their length, 0 at the end, EINVAL or EFAULT when not even one fits. |
| Dirents.Directory.ReadBuffer | user/src/psh/psh.c:98-111 | The same walk over the caller's memory after the records were copied there. |
| Dirents.Directory.ListSome | user/src/psh/psh.c:98-111 | With any buffer that holds each record by itself, one call and one walk recover a non-empty run of the entries ahead, unless there are none. |
| Dirents.Directory.List | user/src/psh/psh.c:92-113 | With any such buffer, repeated calls enumerate every entry once, in order, and then stop. |
| Tokenizer.TokensAreSpans | kernel/src/core/memory.c:139-174 | Each token is the text of its span. |
| Tokenizer.SpansAreMaximal | kernel/src/core/memory.c:139-174 | Each span is a maximal delimiter-free piece. |
| Tokenizer.SpansAreOrdered | kernel/src/core/memory.c:139-174 | Spans follow one another with a gap. |
| Tokenizer.SpansCover | kernel/src/core/memory.c:139-174 | Every byte that is no delimiter lies in a span. |
| Tokenizer.FirstToken | kernel/src/core/memory.c:139-174 | The first token, and the tokens behind its delimiter, make up the tokens. |
| Tokenizer.IsDelim | kernel/src/core/memory.c:132-137 | Membership in the delimiter string. |
| Tokenizer.SkipDelims | kernel/src/core/memory.c:139-174 | Finds the first byte that is no delimiter. |
| Tokenizer.ScanToken | kernel/src/core/memory.c:139-174 | Finds the end of the piece and whether a delimiter ends it. |
| Tokenizer.TakeToken | kernel/src/core/memory.c:139-174 | Terminates the piece in place and leaves the rest of the text intact behind it. |
| Tokenizer.FromStart | kernel/src/core/memory.c:139-174 | From a position in the text: the next token as a string in place, or NULL when none is left, and the tokens after it. |
| Tokenizer.StrTokR | kernel/src/core/memory.c:139-174 | Each call on the buffer yields the next token as a string in place, or NULL when none is left, and leaves the tokens after it. |
| VfsTree.SameUpToIsEqual | kernel/src/core/memory.c:75-83 | Against a name that fits its field the bounded comparison is equality. |
| VfsTree.LookupKept | kernel/src/fs/vfs/vfs.c:74-142 | A path that resolves goes on resolving to the same node in any extension of the tree. |
| VfsTree.DescendKeeps | kernel/src/fs/vfs/vfs.c:74-142 | Whatever a walk makes, no node is lost and no path resolves differently. |
| VfsTree.NewChildIsFound | kernel/src/fs/ramfs/ramfs.c:98-125 | A new child is found under its name if and only if the name fits. |
| VfsTree.CreateThenLookup | kernel/src/fs/vfs/vfs.c:74-150 | Looking up a created path gives the created node if and only if every component is shorter than 128 bytes. |
| VfsTree.LongNameIsLost | kernel/src/fs/vfs/vfs.c:74-150 | The counterexample: every longer name creates a file that cannot be found. |
| VfsTree.LeafIsNotMade | kernel/src/fs/vfs/vfs.c:152-154 | Making parents does not change what the whole path resolves to. |
| VfsTree.ParentIsFound | kernel/src/fs/vfs/vfs.c:152-154 | The node returned is a directory, and what the path without its leaf resolves to. |
| Vfs.SameUpToIsPrefix | kernel/src/fs/vfs/vfs.c:35-72 | The mount comparison is a raw prefix test. |
| Vfs.BestIsBest | kernel/src/fs/vfs/vfs.c:35-72 | The scan ends with the longest matching mount, the newest among equals, or none matches. |
| Vfs.WalkIsLookup | kernel/src/fs/vfs/vfs.c:144-146 | With nothing to make, the walk is a lookup and changes nothing. |
| Vfs.FindKept | kernel/src/fs/vfs/vfs.c:74-142 | The same through the mounts: resolvable paths keep their nodes. |
| Vfs.TokensAreNames | kernel/src/fs/vfs/vfs.c:83-90 | Components are never empty and hold no separator. |
| Vfs.FileSystem.AddMount | kernel/src/fs/vfs/vfs.c:13-33 | The newest mount comes first; without memory nothing changes. |
| Vfs.FileSystem.GetMountpoint | kernel/src/fs/vfs/vfs.c:35-72 | The best mount and the path behind it and its slashes; NULL if and only if none matches. |
| Vfs.FileSystem.FindDir | kernel/src/fs/ramfs/ramfs.c:227-242 | The first child whose stored name compares equal. |
| Vfs.FileSystem.CreateNode | kernel/src/fs/ramfs/ramfs.c:98-125 | A new last child, or an error for a non-directory, an existing name or no memory, changing nothing. |
| Vfs.FileSystem.StepNode | kernel/src/fs/vfs/vfs.c:105-135 | One component: found, or made as the flags say, or the walk ends. |
| Vfs.FileSystem.WalkTokens | kernel/src/fs/vfs/vfs.c:86-139 | The token loop over the shared buffer is the descent along the components. |
| Vfs.FileSystem.FindAndCreate | kernel/src/fs/vfs/vfs.c:74-142 | The whole walk from mount to leaf is the reference walk, and only extends the tree. |
| Vfs.FileSystem.LookupPath | kernel/src/fs/vfs/vfs.c:144-146 | A lookup changes nothing and gives what the path leads to. |
| Vfs.FileSystem.CreatePath | kernel/src/fs/vfs/vfs.c:148-150 | A created path is looked up as the node returned if and only if its components fit; every path that resolved still resolves to the same node. |
| Vfs.FileSystem.MkdirParents | kernel/src/fs/vfs/vfs.c:152-154 | The leaf is not made, the directory above it is returned, and every path that resolved still does. |
| VfsView.LookupAfterAdd | kernel/src/fs/ramfs/ramfs.c:98-125 | Adding a child adds one path and changes no other. |
| VfsView.ShowsAfterAdd | kernel/src/fs/ramfs/ramfs.c:98-125 | As a map from paths to contents: one more path and nothing else. |
| VfsView.StepFinds | kernel/src/fs/vfs/vfs.c:105-135 | A component that the map has is found, and nothing changes. |
| VfsView.StepMakes | kernel/src/fs/vfs/vfs.c:105-135 | A component that the map does not have is made, as the one path added. |
| VfsView.StepShows | kernel/src/fs/vfs/vfs.c:105-135 | One component of a walk, as a map: it is there, or it is the one path added. |
| VfsView.DescendShows | kernel/src/fs/vfs/vfs.c:74-142 | With memory enough, a walk over a compatible map succeeds and adds exactly the missing components. |
| VfsView.LookupAfterWrite | kernel/src/fs/ramfs/ramfs.c:182-225 | Contents have no part in path resolution. |
| VfsView.ShowsAfterWrite | kernel/src/fs/ramfs/ramfs.c:182-225 | A write changes the contents at one path and nothing else. |
| TarFormat.ParseOctal | kernel/src/fs/tar/tar.c:71-77 | The value of the leading octal digits, within 36 bits for a size field. |
| TarFormat.OctalReadsBack | kernel/src/fs/tar/tar.c:71-77 | A printed number with anything but a digit behind it reads back as itself. |
| TarFormat.HeaderIsHeader | kernel/src/fs/tar/tar.c:84-92 | A printed header, whatever its mode, owner, time, device and checksum fields, has every field the loader looks at. |
| TarFormat.ChecksumHolds | kernel/src/fs/tar/tar.c:50-68 | The number in the checksum field of a printed header is the sum of its bytes taken with spaces in that field, as the format demands. |
| TarFormat.PrintIsArchive | kernel/src/fs/tar/tar.c:79-137 | What a writer prints of entries, with any attributes and any number of closing blocks, is an archive of them. |
| TarFormat.ArchiveRest | kernel/src/fs/tar/tar.c:83-134 | Behind the first entry of an archive comes an archive of the others, where the loader looks for it. |
| TarWalk.RunIsLoadAll | kernel/src/fs/tar/tar.c:83-134 | If no block up to the end is malformed, the address walk loads exactly the entries of the blocks in order. |
| Tar.ReadBlock | kernel/src/fs/tar/tar.c:84-95 | A block is the end, malformed, or an entry with its path, kind, data and distance to the next. |
| Tar.LoadOne | kernel/src/fs/tar/tar.c:92-131 | One entry through the path API and the write is the reference step, with its failures. |
| Tar.LoadBlocks | kernel/src/fs/tar/tar.c:83-134 | The loop is the reference walk over the blocks, and terminates. |
| Tar.Load | kernel/src/fs/tar/tar.c:79-137 | The loader ends exactly as the reference walk; too short an archive is refused unchanged. |
| Tar.HeaderRead | kernel/src/fs/tar/tar.c:84-133 | What is read of an archived entry is the entry, and where the next begins. |
| Tar.ArchiveHasBlocks | kernel/src/fs/tar/tar.c:83-134 | The block walk finds exactly the entries of any archive, whatever the fields it does not read hold. |
| Tar.EntryIsPlaced | kernel/src/fs/tar/tar.c:92-131 | Loading one entry adds its missing parents and itself with its bytes, and nothing else. |
| Tar.LoadPlaces | kernel/src/fs/tar/tar.c:79-137 | Loading compatible entries over any tree with room puts every one in place and keeps what was there. |
| Tar.LoadsArchive | kernel/src/fs/tar/tar.c:83-134 | Whatever the walk over an archive ends with is what loading its entries in order ends with. |
| Tar.LoadFindsAll | kernel/src/fs/tar/tar.c:92-131 | Loading compatible entries in order leaves each one to be found, with its kind and bytes, and keeps what was there. |
| Tar.RoundTrip | kernel/src/fs/tar/tar.c:79-137 | Of the reference walk: any archive of compatible entries loads completely over any tree with room, each entry is found as the right kind with exactly its bytes, and what was there is still there. |
| Tar.LoadArchive | kernel/src/fs/tar/tar.c:79-137 | The loader itself, on any archive of compatible entries over any tree with room: it returns 0, every entry is found under its path with its kind and exactly its bytes, and what was there is still there. |
| Tar.EmptyHasRoom | kernel/src/fs/tar/tar.c:79-137 | On an empty filesystem the entries only have to be compatible with each other. |
| Tar.LoadFresh | kernel/src/fs/tar/tar.c:79-137 | The loader on a filesystem that is just a mounted root, on any archive of compatible entries: it returns 0 and every entry is found with its kind and bytes. |
| Tar.LoadPrinted | kernel/src/fs/tar/tar.c:79-137 | The round trip: what a ustar writer prints, with any attributes, loads completely; every entry is found with its kind and exactly its bytes. |
| ElfImage.UncoveredIsZero | kernel/src/proc/elf.c:105-149 | A page no segment covers yet is zero in the image. |
| ElfImage.PageImageByte | kernel/src/proc/elf.c:105-149 | The image page by page and the image byte by byte are the same. |
| ElfImage.OwnByte | kernel/src/proc/elf.c:135-147 | With disjoint segments each byte of a range is its own segment's, even on a shared page. |
| Elf.SegmentsAre | kernel/src/proc/elf.c:106-114 | The program headers read are those of the file, up to the first short one. |
| Elf.FetchSegment | kernel/src/proc/elf.c:106-114 | Reads header i of the file, or finds it short. |
| Elf.ReadOver | kernel/src/proc/elf.c:135-147 | The part read into a page is exactly what the segment lays over it. |
| Elf.ShortIsMissing | kernel/src/proc/elf.c:139-147 | A short read means that the file ends before what the page needs. |
| Elf.Space.constructor | kernel/src/mm/vmm.c:55-71 | An address space of its own page tables with nothing mapped. |
| Elf.Space.Seen | kernel/src/mm/vmm.c:187-194 | What the hardware walk finds for a page of the lower half is what is recorded as mapped there. |
| Elf.Space.VirtToPhys | kernel/src/proc/elf.c:120-168 | The frame of a mapped page, 0 for any other. |
| Elf.Space.NewFrame | kernel/src/proc/elf.c:123-127 | A frame from the free list that is no page's and no table, or memory ran out; mapped pages keep their contents. |
| Elf.Space.MapPage | kernel/src/proc/elf.c:129-170 | Exactly one page is mapped, to the frame and flags given; mapping a mapped page again never fails, so the second pass may ignore the result; mapped pages keep their contents. |
| Elf.Space.Fill | kernel/src/proc/elf.c:133-143 | Bytes written through the direct map change one frame and no translation. |
| Elf.Space.MapNew | kernel/src/proc/elf.c:123-132 | A frame from the free list is mapped at the page, or memory ran out; every other page keeps its contents, and a frame is lost exactly when it was taken and could not be mapped. |
| Elf.Space.AddPage | kernel/src/proc/elf.c:121-134 | A fresh page mapped and zeroed, or memory ran out; no other page changes. |
| Elf.Space.GetPage | kernel/src/proc/elf.c:119-134 | The page that is mapped, unchanged, or a fresh zeroed one; 0 only when memory ran out; no other page changes. |
| Elf.Space.ReadInto | kernel/src/proc/elf.c:135-147 | The part of the file that falls into the page is read over what is there; fails exactly when the file is too short for it. |
| Elf.Space.LoadPage | kernel/src/proc/elf.c:119-148 | The page becomes its former contents, or zeros, with the segment laid over; fails only out of memory or for a file too short. |
| Elf.Space.LoadSegment | kernel/src/proc/elf.c:114-149 | After the page loop exactly the pages of the segments so far are mapped, each with their image. |
| Elf.Space.NextSegment | kernel/src/proc/elf.c:106-149 | One round of the first pass: the header is read and its segment, if it is to be loaded, is filled; fails only out of memory, for a short header or for a file too short. |
| Elf.Space.LoadSegments | kernel/src/proc/elf.c:105-149 | The same for all segments; fails only out of memory or for an incomplete file. |
| Elf.Space.ProtectSegment | kernel/src/proc/elf.c:158-172 | Only permissions change, to those of the last segment covering the page; every remap succeeds. |
| Elf.Space.ProtectSegments | kernel/src/proc/elf.c:151-172 | The same for all segments; no frame changes. |
| Elf.Load | kernel/src/proc/elf.c:67-176 | Into real page tables: succeeds if and only if the file is an executable for the machine, is complete and memory lasts; then exactly the segments' pages are mapped, each to a frame of its own with the image's bytes and the last covering segment's permissions, and the entry is the header's. Success or not, the frames are those there were, but for one that had been taken when there was no memory for its tables. |
| Elf.EveryByte | kernel/src/proc/elf.c:105-176 | For disjoint segments every byte of every loaded range is the file's byte, or zero beyond the file size. |
| Elf.HardwareFinds | kernel/src/mm/vmm.c:187-194 | The byte recorded at a lower-half address is the byte the hardware walk finds there. |
| Elf.LoadAndDestroy | kernel/src/mm/vmm.c:90-106 | Loading a program, successfully or not, and destroying its address space gives every frame back, but for the one that had been taken when there was no memory for its tables. |
| UserStack.OneString | kernel/src/proc/elf.c:198-209 | A string copied below the others lies there, terminated, and the others are still there. |
| UserStack.OneWord | kernel/src/proc/elf.c:222-239 | A word stored below the others lies there, and the others are still there. |
| UserStack.StackedApart | kernel/src/proc/elf.c:198-209 | Two lists of strings stacked one below the other share no byte, within a list or across. |
| UserStack.TopIsAligned | kernel/src/proc/elf.c:210-216 | Whatever the strings and however many words, argc lands on a multiple of 16. |
| UserStack.PutStrings | kernel/src/proc/elf.c:198-209 | Each string lies, terminated, directly below the one before it, at the address remembered; nothing above changes. |
| UserStack.PutBoth | kernel/src/proc/elf.c:198-209 | The strings of argv and envp lie in the page and no two of them overlap. |
| UserStack.PutPointers | kernel/src/proc/elf.c:222-235 | The pointers lie in order directly below the words already there, which stay. |
| UserStack.TableStart | kernel/src/proc/elf.c:210-216 | The padding gives the start of the table. |
| UserStack.PutWords | kernel/src/proc/elf.c:218-239 | The table from argc to AT_NULL is complete. |
| UserStack.PutTable | kernel/src/proc/elf.c:210-239 | The table is laid below the strings and leaves them intact. |
| UserStack.BuildIn | kernel/src/proc/elf.c:186-239 | The page holds the strings, no two overlapping, and the table that points to them, with an aligned stack pointer. |
| UserStack.Install | kernel/src/proc/elf.c:241-244 | The frame holds the bytes and is mapped writable for the user and not executable; no other page of the address space is mapped differently and every frame a page had keeps its contents; which frame is lost is stated. |
| UserStack.Place | kernel/src/proc/elf.c:182-244 | The same with a frame from the free list; fails only when memory ran out. |
| UserStack.Build | kernel/src/proc/elf.c:178-247 | In real page tables: the page below the stack top is mapped and laid out, no two strings overlapping, with the stack pointer returned 16-byte aligned at its argc; no other page is mapped differently and every frame a page had keeps its contents; 0 only when memory ran out, and then nothing is mapped differently. Lost is only the frame that page had before, or the new one when there was no memory for its tables. |
| UserStack.ReadArgs | kernel/src/proc/elf.c:229-239 | Following argc pointers recovers the strings. |
| UserStack.ReadEnv | kernel/src/proc/elf.c:221-227 | Following pointers up to the NULL recovers the strings. |
| UserStack.ReadBack | kernel/src/proc/elf.c:178-247 | Reading argc, argv, NULL, envp, NULL and AT_NULL upwards from the stack pointer recovers exactly the strings given. |
| Process.ImageKept | kernel/src/core/main.c:143-144 | A loaded image whose frames keep their contents stays that image. |
| Process.AddStack | kernel/src/core/main.c:144-145 | Building a stack in an address space in use: its pages are then the old ones and the stack's; all frames that pages had keep their contents; which frame is lost is stated. |
| Process.Prepare | kernel/src/core/main.c:143-145 | Loading a program and building its stack: on success the whole image is there with bytes and permissions, the stack is laid out, and the address space maps these pages and nothing else. The image is complete unless one of its pages is the stack's, and only then is a frame lost. Failure has one of four reasons. |
| Process.ProgramIsThere | kernel/src/core/main.c:143-145 | For disjoint segments the hardware walk then finds the program's byte, or zero, at every address of every segment outside the stack's page. |
| Process.NewSpace | kernel/src/core/main.c:140-141 | A context with nothing mapped whose frames are those that were free, or none exactly when there is no frame or no room. |
| Process.StartInit | kernel/src/core/main.c:140-145 | The whole start of init: context, program and stack, or a reason why not; all frames are accounted for, at most one lost. |
| Process.StartAndDestroy | kernel/src/core/main.c:140-145 | A process that is started and torn down leaves the free list with the frames it had, but for at most one; with none lost if it started and no segment covers the stack's page. |

## Left out

- Assembly, model-specific registers, TLB invalidation, root register access and the hardware drivers: only the interrupt mask and who is on the CPU are kept.
- Trap and switch frames, FPU state, kernel stack guards and the frame-ownership panics of `sched_on_trap_exit`: layout tied to assembly.
- Synchronous faults inside a section that holds the console lock, and tasks added while the scheduler runs.
- fork, clone, wait4 and reaping: there is no code for them.
- Framebuffer, console output, kprintf, boot, command line, ring buffer, timer, the syscall table and kcalloc: easy members.
- Upper-half mappings and faults on device memory in the direct map.
- The descriptor table: range checks, EBADF, ENOTDIR, open, close, reference counts, and lseek beyond resuming a directory at an offset.
- Null-pointer argument checks, except where a row names them.
- The error branch of `sys_getdents64` for a failing readdir: the only readdir cannot fail on a directory.
- Device nodes and mount roots other than directories in the tree, and the sibling links, which are a list of children per directory.
- Heap.KernelHeap.Krealloc: memory is a map from addresses to cells, with a header as one typed cell; the byte layout of the header fields is not modelled.
- Heap.KernelHeap.constructor: requires that mapped pages end below 2^64, as the direct map does.
- Pmm.Memory.Free: requires that the frames are not already free, as its callers must see to; the code does not check.
- Vmm.AddressSpace.WalkCreating: lower-half addresses only; the kernel's own upper half, walked from its root, is not modelled.
- Vmm.AddressSpace.WalkFinding: lower-half addresses only, likewise.
- Vmm.AddressSpace.MapPage: lower-half addresses only; locking is not modelled.
- Vmm.AddressSpace.UnmapPage: lower-half addresses only, likewise.
- Vmm.AddressSpace.VirtToPhys: lower-half addresses only, likewise.
- Teardown.OwnedSpace.Map: requires that the frame mapped is nobody else's, or the page's own, as conservation needs; the code does not check.
- KernelMemory.Machine.Map: the same, of all address spaces and the heap.
- KernelMemory.Machine.constructor: requires, like the heap, that memory ends below 2^64; heap cells and the words of the pages they lie in are two maps, and only their frames are related.
- Ramfs.FileNode.Write: requires that offset plus size does not wrap around 64 bits; once memory has run out in a call it does not come back during that call.
- SysFile.WriteFile: requires that offset plus count does not wrap around 64 bits, for the same reason.
- SysFile.Node.OpsRead: a character device driver is arbitrary, so nothing is said about the bytes it gives; the console read is modelled in `Protocol`.
- SysFile.Node.OpsWrite: a character device driver is arbitrary, so nothing is said about what it does with the bytes.
- VfsView.ShowsAfterWrite: nodes in the tree hold file values; their write is the value model that the ramfs code is proved equal to.
- Tar.RoundTrip: files and directories with names of at most 99 bytes, the prefix field being one the loader does not read; entries are required to be compatible (no path under a file, no kind conflict).
- Tar.LoadArchive: the same entries, and the requirement of `Tar.Load`.
- Tar.LoadFresh: likewise.
- Tar.LoadPrinted: likewise; printed entries have an empty prefix and link name.
- Tar.LoadBlocks: requires that the archive ends far enough below 2^64 for the address not to wrap.
- SparseFile.PutAllEnough: memory for files and nodes is a count of allocations that still succeed, not the heap of `Heap`.
- Tar.Load: requires that the archive ends far enough below 2^64 for the address not to wrap; memory behind the archive is readable.
- Process.StartInit: starts after path lookup and ends before the task structure; the same requirement on segments as `Elf.Load`.
- Elf.Load: starts after path lookup; requires segments in the lower half whose sums do not wrap around 64 bits.
- UserStack.PutBoth: requires that the strings fit in the page; the code does not check.
- UserStack.BuildIn: requires that strings and table fit in the page, likewise.
- UserStack.Build: requires that strings and table fit in the page, likewise, and a page-aligned stack top in the lower half.
