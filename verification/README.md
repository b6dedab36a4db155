# JOS, verified in Dafny

This project models the hard core of JOS, the MIT teaching kernel with its labs filled in, and
proves what that core is for.  Every statement below is for all inputs, all states that satisfy
the invariant or all runs.

| file | what it models |
|---|---|
| `Paging.dfy`, `PageTables.dfy` | physical pages, the free list, 16-bit reference counts, two-level page tables |
| `Addresses.dfy` | virtual addresses: the processor's page walk against the kernel's page-table entries |
| `HighMappings.dfy` | mappings above UTOP: what `page_insert` does to the kernel's half of an address space |
| `KernelMemory.dfy`, `KernelRun.dfy` | `kern/pmap.c`, `kern/env.c` and the page, IPC and fork system calls, in place, and whole runs of them |
| `EnvTable.dfy` | environment identifiers |
| `Smp.dfy`, `Trap.dfy` | several processors, the big kernel lock, scheduling and IPC as a step system; the kernel's work under the lock, in place |
| `CowFork.dfy` | copy-on-write fork against eager copying |
| `Upcall.dfy` | user-level page faults: the kernel's push and the assembly upcall, instruction by instruction |
| `FsImage.dfy`, `FileSystem.dfy` | block allocation, file contents, truncation, flushing |
| `BlockCache.dfy` | the write-back block cache |
| `Paths.dfy` | directories, path lookup and file creation |
| `OpenFiles.dfy` | the file server's table of open files, and its request page |
| `PipeRing.dfy`, `PipeClose.dfy`, `PipeEnd.dfy` | pipes: the ring buffer, the closed test, and both together at end of file |
| `Stabs.dfy` | the binary search over stabs |
| `Numbers.dfy` | printing and parsing numbers |
| `Common.dfy` | options and bytes |

Objects that the code updates in place are classes whose methods are proved against functions on
values; the invariants and laws are lemmas about those functions.  Protocols whose point is
interleaving (processors, fork, pipes, nested faults) are step functions over states, and their
theorems quantify over whole runs.

## How the model reads the code

- A page-table entry is a frame and a set of flag bits; a bitmap word is the set of its one bits.
  Ghost bookkeeping (`Book`, `owner`) says what each page or block is for; the invariants tie it to
  the real fields.
- `pp_ref` is a 16-bit field and wraps in the model.  Counts stay right after a mapping exactly
  when the page had room for one more reference (`RoomFor`); see `SysPageMap` and `InsertBound`.
- Effects of the page calls are stated twice: on page-table entries, where the counts are, and on what the
  processor's walk (`Addresses.Translate`) finds at every virtual address of every environment.
- Above UTOP every directory has the page tables that `boot_map_region` filled, and itself at UVPT
  (`HighMappings.KernelHalf`); these tables and the pages they map are part of the state.
- `struct File` records and the bitmap are kept beside the data blocks rather than inside them.
- The file server's request page lies just below the disk map, so a copy past its end goes into
  block 0 (`OpenFiles.FileServer.map0`) and then into the superblock.
- Fork, pipes, scheduling and IPC treat each system call as one step under the kernel lock; the lock
  itself is modelled one memory access at a time.
- I/O, clocks and allocation failures are parameters: `mem`, `memory` and `ok` say whether an
  allocation succeeds, `Call` is what a process asks for.  In `PipeRing` the answer of the closed test
  is a parameter; `PipeEnd` takes it from the machine of `PipeClose`.

## Where the code falls short of what its comments say

Each of these is proved, with its exact condition.

- `sys_ipc_try_send` inserts the page without looking at the receiver's `env_ipc_dstva`.  Below UTOP
  the counts stay right iff the page has room for a reference; above, iff the page is mapped at that
  very address already (`HighMappings.AboveExact`, `KernelMemory.Kernel.SysIpcTrySend`).  A receiver
  that calls `ipc_recv` without an address waits at UTOP, where the environment table is mapped: a
  page sent there puts the table's first page on the free list (`HighMappings.EnvsPageFreed`).  Where
  the entry maps a page beyond physical memory, `pa2page` panics (result `PANIC`).
- `sys_ipc_try_send` sets `env_ipc_perm` only when a page is sent.  Its comment promises 0 otherwise; the
  field keeps its old value (`KernelMemory.Kernel.SysIpcTrySend`), so it is 0 iff it was.
- The page calls take a permission with either of `PTE_U` and `PTE_P`; their comments ask for both.
  `KernelMemory.Grantable` is what they accept.
- `devpipe_write` returns 0 when the readers are gone, whatever it has stored (`PipeRing.WriteStores`).
- `sys_env_set_status` and `env_destroy` check neither that the target is off every other processor
  nor that it is not waiting for a message.  The invariant survives a step exactly when the target is
  not (`Smp.GuardExact`); a parent that wakes a child waiting for a message breaks it
  (`Smp.UnguardedBreaks`).
- `duppage` tests for writable or copy-on-write before it tests for `PTE_SHARE`, so a shared page stays
  shared iff it is neither (`CowFork.SharedOnlyIfReadOnly`); the fork theorem follows the code.
- `serve_read` does not cut the count at the page.  The reply is complete iff at most 4096 bytes are
  copied, and file-system state survives iff at most 8192 are (`OpenFiles.HitsExactly`,
  `OpenFiles.StateHit`, `OpenFiles.FileServer.ServeRead`).  `user/cat.c` asks for 8192
  (`OpenFiles.CatOverruns`).
- `serve_write` cuts the count at 4096, but the request has room for 4088 bytes.  What is stored is the
  client's iff the count is at most 4088; at 4096 the last eight bytes are block 0's
  (`OpenFiles.TakenFromClient`, `OpenFiles.TakenAtLimit`).
- `file_flush` computes a block count that overflows within 4095 bytes of 2^31, and then writes no data
  block.  The disk alone has the file's contents iff there is no overflow or the disk had the data
  already (`FileSystem.FileSystem.FileFlush`); a file that loses data is `FileSystem.NearLimitLost`.
- `devpipe_read` tests for an empty pipe and then for closed writers.  At end of file the reader has
  had every byte iff none was published between the two tests (`PipeEnd.EndOfFile`); a run that leaves
  a byte unread is `PipeEnd.ByteLeftUnread`.
- `stab_binsearch` increments `addr` after an exact match and can then take a stab at `addr + 1` for a
  match, or wrap to zero.  The answer is wrong iff `Stabs.Misled` holds and `Stabs.Repaired` does not.  A
  region whose stabs all lie above `addr` does not come back empty, as the comment promises.
- `%d` prints the minus sign before the padding, so a blank-padded negative number does not read back
  (`Numbers.PrintParseNegative`).
- An open-file identifier of 2^31 or more is returned as a negative `int`, which callers take for an
  error (`OpenFiles.FileServer.OpenfileAlloc`).

## Model

| member | source | states |
|---|---|---|
| `KernelRun.Run` | lab/kern/syscall.c:73-483 | any sequence of page, IPC, exofork and free calls, failures included, has the effects of its calls one by one and keeps the invariant in every state: every `pp_ref` is the number of references from page tables, directories and roots, and the free list is duplicate-free and holds exactly the unreferenced pages; it stops only at a call of a dead environment, one that breaks the counts or one that panics |
| `KernelRun.Perform` | lab/kern/syscall.c:73-483 | each call of a live environment changes the address-space map, what the processor finds at each virtual address, and the environments exactly as its arguments say, or not at all when it fails, and keeps the invariant iff a page it maps has room for a reference, or is sent above UTOP to where it is mapped already |
| `KernelRun.EffectSeen` | lab/kern/syscall.c:198-345 | each call has the same effect on what the processor finds at every virtual address of every environment: one page set or cleared, or nothing; a freed environment has no page left |
| `KernelRun.InvCounts` | lab/kern/pmap.c:387-449 | the invariant gives the count and free-list facts for every physical page |
| `PageTables.FreeIsUnreferenced` | lab/kern/pmap.c:387-449 | a page is on the free list iff its count is zero iff nothing names it and it is not reserved; otherwise its count is the number of sites naming it |
| `PageTables.FreePageUnmapped` | lab/kern/pmap.c:420-438 | a page on the free list is mapped nowhere |
| `PageTables.AllocStep` | lab/kern/pmap.c:387-413 | taking a page off the list keeps the invariant and leaves the page unreferenced |
| `PageTables.WalkStep` | lab/kern/pmap.c:474-512 | making a page table on demand keeps the invariant; failure changes nothing |
| `PageTables.WalkMap` | lab/kern/pmap.c:474-512 | making a page table changes no user mapping |
| `PageTables.RemoveStep` | lab/kern/pmap.c:651-670 | removing a mapping keeps the invariant and frees the page exactly when it was the last |
| `PageTables.InsertStep` | lab/kern/pmap.c:568-591 | inserting keeps every count equal to the references, including re-insertion of the same page |
| `PageTables.InsertMap` | lab/kern/pmap.c:568-591 | insertion sets one key of the address-space map and no other |
| `PageTables.InsertThenLookup` | lab/kern/pmap.c:568-633 | insert then lookup finds the inserted page, re-insertion included; every other address of every address space finds what it found |
| `PageTables.RemoveThenLookup` | lab/kern/pmap.c:605-670 | remove then lookup finds nothing; every other address finds what it found |
| `PageTables.InsertBound` | lab/kern/pmap.c:568-591 | counts still fit 16 bits iff there was room for one more reference |
| `PageTables.InsertFrame` | lab/kern/pmap.c:568-591 | insertion leaves the contents of mapped pages alone and no page loose |
| `PageTables.InsertWidens` | lab/kern/pmap.c:568-591 | the directory entry above an inserted page grants all that the page's own entry does |
| `PageTables.RootStep` | lab/kern/env.c:168-214 | a zeroed page becomes a page directory and the invariant holds |
| `PageTables.DropTable` | lab/kern/env.c:485-505 | an emptied page table is unhooked and freed |
| `PageTables.DropRoot` | lab/kern/env.c:507-510 | an emptied directory is freed |
| `KernelMemory.Kernel.Boot` | lab/kern/pmap.c:308-372 | after page_init and env_init the invariant holds and exactly the unused pages are free |
| `KernelMemory.Kernel.BootTable` | lab/kern/pmap.c:525-539 | one page table of a kernel region is hooked into kern_pgdir and filled; the invariant holds and the page stays out of the free list |
| `KernelMemory.Kernel.PageInit` | lab/kern/pmap.c:308-372 | the free list is exactly the pages outside page 0, the hole and boot allocations, and MPENTRY |
| `KernelMemory.Kernel.EnvInit` | lab/kern/env.c:118-134 | all slots are free, in ascending order |
| `KernelMemory.Kernel.PageAlloc` | lab/kern/pmap.c:387-413 | takes the head of the list, zeroed on request, or fails without change |
| `KernelMemory.Kernel.PageFree` | lab/kern/pmap.c:420-438 | pushes an unreferenced page; its panic condition is excluded at every call |
| `KernelMemory.Kernel.PageDecref` | lab/kern/pmap.c:445-449 | drops one reference and frees the page at zero |
| `KernelMemory.Kernel.PgdirWalk` | lab/kern/pmap.c:474-512 | for every address, kernel half included: finds or makes the page table; null exactly when it is missing and may not or cannot be made; a new table is empty and open to user code |
| `KernelMemory.Kernel.PageLookup` | lab/kern/pmap.c:605-633 | for every address: the page mapped there and where its entry lies, or none |
| `KernelMemory.Kernel.PageRemove` | lab/kern/pmap.c:651-670 | for every address: clears the entry and drops the reference, or does nothing |
| `KernelMemory.Kernel.PageInsert` | lab/kern/pmap.c:568-591 | for every address: maps the page, replacing what was there; fails without change exactly when no page table can be had |
| `KernelMemory.Kernel.SysPageAlloc` | lab/kern/syscall.c:198-245 | exact result codes; the page at va becomes a zeroed new one with perm, every other virtual page of every environment translates as before, data is kept, and the allocation is undone on failure |
| `KernelMemory.Kernel.SysPageMap` | lab/kern/syscall.c:264-318 | exact result codes, -E_INVAL iff an argument is bad, srcva unmapped or write access asked for a read-only page; dstva then translates to srcva's page with perm and every other virtual page as before; the invariant holds afterwards iff the page had room for a reference |
| `KernelMemory.Kernel.SysPageUnmap` | lab/kern/syscall.c:328-347 | exact result codes; va translates to nothing, every other virtual page as before, and the invariant holds |
| `KernelMemory.Kernel.SysIpcTrySend` | lab/kern/syscall.c:388-456 | exact result codes, the panic of pa2page included; delivers value, sender and, with a page, perm; the receiver's dstva, wherever that is, gets srcva's page and every other virtual page translates as before; wakes the receiver; failure changes nothing.  After a page is sent the invariant holds iff some bookkeeping fits the state iff the page had room (below UTOP) or was mapped there already (above) |
| `KernelMemory.Kernel.SysIpcRecv` | lab/kern/syscall.c:470-483 | marks the caller as receiving and not runnable, or rejects an unaligned dstva |
| `KernelMemory.Kernel.EnvSetupVm` | lab/kern/env.c:168-214 | the new directory word by word: empty below UTOP, itself read-only at UVPT, elsewhere the kernel's |
| `KernelMemory.Kernel.EnvAlloc` | lab/kern/env.c:225-286 | takes the first free slot and gives it a new identifier and an empty address space, or fails without change |
| `KernelMemory.Kernel.SysExofork` | lab/kern/syscall.c:73-95 | a new, not runnable child with no mappings; exact error codes |
| `KernelMemory.Kernel.ClearSpace` | lab/kern/env.c:485-505 | the two nested loops remove every user mapping and page table of the environment and nothing else |
| `KernelMemory.Kernel.EnvFree` | lab/kern/env.c:470-517 | removes exactly the environment's references, and exactly the pages it alone referenced become free |
| `KernelMemory.FreedExactly` | lab/kern/env.c:470-517 | newly free pages are exactly those whose every reference was the environment's |
| `Addresses.AddressParts` | lab/inc/mmu.h:16-45 | directory index, table index and offset put together are the address, and exactly the addresses below UTOP have a directory index below PDX(UTOP) |
| `Addresses.PteOfExact` | lab/inc/mmu.h:16-45 | two addresses have the same entry iff they lie in the same page of the same environment |
| `Addresses.WalkFinds` | lab/kern/pmap.c:474-512 | below UTOP the processor's walk finds exactly the entry the kernel keeps for the address |
| `HighMappings.LowInsert` | lab/kern/pmap.c:568-591 | below UTOP insertion at any address is the insertion that the counting lemmas are about |
| `HighMappings.AboveExact` | lab/kern/syscall.c:388-456 | after a page is sent above UTOP, into a kernel table, a missing table or the directory itself at UVPT, some bookkeeping makes the counts right iff the page was mapped at that very address |
| `HighMappings.EnvsPageFreed` | lab/lib/ipc.c:26-30 | a page sent to a receiver that waits at UTOP frees the first page of the environment table, and no bookkeeping fits the counts |
| `EnvTable.NextIdIssued` | lab/kern/env.c:238-242 | a new identifier is positive and carries its slot number, across 32-bit wrap-around |
| `EnvTable.LiveIdsDistinct` | lab/kern/env.c:238-242 | live identifiers are positive, distinct and name their slot |
| `EnvTable.Envid2EnvExact` | lab/kern/env.c:76-109 | 0 is the caller; otherwise found iff a live environment has that identifier and the caller may touch it |
| `EnvTable.StaleIdRejected` | lab/kern/env.c:76-109 | an old identifier is rejected unless its slot has been reissued a multiple of 2^19 - 1 times |
| `Smp.StepKeepsInv` | lab/kern/trap.c:362-419 | every step of every processor keeps the multi-processor invariant, under the guards |
| `Smp.GuardExact` | lab/kern/syscall.c:105-127 | a step keeps the invariant iff the guards on set_status and destroy hold |
| `Smp.CallEffect` | lab/kern/syscall.c:63-483 | each system call of a running environment, on the whole table: yield runs the RUNNABLE slot nearest after the caller, which waits, or goes on if there is none; set_status, destroy, exofork, send and receive change exactly their record |
| `Smp.IdleEffect` | lab/kern/trap.c:385-401 | a woken processor looks for work; an environment destroyed from elsewhere is freed at its next kernel entry |
| `Smp.EntersKernel` | lab/kern/trap.c:362-389 | a trap, or the interrupt that ends a halt, takes a free lock and gets to work, changing nothing else |
| `Smp.LeavesKernel` | lab/kern/env.c:604-611 | the way out frees the lock and ends in user code or halted |
| `Smp.PickNearest` | lab/kern/sched.c:33-58 | the search finds the RUNNABLE slot at the least cyclic distance |
| `Smp.UnguardedBreaks` | lab/kern/syscall.c:105-127 | a state satisfying the invariant and an unguarded set_status that breaks it |
| `Smp.Safety` | lab/kern/env.c:524-612 | in every guarded run from boot: no panic, at most one lock holder, and whenever the lock is free the RUNNING and DYING environments are exactly those on processors, one each |
| `Smp.LockStep` | lab/kern/spinlock.c:61-116 | each memory access of the lock protocol keeps lock word, owner field and program counters consistent |
| `Smp.LockBalance` | lab/kern/trap.c:376-389 | each kernel entry takes the lock exactly once and each exit frees it exactly once |
| `Smp.PickFinds` | lab/kern/sched.c:33-58 | the search finds a RUNNABLE environment iff there is one |
| `Smp.MessageIntact` | lab/kern/syscall.c:388-456 | sender and value stay as sent until the environment next receives, over every run |
| `Smp.Rendezvous` | lab/kern/syscall.c:388-483 | between two successful sends to an environment it has received |
| `Smp.MessageBalance` | lab/kern/syscall.c:388-483 | successful sends, abandoned receives and the pending one add up to the receives |
| `Smp.BoundedWaiting` | lab/kern/sched.c:33-58 | on any processor, an environment that stays RUNNABLE is passed over at most NENV - 2 times |
| `Smp.Closer` | lab/kern/sched.c:41-53 | every decision that passes it over strictly shortens its cyclic distance, and no other step lengthens it |
| `Trap.Machine.EnvRun` | lab/kern/env.c:569-612 | the whole state after a context switch |
| `Trap.Machine.SchedYield` | lab/kern/sched.c:12-65 | the loop dispatches the first RUNNABLE environment round from the current one, else the current one, else halts |
| `Trap.Machine.SchedHalt` | lab/kern/sched.c:71-113 | the scan enters the monitor iff nothing can ever run, else marks the processor halted |
| `Trap.Machine.EnvDestroy` | lab/kern/env.c:524-540 | an environment running elsewhere is only marked; otherwise it is freed, and the caller reschedules if it was the current one |
| `Trap.Machine.Syscall` | lab/kern/syscall.c:44-483 | the effect of each call on the environment table |
| `Trap.Machine.Trap` | lab/kern/trap.c:385-419 | trap() in place equals one step of the multi-processor system, and has the effect of its system call |
| `CowFork.KeepStep` | lab/lib/fork.c:15-199 | every step of faults, writes and forks keeps the copy-on-write invariant: a page mapped writable has one mapping |
| `CowFork.ForkRefinesCopying` | lab/lib/fork.c:144-199 | in every interleaving over any tree of forks, every read returns what private, eagerly copied memories would |
| `CowFork.ForkIsCopying` | lab/lib/fork.c:144-199 | the same from any quiet state, against its own private copy |
| `CowFork.DumbPageCopies` | lab/user/dumbfork.c:26-38 | dumbfork's duppage (allocate, map at UTEMP, copy, unmap) makes the page copy of fork's specification and changes no other page |
| `CowFork.DumbForkCopies` | lab/user/dumbfork.c:65-72 | its loop gives the child private copies of exactly the pages it walks, as the specification of fork does |
| `CowFork.SharedOnlyIfReadOnly` | lab/lib/fork.c:83-125 | duppage keeps a PTE_SHARE page shared iff it is neither writable nor copy-on-write |
| `CowFork.ChildComplete` | lab/lib/fork.c:162-199 | in every run from a quiet state, a child that becomes runnable has below 0xEEBFE000 exactly its parent's pages with the copied contents, at 0xEEBFF000 a zeroed page that it alone has and may write, and nothing else |
| `CowFork.ForkGoesOn` | lab/lib/fork.c:162-199 | a fork under way always has a next step, each brings it nearer to its end, and it ends with the launch |
| `CowFork.FaultGoesOn` | lab/lib/fork.c:15-69 | so does a fault |
| `CowFork.FaultResolved` | lab/lib/fork.c:40-69 | when pgfault returns the page is writable with its contents and PFTEMP is unmapped |
| `CowFork.HandlerTouches` | lab/lib/fork.c:40-69 | pgfault changes no mapping and no data but the faulting page's and that at 0x7ff000 |
| `CowFork.KeepPfMap` | lab/lib/fork.c:40-69 | the handler's remapping step keeps the invariant |
| `CowFork.KeepDupMap` | lab/lib/fork.c:83-125 | duppage's first mapping keeps the invariant |
| `CowFork.KeepDupRemap` | lab/lib/fork.c:83-125 | duppage's second mapping keeps it, whether or not the parent wrote in between |
| `Upcall.TakeRestores` | lab/lib/pfentry.S:34-89 | however faults nest within the exception stack, the upcall restores every register, eflags, eip and esp and every saved frame |
| `Upcall.NestedFaultsUnwind` | lab/lib/pfentry.S:34-89 | a fault, however others nest in it, is undone without a trace iff the exception stack has the bytes it needs (56 a frame, 8 for the call, the handler's depths, the stack pointer of each paused instruction); otherwise the environment is destroyed |
| `Upcall.TakeDone` | lab/kern/trap.c:482-508 | a fault unwinds iff its need fits between the bottom of the exception stack and the stack pointer |
| `Upcall.TakeAllDone` | lab/kern/trap.c:482-508 | the same for faults one after the other |
| `Upcall.RunDone` | lab/lib/pfentry.S:34-89 | the same from any instruction of the upcall |
| `Upcall.HandlerDone` | lab/lib/pfentry.S:34-40 | the same from any point of the handler |
| `Upcall.TakeAllRestores` | lab/kern/trap.c:482-508 | the same for faults one after the other at one instruction |
| `Upcall.RunRestores` | lab/lib/pfentry.S:34-89 | from any instruction of the upcall, with faults possible at each |
| `Upcall.StageStart` | lab/kern/trap.c:482-508 | the kernel's push puts the frame below a free word and disturbs no outer frame |
| `Upcall.HandlerSees` | lab/kern/trap.c:482-508 | the handler starts with its return address on top of the stack and above it the address of a frame that holds faulting address, error code, registers, eip, eflags and esp at their offsets, whatever faults came between |
| `Upcall.TakeSplits` | lab/lib/pfentry.S:34-40 | that start is a point of the run the other theorems speak of |
| `Upcall.StageNested` | lab/lib/pfentry.S:66-89 | a fault at an upcall instruction leaves that instruction's stage intact |
| `Upcall.HandlerReturns` | lab/lib/pfentry.S:34-40 | the C handler returns to the upcall with the frame intact, whatever it faults on |
| `FsImage.Conservation` | lab/fs/fs.c:30-81 | free, owned and reserved blocks add up to the disk |
| `FsImage.Ownership` | lab/fs/fs.c:149-224 | nonzero block numbers are pairwise distinct, in range, in use and not reserved |
| `FsImage.AttachStep` | lab/fs/fs.c:149-224 | allocating a block for a slot keeps ownership |
| `FsImage.AttachBytes` | lab/fs/fs.c:199-224 | filling a hole changes no file's contents |
| `FsImage.DetachStep` | lab/fs/fs.c:444-456 | giving a block back keeps ownership |
| `FsImage.DetachBytes` | lab/fs/fs.c:444-456 | only the dropped block's bytes change, to zero |
| `FileSystem.FileSystem.BlockIsFree` | lab/fs/fs.c:30-37 | the bitmap bit, false past the end of the disk |
| `FileSystem.FileSystem.FreeBlock` | lab/fs/fs.c:41-47 | exactly that block becomes free |
| `FileSystem.FileSystem.AllocBlock` | lab/fs/fs.c:58-81 | takes the lowest free block, fails exactly when there is none |
| `FileSystem.FileSystem.FileBlockWalk` | lab/fs/fs.c:149-188 | exact error conditions; allocates at most the indirect block; no contents change |
| `FileSystem.FileSystem.FileGetBlock` | lab/fs/fs.c:199-224 | the block of that file block, allocated for a hole, without changing contents |
| `FileSystem.FileSystem.FileRead` | lab/fs/fs.c:389-410 | the matching slice: count bytes or up to the end of the file, none past it; no file's bytes or size change; -E_INVAL only if the range passes the largest file size, -E_NO_DISK only if no block is free, success only if the range lies below that size |
| `FileSystem.FileSystem.FileWrite` | lab/fs/fs.c:418-439 | exactly the bytes written change, the size becomes the maximum, no other file changes; the same exact error conditions, and on an error a prefix is written |
| `FileSystem.FileSystem.FileFreeBlock` | lab/fs/fs.c:444-456 | exactly that block is given back; exact result codes |
| `FileSystem.FileSystem.FileTruncateBlocks` | lab/fs/fs.c:468-483 | frees exactly the blocks past the new size, and the indirect block once it is empty |
| `FileSystem.FileSystem.FileSetSize` | lab/fs/fs.c:487-494 | the size becomes newsize, dropping exactly the blocks past it; extending changes no byte |
| `FileSystem.FileSystem.FileFlush` | lab/fs/fs.c:501-515 | decoding the file from disk alone gives its record and bytes iff the block count does not overflow or the disk had the data already; on overflow no data block is written |
| `FileSystem.NearLimitLost` | lab/fs/fs.c:501-515 | a well-formed image whose file of 2^31 - 1 bytes has data that the flush leaves off the disk |
| `BlockCache.Cache.Fault` | lab/fs/bc.c:30-75 | faulting in leaves every block's value alone and the page clean |
| `BlockCache.Cache.Write` | lab/fs/bc.c:14-25 | only the written block's value changes, and its page is dirty |
| `BlockCache.Cache.Flush` | lab/fs/bc.c:85-117 | the disk gets the block's value; no value changes |
| `BlockCache.Cache.Sync` | lab/fs/fs.c:520-525 | afterwards the disk alone holds every block's value |
| `BlockCache.RunOps` | lab/fs/bc.c:30-117 | any run of reads, writes and flushes returns what a plain disk would |
| `Paths.Directories.DirLookup` | lab/fs/fs.c:231-254 | the first record of that name, or none |
| `Paths.Directories.WalkPath` | lab/fs/fs.c:302-349 | equals component-wise lookup on the path split at runs of slashes, with the same failures |
| `Paths.Directories.SkipSlashes` | lab/fs/fs.c:288-293 | skips exactly the leading slashes |
| `Paths.Directories.DirAllocFile` | lab/fs/fs.c:259-284 | the first unnamed record, or the first of a new block |
| `Paths.Directories.FileCreate` | lab/fs/fs.c:358-375 | exact result codes; afterwards the path opens to the new record, every other path that opened still opens the same record, and names stay distinct |
| `Paths.Directories.FileOpen` | lab/fs/fs.c:380-383 | finds a record iff the path resolves to it |
| `Paths.OpensExact` | lab/fs/fs.c:302-349 | a path opens a record iff a chain of directories leads from the root to it, component by component, with names under 128 characters |
| `Paths.SplitJoined` | lab/fs/fs.c:302-349 | a path splits into the components it was made of, with any runs of slashes before, between and after |
| `Paths.CreatedOpens` | lab/fs/fs.c:358-375 | the created path resolves to the new record |
| `Paths.StillOpens` | lab/fs/fs.c:358-375 | every path that resolved before resolves to the same record |
| `Paths.NameOk` | lab/fs/fs.c:358-375 | naming a record with a name not there yet keeps names distinct |
| `OpenFiles.FileServer.ServeInit` | lab/fs/serv.c:52-61 | each entry starts with its slot number as identifier |
| `OpenFiles.FileServer.OpenfileAlloc` | lab/fs/serv.c:65-84 | the first entry no client holds gets the next identifier; exact failures |
| `OpenFiles.FileServer.OpenfileLookup` | lab/fs/serv.c:88-97 | answers a slot iff some client holds that slot open under the identifier, and -E_INVAL otherwise |
| `OpenFiles.LookupExact` | lab/fs/serv.c:88-97 | a lookup finds a slot iff a client holds it open under that identifier |
| `OpenFiles.StaleFileRejected` | lab/fs/serv.c:88-97 | an old identifier is rejected unless its slot was reissued a multiple of 2^22 times, so always below 2^31 |
| `OpenFiles.FileServer.ServeRead` | lab/fs/serv.c:208-233 | the slice at the descriptor's offset goes to the request page and moves the offset past it; the reply holds all of it iff it has at most 4096 bytes; up to 8192 the rest is in block 0's page and no file changes |
| `OpenFiles.FileServer.ServeWrite` | lab/fs/serv.c:241-265 | at most 4096 bytes are stored at the offset, which moves past them: the client's up to 4088, then block 0's; exact error conditions, with a prefix stored on error |
| `OpenFiles.HitsExactly` | lab/fs/serv.c:224-225 | copying n bytes to the request page writes into block b of the disk map iff n > 4096(b + 1) |
| `OpenFiles.StateHit` | lab/fs/serv.c:224-225 | file-system state is overwritten iff more than 8192 bytes are copied |
| `OpenFiles.CatOverruns` | lab/user/cat.c:5-16 | a read of 8192 bytes overruns the reply into block 0, and one byte more reaches the superblock |
| `OpenFiles.TakenFromClient` | lab/fs/serv.c:256-257 | the bytes taken for the client's do not depend on block 0 iff the count is at most 4088 |
| `OpenFiles.TakenAtLimit` | lab/fs/serv.c:256-257 | at 4096 the last eight bytes are the first of block 0 |
| `OpenFiles.WriteReadsBack` | lab/fs/fs.c:389-439 | file_write followed by file_read at its offset gives back what was written, and fails only for want of a block |
| `PipeRing.StepInv` | lab/lib/pipe.c:105-172 | every emptiness test, closed answer, byte access and increment, each a step of its own, keeps the ring invariant and only appends |
| `PipeRing.Fifo` | lab/lib/pipe.c:105-172 | in every interleaving below 2^31 bytes: 0 <= wpos - rpos <= 32 and the bytes read are a prefix of the bytes written |
| `PipeRing.ReadGetsNext` | lab/lib/pipe.c:105-137 | a read call gets exactly the bytes that follow all earlier calls' |
| `PipeRing.ReadDelivers` | lab/lib/pipe.c:105-137 | over every run, a read returns the next bytes: all n, or at least one if it then finds the pipe empty, or none only on a true answer of the closed test; its result is their number |
| `PipeRing.WriteStores` | lab/lib/pipe.c:139-172 | over every run, a write has stored all its bytes and says so, unless the closed test answered true, when it returns 0 |
| `PipeRing.ReaderTakes` | lab/lib/pipe.c:117-134 | a reader with room that finds the pipe not empty takes exactly the next byte |
| `PipeRing.ReaderRetries` | lab/lib/pipe.c:117-129 | one that finds it empty asks, and tests again after the answer false |
| `PipeRing.WriterStores` | lab/lib/pipe.c:151-168 | a writer that finds fewer than 32 bytes in the pipe stores exactly its next byte |
| `PipeRing.WriterRetries` | lab/lib/pipe.c:151-163 | one that finds 32 asks, and tests again after the answer false |
| `PipeRing.EmptyMeansAllRead` | lab/lib/pipe.c:118 | a reader has had every published byte iff it finds the positions equal |
| `PipeClose.StepInv` | lab/lib/fd.c:101-201 | every step of close, dup and their error paths keeps a pipe descriptor backed by the pipe page |
| `PipeClose.PipeCountsBoth` | lab/lib/pageref.c:4-14 | pageref(pipe) >= pageref(read fd) + pageref(write fd) |
| `PipeClose.AnswerExact` | lab/lib/pipe.c:76-89 | the test answers true iff the other end is mapped nowhere and no close or dup is part-way |
| `PipeClose.ClosedIsClosed` | lab/lib/pipe.c:76-89 | over every run, an answer of true means the other end is open nowhere, then and ever after |
| `PipeClose.ClosedIsSeen` | lab/lib/pipe.c:76-89 | with no close or dup under way, the answer is true iff the other end is closed everywhere |
| `PipeClose.UndisturbedAnswers` | lab/lib/pipe.c:80-88 | a test that is not interrupted answers |
| `PipeClose.CloseCloses` | lab/lib/fd.c:100-119 | over every run, a close that returns has unmapped both pages of the descriptor |
| `PipeClose.DupDuplicates` | lab/lib/fd.c:174-201 | over every run, a dup that returns has made a second descriptor for the same end, or none |
| `PipeClose.DupingStep` | lab/lib/fd.c:174-201 | dup maps data before fd, succeeds if both mappings do, and undoes them otherwise |
| `PipeEnd.NothingMore` | lab/lib/pipe.c:105-172 | over every run, once the write end is open nowhere no byte is added |
| `PipeEnd.EndOfFile` | lab/lib/pipe.c:118-124 | a read that returns 0 for end of file: nothing is added ever after, the reader has had every published byte iff none was published between its two tests, and otherwise exactly those are left |
| `PipeEnd.ByteLeftUnread` | lab/lib/pipe.c:118-124 | a run from an established pipe in which the writer writes and exits between the two tests and the read ends with the byte unread |
| `Stabs.StabBinsearch` | lab/kern/kdebug.c:60-103 | terminates on every input; on a sorted region finds the last stab at or below addr and its extent iff it is not misled or is repaired; exact results when there is no stab or all lie above |
| `Stabs.Round` | lab/kern/kdebug.c:65-91 | each round makes progress, the exact-match branch included, and keeps what is known |
| `Stabs.NeverMisled` | lab/kern/kdebug.c:84-90 | no stab at addr, or none at addr + 1, is enough for the right answer |
| `Stabs.LayoutDecides` | lab/kern/kdebug.c:84-90 | the same two stabs mislead the search in one layout and not in another |
| `Numbers.Console.PrintNum` | lab/lib/printfmt.c:45-59 | the recursion and its padding loop emit the digits padded on the left to the width |
| `Numbers.Console.Convert` | lab/lib/printfmt.c:64-238 | what the numeric conversions emit, which `ConvertMeans` reads |
| `Numbers.ConvertMeans` | lab/lib/printfmt.c:64-238 | for every 32- or 64-bit argument: sign or 0x, padding, and the shortest numeral, in base 10 for d and u, 8 for o, 16 for x and p |
| `Numbers.ConvertReadsBack` | lab/lib/string.c:240-284 | d, u, o and x read back in base 10, 8 and 16 |
| `Numbers.PointerReadsBack` | lab/lib/printfmt.c:225-232 | p reads back in base 16 iff it is zero-padded or not padded |
| `Numbers.ParseLong` | lab/lib/string.c:240-284 | the loops compute the value and end of the parse, with 32-bit wrap-around |
| `Numbers.StrtolMeans` | lab/lib/string.c:240-284 | on blanks, sign, prefix, digits and rest, for every base: the signed value of the digits to 32 bits, stopping at the rest |
| `Numbers.DigitsMean` | lab/lib/printfmt.c:45-59 | the digits are a positional numeral for the number |
| `Numbers.PrintParse` | lab/lib/string.c:240-284 | for num < 2^31 and any base from 2 to 16, width and padding, the field has max(width, digits) characters and strtol reads num back and consumes it all |
| `Numbers.PrintParseNegative` | lab/lib/printfmt.c:200-207 | a negative decimal reads back iff it is zero-padded or not padded |

## Left out

- Boot code, interrupt controllers, console and IDE drivers; ide_read and ide_write are exact transfers.
- TLB contents, weak memory ordering and shootdown between processors.
- user_mem_check, and any access guarantee from the permission masks; their branches are modelled as written.
- Contents of PTE_SHARE pages across fork, and spawn; fork is for pages below USTACKTOP.
- Crash consistency of the file system, and fsformat; mounting starts from a well-formed image.
- Parsing of format strings in vprintfmt, and the conversions that are not numeric.
- ipc_recv and ipc_send of lib/ipc.c: a retry loop around the system calls that are modelled.
- pipe() itself and fd_alloc: the pipe theorems start from an established pipe.
- Monitor commands, the shell, user programs and the self-tests, which would only add easy members.
- Smp.StepKeepsInv: traps taken in kernel mode other than a wake-up from halt, and env_runs' 32-bit wrap, are not modelled.
- Trap.Machine.EnvDestroy: covers the environment table; the memory part is KernelMemory.Kernel.EnvFree.
- Trap.Machine.Syscall: covers the environment table; return values and page effects are stated by KernelMemory.Kernel's methods.
- KernelMemory.Kernel.PageInsert: the panics of pa2page, KADDR and page_free are preconditions, which every caller meets or, in sys_ipc_try_send, reports as PANIC; likewise for PageLookup and PageRemove.
- Paths.Directories.DirLookup: disk errors of file_get_block in a directory are not modelled.
- Paths.Directories.WalkPath: disk errors during the lookups are not modelled.
- Paths.Directories.DirAllocFile: a full disk is not modelled.
- Paths.Directories.FileCreate: a full disk is not modelled in directories, and paths longer than the server's buffer are not cut.
- FileSystem.FileSystem.FileBlockWalk: allocates only inside the file, as its callers do.
- FileSystem.FileSystem.FileGetBlock: asks for a block inside the file, as its callers in the file server do; allocating past the end would leave slots the truncation does not visit.
- FileSystem.FileSystem.FileWrite: sizes and offsets are between 0 and 2^31; negative off_t values are not modelled.
- FileSystem.FileSystem.AllocBlock: the bitmap's own blocks are marked in use, as a well-formed image has them, so the flush of the bitmap block is not modelled.
- OpenFiles.FileServer.ServeRead: once more than 8192 bytes have been copied the superblock is overwritten, and nothing is promised.
- OpenFiles.FileServer.ServeWrite: a descriptor's offset leaves room for a page below 2^31.
- Upcall.TakeRestores: a handler's code is any sequence of steps that stays on its part of the exception stack and writes otherwise only its own data; nesting depth h is bounded only by 4h + 8 < 2^32.
- PipeClose.AnswerExact: one processor, env_runs does not wrap between its two reads, and dup's target is a descriptor number in range.
- PipeEnd.EndOfFile: the writer writes only while a write end is open somewhere; which process writes is not tracked.
- PipeRing.Fifo: one reader and one writer; positions stay below 2^31, past which the C increments overflow.
- Numbers.Console.PrintNum: the width is an unbounded integer.
