# xv6-riscv with demand paging, kernel threads, a random device and user-level threads

This project models, in Dafny, the core of an xv6-riscv teaching kernel
extended with:

- demand paging of user memory to a per-process swap file, with three page
  replacement policies (SCFIFO, NFUA and LAPA);
- an array of kernel threads per process;
- a `/random` character device backed by an 8-bit LFSR;
- a user-level cooperative thread library with priorities;
- a user-level LIFO stack allocator.

Each module follows one source file:

| module | file | form |
|---|---|---|
| `Riscv` (`riscv.dfy`) | page-table-entry bits used by `kernel/proc.c` | functions and lemmas on `bv64` |
| `Kproc` (`proc.dfy`) | `kernel/proc.c`: process table, pids, `allocproc`/`freeproc`, `fork`, `wakeup`, `kill` | classes `Proc` and `ProcTable` with methods, plus specification functions |
| `Paging` (`paging.dfy`) | `kernel/proc.c`: swap slots, `swap_out_pages`, `growproc` eviction, `swap_between_pages`, `handle_page_fault` | methods over `Proc`, `PageTable`, `PhysMem` |
| `Replacement` (`replacement.dfy`) | `kernel/proc.c`: `scfifo`, `nfua_tick`/`nfua`, `popcount`, `lapa_tick`/`lapa` | loops as methods, victims as predicates |
| `Kthread` (`kthread.dfy`) | `kernel/kthread.c` | methods over `Proc` |
| `Random` (`random.dfy`) | `kernel/random.c` | class `RandomDevice` and the LFSR as functions |
| `Uthread` (`uthread.dfy`) | `user/uthread.c` | class `Threads` over an array, with the pick as a function |
| `Ustack` (`ustack.dfy`) | `user/ustack.c` | class `UStack` whose methods follow the functions `MallocResult`/`FreeResult` |

`Opt` (`option.dfy`) holds the `Option` datatype.

State that the kernel changes in place has a class:

- a process slot (`Proc`) with its swap-slot, swap-file and counter arrays;
- the process table and `nextpid` (`ProcTable`);
- a page table as a map from virtual page number to PTE word (`PageTable`);
- physical memory as a map from frame to page contents (`PhysMem`);
- the random seed, the user thread table and the user stack.

Results of calls the model cannot see are parameters:

- whether `kalloc` returned a frame, and which one;
- whether a swap-file read, `uvmcopy`, `createSwapFile` or `copySwapFile` succeeded;
- whether a byte copy to or from user space succeeded.

The compile-time choice `SWAP_ALGO` is the field `Proc.algo`.

The central invariant of paging is `Paging.SwapConsistent`:

- every paged-out entry names a swap slot that is marked used;
- no two paged-out entries name the same slot.

It does not require the converse: a used slot need not be named by any entry.
Every operation that pages out or swaps in preserves it.
`Paging.RemoveSwapPage` keeps it exactly when no paged-out entry names the freed slot (`Paging.RemoveKeepsConsistent`). `Paging.SwappedIn` and `Paging.SwappedOut` state the page-content round trip through the swap file.

## Model

| member | source | states |
|---|---|---|
| Riscv.SlotRoundTrip | kernel/proc.c:263-265 | The slot index `add_swap_page` stores from bit PGSHIFT is read back exactly by `*pte >> PGSHIFT`, as at lines 304 and 309, for every slot below 2^20. |
| Riscv.SwapOutFlags | kernel/proc.c:263-265 | A paged-out entry keeps the old low flags with V cleared and PG set; the U bit is unchanged. |
| Riscv.SwapInFlags | kernel/proc.c:310-312 | A swapped-in entry points at the new frame, has V set and PG and A cleared, and keeps every other flag. |
| Riscv.ClearAccessedKeeps | kernel/proc.c:420-421 | Clearing A leaves V, U and PG as they were. |
| Riscv.ClearAccessedSameFrame | kernel/proc.c:420-421 | Clearing A keeps the physical address. |
| Riscv.KstacksApart | kernel/kthread.c:44 | Distinct (process, thread) pairs get distinct KSTACK indices and stacks at least two pages apart. |
| Kproc.IndexOf | kernel/proc.c:117-125 | The lowest index holding the value, or None exactly when no index does. |
| Kproc.Proc.constructor | kernel/proc.c:55-61 | A slot starts UNUSED with pid 0, no kill flag, no page table or swap file, and its own kernel stack. |
| Kproc.Proc.FreeSwapMetadata | kernel/proc.c:232-238 | Every swap slot becomes unused. |
| Kproc.Proc.ClearCounters | kernel/proc.c:171-173 | Every NFUA counter becomes 0. |
| Kproc.Proc.SaturateCounters | kernel/proc.c:174-176 | Every LAPA counter becomes all ones, whatever it held. |
| Kproc.Proc.ResetPolicy | kernel/proc.c:169-177 | Under SCFIFO the cursor becomes 0, under NFUA the counters 0, under LAPA the counters all ones; nothing else in that state changes. |
| Kproc.Proc.FreeProc | kernel/proc.c:158-186 | The slot is UNUSED with every identity field zeroed, its swap slots freed and its policy state reset; the swap file is kept. |
| Kproc.Proc.InheritFrom | kernel/proc.c:594-615 | The child takes the parent's size and name and links to the parent. |
| Kproc.Proc.TakePid | kernel/proc.c:128-129 | The slot gets the new pid and becomes USED. |
| Kproc.Proc.SetKilled | kernel/proc.c:911-915 | The kill flag is set and a SLEEPING process becomes RUNNABLE; other states are kept. |
| Kproc.Proc.ClearIdentity | kernel/proc.c:178-185 | Size, pid, parent, name, channel, kill flag and exit status are zeroed, and the state is UNUSED. |
| Kproc.OrComplement | kernel/proc.c:176 | OR-ing a 32-bit counter with its complement sets all 32 bits. |
| Kproc.Woken | kernel/proc.c:889-897 | `wakeup` changes a state only from SLEEPING to RUNNABLE. |
| Kproc.WokenExactly | kernel/proc.c:889-897 | A process is made RUNNABLE by `wakeup` exactly when it is not the caller, is SLEEPING and sleeps on the channel. |
| Kproc.WokenIdempotent | kernel/proc.c:889-897 | `wakeup` on a channel no process other than the caller sleeps on changes nothing, and waking a channel twice is waking it once. |
| Kproc.WokenKeepsPids | kernel/proc.c:885-898 | `wakeup` keeps the pid discipline of the table. |
| Kproc.StateStepKeepsPids | kernel/proc.c:912-915 | A state change between live states keeps the pid discipline. |
| Kproc.ClaimKeepsPids | kernel/proc.c:128-129 | Giving an UNUSED slot the next pid keeps the discipline with the counter advanced. |
| Kproc.FreshTableKeepsPids | kernel/proc.c:55-61 | The initial table (all UNUSED, pid 0) satisfies the discipline with the counter at 1. |
| Kproc.FreeKeepsPids | kernel/proc.c:178-185 | Freeing a slot keeps the discipline. |
| Kproc.KillZeroHitsFreeSlot | kernel/proc.c:908-911 | Under the discipline, the first slot holding pid 0 is the first UNUSED slot, which is the slot the next `allocproc` takes. |
| Kproc.LiveScanAgrees | kernel/proc.c:908-921 | Scanning only live slots finds the same slot for every pid but 0, and finds nothing for pid 0. |
| Kproc.ForkReturn | kernel/proc.c:619-639 | As written, `fork` returns the child's pid on success, a negative value when no child was made, and 0 after a swap-file failure. |
| Kproc.ForkReturnSwapFailedIsChildValue | kernel/proc.c:619-633 | After a swap-file failure the parent gets 0, the child's own return value, although no child exists. |
| Kproc.ForkReturnChecked | kernel/proc.c:584-639 | The corrected `fork` returns the child's pid on success and -1 on every failure. |
| Kproc.ForkReturnCheckedDistinguishes | kernel/proc.c:584-639 | With positive child pids, the corrected return value is positive exactly for a child, negative exactly for a failure, and never 0. |
| Kproc.CopySwapFile | kernel/proc.c:627 | Every slot of the child's swap file receives the parent's page in the same slot. |
| Kproc.ProcTable.constructor | kernel/proc.c:47-62 | Every slot starts UNUSED, the counter starts at 1 and the table invariant holds. |
| Kproc.NewSlots | kernel/proc.c:55-61 | `NPROC` fresh slots, each UNUSED with pid 0, no kill flag, and its own index. |
| Kproc.ProcTable.AllocPid | kernel/proc.c:95-106 | Returns the counter and advances it by one. |
| Kproc.ProcTable.ScanUnused | kernel/proc.c:117-125 | Finds the lowest-index UNUSED slot, or none. |
| Kproc.ProcTable.Claim | kernel/proc.c:127-129 | The slot gets the next pid and becomes USED; the table invariant is kept. |
| Kproc.ProcTable.Release | kernel/proc.c:158-186 | `freeproc` on a table slot keeps the table invariant and leaves the slot freed. |
| Kproc.ProcTable.Attach | kernel/proc.c:131-148 | Success exactly when both allocations succeed. Then the trapframe and page table are recorded and the context stack pointer is the top of the kernel stack, with state, pid and kill flag kept. On a failure the slot is freed and the stack pointer is left as it was. The table invariant is kept. |
| Kproc.ProcTable.RecordFrames | kernel/proc.c:131-141 | The trapframe page and the page table (null when `proc_pagetable` failed) are recorded, and the table invariant is kept. |
| Kproc.ProcTable.InitContext | kernel/proc.c:146-148 | The context stack pointer becomes the top of the slot's kernel stack. |
| Kproc.ProcTable.Setup | kernel/proc.c:127-152 | The pid is consumed in every case. Success means both allocations succeeded; then the slot is USED with the new pid and its kill flag kept, its frames are recorded, and its stack pointer is the top of the kernel stack. Otherwise the slot is freed and its stack pointer is untouched. |
| Kproc.ProcTable.AllocProc | kernel/proc.c:112-153 | Takes the lowest UNUSED slot and sets it up as `Setup` says, returning it exactly when both allocations succeed. With no UNUSED slot, nothing changes and the pid counter stays. The frame is that one slot and its arrays, so no other slot changes. |
| Kproc.ProcTable.Fork | kernel/proc.c:576-640 | The child takes the lowest UNUSED slot. Which allocation or copy failed decides `NoChild`, `SwapFailed` or `Child`. A child is RUNNABLE with a fresh positive pid, links to the parent, and has the parent's size and name; a failed child's slot is freed. Only the child's slot and the pid counter can change, so the parent and every other slot are untouched. |
| Kproc.ProcTable.ForkInto | kernel/proc.c:588-639 | The same outcome split once a slot is found, and the child inherits size, name and parent. |
| Kproc.ProcTable.Inherit | kernel/proc.c:594-615 | Copies size and name and sets the parent while keeping the table invariant. |
| Kproc.ProcTable.CreateSwapFile | kernel/proc.c:619 | The child has a swap file, present on disk. |
| Kproc.ProcTable.RemoveSwapFile | kernel/proc.c:628 | The child's swap file is deleted from disk. The pointer to it stays set, as `exit` shows by clearing its own pointer after the same call (lines 678-679). |
| Kproc.ProcTable.MakeRunnable | kernel/proc.c:635-637 | The child becomes RUNNABLE. |
| Kproc.ProcTable.GiveSwapFile | kernel/proc.c:618-624 | Children of `init` and `sh` get no swap file. Otherwise creation must succeed, or the child is freed. |
| Kproc.ProcTable.CopyParentSwap | kernel/proc.c:626-633 | When both processes have a swap file, the parent's is copied into the child's. If the copy fails, the child's file is removed from disk and the child freed, still pointing at the removed file. Otherwise size, pid, parent, name, state and the swap-file pointer are kept. |
| Kproc.ProcTable.CopySwap | kernel/proc.c:627 | The child's swap file equals the parent's. |
| Kproc.ProcTable.ForkFrom | kernel/proc.c:588-639 | A failed `uvmcopy` gives `NoChild`, a failed swap step gives `SwapFailed`, otherwise a RUNNABLE child. |
| Kproc.ProcTable.FinishFork | kernel/proc.c:618-639 | The child is RUNNABLE exactly when the swap-file steps succeed, and freed otherwise. |
| Kproc.ProcTable.Wakeup | kernel/proc.c:884-898 | The new states are `Woken` of the old ones, and the table invariant is kept. |
| Kproc.ProcTable.WakeAll | kernel/proc.c:889-897 | The loop computes `Woken`. |
| Kproc.ProcTable.WakeOne | kernel/proc.c:890-896 | One turn of the loop: the slot becomes RUNNABLE exactly when it is not the caller and sleeps on the channel; no other slot's state changes. |
| Kproc.ProcTable.ScanPid | kernel/proc.c:908-920 | Finds the first slot holding the pid, whatever its state. |
| Kproc.ProcTable.ScanLivePid | kernel/proc.c:908-920 | Finds the first live slot holding the pid. |
| Kproc.ProcTable.MarkKilled | kernel/proc.c:910-915 | Only the hit slot changes: its kill flag is set and SLEEPING becomes RUNNABLE. |
| Kproc.ProcTable.MarkKilledLive | kernel/proc.c:910-915 | Marking a slot in use: its kill flag is set, SLEEPING becomes RUNNABLE, no other slot changes, and no UNUSED slot gains a kill flag. |
| Kproc.ProcTable.Kill | kernel/proc.c:903-922 | As written, the first slot with the pid (UNUSED slots included) is killed and 0 is returned. Otherwise -1 is returned and nothing changes. |
| Kproc.ProcTable.KillLive | kernel/proc.c:903-922 | The corrected `kill` touches only live slots, so UNUSED slots never carry a kill flag. |
| Kthread.ThreadStacksApart | kernel/kthread.c:44 | The kernel stacks of distinct threads, in any processes, are at least two pages apart. |
| Kthread.ThreadStackInRange | kernel/kthread.c:44 | Every thread stack of the table lies above 0 and below the trampoline's guard page. |
| Kthread.KthreadTrapframe | kernel/kthread.c:72-75 | Thread j's trapframe is among the NKT trapframes from the process's base. |
| Kthread.TrapframesDistinct | kernel/kthread.c:72-75 | Distinct threads of a process never share a trapframe. |
| Kthread.KthreadInit | kernel/kthread.c:32-46 | Every thread becomes UNUSED, owned by the process, with the stack of its (process, thread) pair. |
| Kthread.AllocTid | kernel/kthread.c:59-70 | Returns the counter and advances it, so ids are never reused. |
| Kthread.AllocprocHelp | kernel/kthread.c:78-82 | Thread 0 gets its trapframe and the context stack pointer is the top of its kernel stack; no other thread changes. |
| Kthread.InitThenHelp | kernel/kthread.c:78-82 | After `kthreadinit`, the stack pointer is one page above thread 0's own stack and its trapframe is the base. |
| Random.IterAdd | kernel/random.c:16-22 | Stepping the register a times and then b times is stepping it a + b times. |
| Random.OrbitOfOne | kernel/random.c:16-22 | From 0x01 the register returns to 0x01 after 255 steps and passes 0x2A at step 149. |
| Random.PeriodFrom2A | kernel/random.c:61 | From the initial seed 0x2A the register returns to 0x2A after 255 steps. |
| Random.ReadsRepeat | kernel/random.c:43-55 | From seed 0x2A or 0x01, 255 bytes read leave the seed where it started, and the next 255 bytes repeat them. |
| Random.StreamPeriodic | kernel/random.c:43-55 | From those seeds the register's state has period 255. |
| Random.RandomDevice.Init | kernel/random.c:57-65 | The seed starts at 0x2A. |
| Random.RandomDevice.Write | kernel/random.c:29-41 | Only a one-byte write whose copy succeeds sets the seed and returns 1. Every other write returns -1 and keeps the seed. |
| Random.RandomDevice.Read | kernel/random.c:43-55 | The bytes delivered are the successive register states. The count stops at the first failed copy. The seed has stepped once per byte attempted, including the failed one. |
| Uthread.BestIsHighestFirst | user/uthread.c:75-85 | The scan finds nothing exactly when no thread is eligible. Otherwise it finds the highest-priority eligible thread, and among equals the earliest. |
| Uthread.PickIsHighest | user/uthread.c:68-98 | `usched` exits exactly when nothing is RUNNABLE. Otherwise it picks a RUNNABLE thread of the highest priority present, and keeps the current thread only when no other thread matches it. |
| Uthread.PickOtherIsEarliest | user/uthread.c:75-90 | When another thread is picked, it is the earliest of the highest priority, and at least as important as a RUNNABLE current thread. |
| Uthread.ExitedNeverPicked | user/uthread.c:35-38 | A thread marked FREE is never picked by `usched`. |
| Uthread.Threads.constructor | user/uthread.c:6-7 | All slots FREE, no current thread, not started. |
| Uthread.Threads.Create | user/uthread.c:12-27 | Returns 0 exactly when a FREE slot exists; then only the first FREE slot becomes RUNNABLE with the priority. Otherwise it returns -1 and nothing changes. |
| Uthread.Threads.ScanBest | user/uthread.c:75-85 | The loop computes `Best`. |
| Uthread.Threads.Usched | user/uthread.c:68-105 | Follows `Pick`: the chosen thread becomes RUNNING and current. With no choice the process exits with status 0 and nothing changes. |
| Uthread.Threads.Usched1 | user/uthread.c:108-126 | The earliest highest-priority RUNNABLE thread becomes RUNNING and current. With none, the process exits with status -1. |
| Uthread.Threads.Yield | user/uthread.c:29-33 | The current thread is made RUNNABLE, then `Pick` decides. |
| Uthread.Threads.ExitThread | user/uthread.c:35-39 | The current thread is made FREE, then `Pick` decides, and never the exiting thread. |
| Uthread.Threads.StartAll | user/uthread.c:41-49 | The first call sets `started` and runs `usched1`. Later calls change nothing. |
| Uthread.Threads.SetPriority | user/uthread.c:51-56 | Returns the old priority and stores the new one; nothing else changes. |
| Replacement.TurnsStep | kernel/proc.c:411-413 | Each SCFIFO step that misses the target page brings the cursor closer to it. This makes the search's termination measure. |
| Replacement.ClearShrinks | kernel/proc.c:420-422 | Clearing an accessed page's A bit removes exactly that page from the accessed set. |
| Replacement.ClearStep | kernel/proc.c:420-422 | A clearing step keeps "only A bits were cleared" and keeps every candidate a candidate. |
| Replacement.PickScfifo | kernel/proc.c:405-429 | From the cursor, wrapped to page 0 once past `sz`, the victim is a resident user page with A clear, and the cursor stays on it; only A bits at or below `sz` were cleared. From a page-aligned or wrapped cursor, `ScfifoOrder` holds: the victim is the first resident user page whose A bit is clear when reached, every resident user page passed before it had A set and now has it cleared, and no other entry changed; if every one was accessed, all are cleared and the victim is the first. |
| Replacement.ScfifoSearch | kernel/proc.c:409-426 | The loop of `scfifo`, with the same guarantees as `PickScfifo`. |
| Replacement.ScfifoTurn | kernel/proc.c:410-425 | One turn: the victim is found with the second-chance order holding, or the loop invariant is kept with one accessed page fewer or the cursor closer to the page that ends the search. |
| Replacement.ScfifoOrderUnique | kernel/proc.c:409-426 | The second-chance order fixes the outcome: two results that both satisfy it have the same victim and the same entries. |
| Replacement.Pos | kernel/proc.c:411-413 | A page's place in the cycle from the start page is below the cycle length, and is 0 exactly for the start page. |
| Replacement.PosInjective | kernel/proc.c:411-413 | Distinct pages have distinct places in the cycle. |
| Replacement.ScfifoStart | kernel/proc.c:410-413 | The search starts at place 0 of the cycle with nothing passed. |
| Replacement.ScanNext | kernel/proc.c:410-413 | Moving the cursor one page on from a page at or below `sz` reaches the next place of the cycle, wrapping to the start. |
| Replacement.ScfifoClearStep | kernel/proc.c:420-423 | An accessed resident user page is met only in the first turn of the cycle; clearing its A bit extends the cleared prefix by one place. |
| Replacement.ScfifoSkipStep | kernel/proc.c:414-419 | A place holding no resident user page passes nothing, and in the second turn the search cannot run past the first resident user page. |
| Replacement.ScfifoFound | kernel/proc.c:424-426 | A resident user page with A clear, reached after the cleared prefix, is the victim of the second-chance order. |
| Replacement.ScfifoClearTurn | kernel/proc.c:420-423 | Clearing an accessed page keeps the loop invariant and reduces the number of accessed pages. |
| Replacement.ScfifoSkipTurn | kernel/proc.c:414-419 | Passing a place with no resident user page keeps the loop invariant and brings the cursor closer to the page that ends the search. |
| Replacement.ScfifoFoundTurn | kernel/proc.c:424-426 | Reaching a resident user page with A clear ends the search with `PickScfifo`'s guarantees. |
| Replacement.AgedBits | kernel/proc.c:445-447 | After aging, the top bit records the access and the lower bits are the old counter shifted right. |
| Replacement.AgedRecentWins | kernel/proc.c:445-447 | A page accessed in the last tick has a higher counter than any page that was not. |
| Replacement.Ticked | kernel/proc.c:438-448 | A tick changes only the counters of resident user pages in the scanned range. |
| Replacement.TickedRecords | kernel/proc.c:438-448 | Each counter the tick ages has its top bit set exactly when A was set, over the old counter halved. |
| Replacement.Tick | kernel/proc.c:434-449 | The loop of `nfua_tick` (identical to `lapa_tick`, lines 493-509) computes `Ticked`; it sets the top bit with `1 << 31` taken modulo 2^32 (`IntShiftIsMsb`). |
| Replacement.IntShiftIsMsb | kernel/proc.c:447 | `1 << 31` stored in a 32-bit counter is its top bit. |
| Replacement.NfuaVictimUnique | kernel/proc.c:458-472 | The NFUA victim (the earliest candidate with the smallest counter) is unique. |
| Replacement.NfuaSelect | kernel/proc.c:456-474 | The NFUA scan returns that victim when a candidate exists, and page 0 otherwise. |
| Replacement.PickNfua | kernel/proc.c:451-477 | `nfua` ticks the counters, then selects the NFUA victim. |
| Replacement.OnesBound | kernel/proc.c:482-491 | A number below 2^k has at most k one bits, and exactly k only when it is 2^k - 1. |
| Replacement.OnesFull | kernel/proc.c:482-491 | A 32-bit counter has at most 32 one bits, and 32 exactly when it is all ones. |
| Replacement.PopCount | kernel/proc.c:482-491 | The loop returns the number of one bits. |
| Replacement.LapaVictimUnique | kernel/proc.c:519-535 | The LAPA victim (fewest one bits, then the smaller counter, then the earliest page) is unique. |
| Replacement.LapaFreshLast | kernel/proc.c:519-535 | A page whose counter is all ones is chosen only when every candidate's counter is all ones. |
| Replacement.LapaSelect | kernel/proc.c:516-537 | The LAPA scan returns that victim when a candidate exists, and page 0 otherwise. |
| Replacement.PickLapa | kernel/proc.c:511-540 | `lapa` ticks the counters, then selects the LAPA victim. |
| Paging.SlotOfOut | kernel/proc.c:263-265 | A slot below NSWAP written into a PTE is decoded back as the same slot. |
| Paging.AddKeepsConsistent | kernel/proc.c:257-265 | Paging a resident page out to the first free slot, and marking that slot used, keeps `SwapConsistent`. |
| Paging.SwapInKeepsConsistent | kernel/proc.c:309-312 | Swapping a page in and freeing its slot keeps `SwapConsistent`. |
| Paging.ClearKeepsConsistent | kernel/proc.c:420-422 | Clearing A bits keeps `SwapConsistent` and leaves paged-out entries alone. |
| Paging.FirstFree | kernel/proc.c:257-259 | Finds the first unused swap slot. |
| Paging.AddSwapPage | kernel/proc.c:251-270 | Returns -1 exactly when there is no swap file or no free slot, and then nothing changes. Otherwise the first free slot is marked used and receives the page's contents, the frame is freed, and the entry becomes paged out to that slot. |
| Paging.RemoveSwapPage | kernel/proc.c:240-249 | Frees the slot exactly when the page table is the process's own and the slot is in use. Otherwise it returns -1 and nothing changes. When `SwapConsistent` held before, it holds after exactly when the call failed or no paged-out entry names the slot. |
| Paging.RemoveKeepsConsistent | kernel/proc.c:240-249 | Freeing a slot keeps `SwapConsistent` exactly when no paged-out entry names it. |
| Paging.AddThenRemove | kernel/proc.c:240-270 | Removing the slot just added restores the slot bookkeeping. |
| Paging.PageRoundTrip | kernel/proc.c:261-312 | A page paged out to slot s and read back into frame pa finds its own contents in the slot. Its entry ends with its old flags (A cleared) and points at pa. |
| Paging.SwapOutPages | kernel/proc.c:272-293 | On success, every page of the range was swappable and is now paged out to a slot holding its old contents. Entries outside the range are unchanged. Slots used before stay used with their pages, and every newly used slot is named by a page of the range. Exactly the range's frames are freed, and `SwapConsistent` holds. On a panic, the same holds for the pages before the failing one. |
| Paging.PageOutNext | kernel/proc.c:290-291 | One page of the loop. It fails exactly when there is no swap file or no free slot, and then nothing changes. Otherwise the state is `Placed`: the page is paged out to the first free slot, which holds its contents, and its frame is freed. The loop invariant advances by one page. |
| Paging.OutStart | kernel/proc.c:278 | The loop invariant holds before the first page. |
| Paging.OutStep | kernel/proc.c:278-291 | Paging the next swappable page out to the first free slot keeps the loop invariant, one page further on. |
| Paging.NextFrameHeld | kernel/proc.c:290 | The next resident page of the range still owns its frame. |
| Paging.EvictionRange | kernel/proc.c:391-398 | The range starts at the larger of `PGROUNDUP(old_sz)` and `MAX_PSYC_PAGES` pages, and ends at `PGROUNDUP(sz)`. |
| Paging.GrowProcEvict | kernel/proc.c:386-400 | The process exits exactly when it exceeds `MAX_TOTAL_PAGES`. After growth past `MAX_PSYC_PAGES` with a swap file, exactly the eviction range is paged out as `SwapOutPages` states, entries outside it unchanged; on a panic, a prefix of it is. Otherwise nothing changes. `SwapConsistent` holds afterwards. |
| Paging.ChooseVictim | kernel/proc.c:558-566 | A victim exists exactly when the build's policy can end. The counters become `ChoiceCounters` (ticked under NFUA and LAPA). With no victim, nothing else changes. Otherwise `Chose` holds. The victim is a resident user page. SCFIFO clears only A bits, in the second-chance order from a page-aligned or wrapped cursor, and leaves the cursor on the victim. NFUA and LAPA change no entry and return the `NfuaVictim` or `LapaVictim` of the ticked counters. |
| Paging.KeepsCandidate | kernel/proc.c:416-423 | A page that is a candidate after SCFIFO's clearing was one before, with the same frame. |
| Paging.ResetCounter | kernel/proc.c:313-317 | A swapped-in page's counter becomes 0 under NFUA and all ones under LAPA. |
| Paging.SwapInPage | kernel/proc.c:304-317 | The faulting page's entry is swapped in at pa, its slot freed and its counter reset, keeping `SwapConsistent`. |
| Paging.SwapBetweenPages | kernel/proc.c:297-324 | -1 exactly when `kalloc` or the read fails, and then nothing changes. It panics exactly when the victim cannot be paged out; the faulting page is then already swapped in (`SwappedInView`). Otherwise the new state is `Exchanged`: the faulting page is swapped in at pa from its slot, which is freed, then the victim is paged out to the first free slot. The faulting page's counter is reset and no other counter changes. |
| Paging.ExchangedFacts | kernel/proc.c:304-321 | The exchange keeps `SwapConsistent`, and both halves of the round trip hold. The faulting page is swapped in at pa, whose frame holds its slot's contents. The victim, a different page, is paged out to a slot holding its old frame's contents. |
| Paging.PlacedFacts | kernel/proc.c:257-265 | Paging a resident page out to a free slot keeps `SwapConsistent` and puts its contents in the slot. No other entry changes, and exactly its frame is freed. |
| Paging.PageOutVictim | kernel/proc.c:318-321 | Fails exactly without a swap file, and then nothing changes. Otherwise the new state is `Placed`: the victim is paged out to the first free slot, which is marked used and holds its contents, and its frame is freed. Every other entry, slot and frame is unchanged, and `SwapConsistent` is kept. |
| Paging.HandlePageFault | kernel/proc.c:543-572 | -1, with nothing changed, exactly for no policy, `va >= MAXVA`, no entry, or an entry not paged out. No victim and panic are as in `FaultSwap`. Otherwise `FaultDone` holds, whose consequences `FaultDoneMeans` states. |
| Paging.FaultDoneMeans | kernel/proc.c:543-572 | After a handled fault, the faulting page is not the victim and is swapped in at pa from its slot. The victim is swapped out with its contents. `SwapConsistent` holds, and the faulting page's counter is reset. |
| Paging.FaultDoneStep | kernel/proc.c:558-571 | The victim choice followed by the exchange is a `FaultDone` step. |
| Paging.FaultSwap | kernel/proc.c:558-571 | No victim exactly when the policy cannot end; then only the counters change, to `ChoiceCounters`. A panic exactly when a victim exists and the allocation, the read or the swap file is missing. Otherwise `FaultDone`: the policy's choice (`Chose`) followed by `Exchanged`. The counters are ticked, and the faulting page's counter is reset. |
| Paging.FaultVictim | kernel/proc.c:558-566 | The victim exists, and the counters change, exactly as in `ChooseVictim`. The state is then `VictimReady` for the exchange: `Chose` holds, and the victim is a resident user page other than the faulting one, with its frame held. The faulting entry is unchanged and `SwapConsistent` holds. |
| Ustack.Started | user/ustack.c:31-36 | The first allocation's set-up makes the sentinel the head; a started stack is unchanged. |
| Ustack.MallocResult | user/ustack.c:23-49 | The corrected allocator: -1, with nothing changed, exactly for a request over MAXUALLOC. Otherwise the block is pushed where the stack ends (`MallocPushes`). |
| Ustack.MallocAsWritten | user/ustack.c:23-49 | `ustack_malloc` as written: -1, with nothing changed, exactly for a request over MAXUALLOC; otherwise the state stays `Ready`. `AsWrittenPushes` states the push. |
| Ustack.FreeResult | user/ustack.c:51-72 | With nothing allocated (`head` 0 or the sentinel), -1 and nothing changes. `FreeOutcome` states the rest. |
| Ustack.StartedValid | user/ustack.c:31-36 | The set-up gives a valid stack. |
| Ustack.MallocKeepsValid | user/ustack.c:23-49 | With the corrected placement, `ustack_malloc` keeps the header chain and break invariant. As written it does not (`AsWrittenBreaksValid`). |
| Ustack.MallocPushes | user/ustack.c:37-47 | A new header names the previous head and the size grows by request plus header. The break grows by a page exactly on a page crossing. The block starts where the stack ended and lies below the break. |
| Ustack.FreeKeepsValid | user/ustack.c:51-72 | `ustack_free` keeps the invariant. |
| Ustack.FreePops | user/ustack.c:58-71 | LIFO: returns the most recent request length (0 to 512) and makes the previous block the head. The break drops a page exactly when the size leaves a page. The underflow guard never fires. |
| Ustack.FreeOutcome | user/ustack.c:56-71 | On any state with a block whose size lies between HEADER and HEADER + MAXUALLOC, the result is -1 exactly when the block is larger than `stack_size` (the unsigned difference wraps). Otherwise the block is popped: head back to its predecessor, size shrunk by the block, and the break a page lower exactly when the size leaves a page. |
| Ustack.FreeKeepsPaced | user/ustack.c:51-72 | `ustack_free` keeps `Paced`, whichever placement built the stack. |
| Ustack.StartedPaced | user/ustack.c:31-36 | The first allocation's set-up keeps `Paced`. |
| Ustack.AsWrittenPushes | user/ustack.c:37-48 | As written, the new header names the previous head and has the request plus a header as its size, and every other header is kept. The size grows by that much, and the break by a page exactly on a crossing. The result is just past the header. After a crossing the block starts at the old break and lies below the new one; otherwise it starts where the previous block ends. |
| Ustack.AsWrittenAgrees | user/ustack.c:37-40 | Without a page crossing, the source as written and the corrected placement give the same state and result. |
| Ustack.AsWrittenKeepsPaced | user/ustack.c:23-49 | `ustack_malloc` as written keeps `Paced`: headers above the base, predecessors present, sizes in range, and the break one page past the page of `stack_size`. |
| Ustack.AsWrittenThenFree | user/ustack.c:23-72 | As written too, a malloc followed by a free returns the request length and restores head, size and break. |
| Ustack.AsWrittenBreaksValid | user/ustack.c:37-40 | As written, eight requests of 512 bytes from a break at 0x4000 break the adjacent chain: the header at 0x5000 names the block at 0x4c70, which ends at 0x4e80. |
| Ustack.AsWrittenOverwrites | user/ustack.c:37-43 | As written, the sixteenth request of 512 bytes from a break at 0x4000 writes its header at 0x6000, inside the fifteenth block (0x5e70 to 0x6080). |
| Ustack.MallocThenFree | user/ustack.c:23-72 | With the corrected placement, a malloc followed by a free returns the request length and restores head, size and break. `AsWrittenThenFree` is the same round trip for the source as written. |
| Ustack.AsWrittenPastBreak | user/ustack.c:37-40 | As written, 15 requests of 512 bytes from a break at 0x4000 leave the last block ending at 0x6080, past the break 0x6000. |
| Ustack.UStack.constructor | user/ustack.c:19-21 | A fresh stack with `head` 0 and the given break. |
| Ustack.UStack.Malloc | user/ustack.c:23-49 | The new state and result are `MallocResult` of the old state (the corrected placement), and the invariant is kept. |
| Ustack.UStack.Free | user/ustack.c:51-72 | The new state and result are `FreeResult` of the old state, and the invariant is kept. |

## Left out

**Headers and assumed constants**
- kernel/param.h, kernel/riscv.h, kernel/memlayout.h, kernel/proc.h and user/uthread.h are not part of this model.
- The constants taken from them are NPROC 64, NKT 8, MAX_PSYC_PAGES 16, MAX_TOTAL_PAGES 32, PGSIZE 4096, PTE_PG as bit 9, and MAXVA 2^38 with TRAMPOLINE one page below it.
- `sizeof(Header)` is taken as 16 bytes (a pointer and a `uint16`, padded).

**Environment and kernel services**
- Locks, CPU lookup (`cpuid`, `mycpu`, `myproc`, `mykthread`), `sleep`, `wait`, `exit`, the scheduler, `sched` and `swtch` are not modelled. Every operation is one atomic step, so the model says nothing about concurrency.
- The user-space `uswtch` register switch is not modelled either.
- Memory primitives are parameters or are left out: `kalloc`, `kfree`, `uvmalloc`, `uvmcopy`, `mappages`, `proc_pagetable` and `walk`.
- `walk` is a lookup in `PageTable.ptes`, and a missing key is a missing entry.
- The swap-file calls (`createSwapFile`, `removeSwapFile`, `readFromSwapFile`, `writeToSwapFile`, `copySwapFile`) operate on an in-memory array of pages. Their success is a parameter. `writeToSwapFile` always succeeds, as the source ignores its result.
- `printf`, `procdump`, the file-descriptor duplication in `fork` and the user test programs are left out.

**Paging**
- Kproc.Proc.FreeProc: the freeing of the page table's user memory (`proc_freepagetable`) is abstracted to dropping the page table reference.
- Paging.ChooseVictim: with no resident user page, `scfifo` loops forever and `nfua`/`lapa` fall back to page 0 whatever it holds. The model returns no victim, and `HandlePageFault` reports `NoVictim`.
- Replacement.NfuaSelect: the uninitialised `found` of `nfua` and `lapa` is taken as 0. With any other value, the first candidate would not seed the minimum.
- Replacement.PickScfifo: requires a resident user page at or below `sz`, since the source loops forever without one.
- Replacement.PickScfifo: the second-chance order (`ScfifoOrder`) is stated only from a cursor on a page boundary or past `sz`. The cursor starts at 0 and only moves by whole pages, so no other cursor arises; from such a cursor the model still states the victim, the cursor and that only A bits were cleared.
- Paging.ChooseVictim: the same holds for its SCFIFO case, which it takes from `PickScfifo`.
- Paging.SwapOutPages: the loop's contract says each page of the range went to a slot that was free and now holds its contents. It does not say that this was the first free slot at the page's turn; `PageOutNext` states that for each step.
- Paging.HandlePageFault: after a panic the state is not described, because the kernel halts. The same holds for `FaultSwap`.
- Paging.RemoveSwapPage: requires `idx < NSWAP`. The source indexes the array unchecked.
- Paging.HandlePageFault: requires the invariant `growproc` maintains: the process fits in MAX_TOTAL_PAGES, no resident user page lies at or above `PGROUNDUP(sz)`, and resident pages own their frames. It also requires `kalloc`'s frame to be page aligned.
- Paging.SwapBetweenPages: only models the call from `handle_page_fault`. There the victim is resident and distinct from the faulting page, and a slot is free because the faulting page's slot was just released.
- Riscv.SlotRoundTrip: proved for slots below 2^20; the kernel uses fewer than 16.
- The `uint` truncation of `PGROUNDUP(sz)/PGSIZE` and 64-bit address overflow are ignored, because `sz` is bounded by MAX_TOTAL_PAGES pages.

**Random device**
- Random.StreamPeriodic: period 255 is proved for the seeds 0x2A (the initial seed) and 0x01. It is not proved for every nonzero seed a writer may set.
- A seed of 0 stays 0, which the model shows directly through `Lfsr`.

**User-level library**
- Uthread.Threads.SetPriority: requires a current thread, because the source dereferences `curr_thread` unchecked. The same holds for `Usched`, `Yield` and `ExitThread`.
- `uthread_get_priority` and `uthread_self` only read a field, and are not modelled.
- `sbrk` in `user/ustack.c` always succeeds in the model, and addresses are unbounded.
- Ustack.UStack.Malloc: follows the corrected placement `MallocResult`, not `ustack_malloc` as written. After a page crossing, the source places the block at the old break (see Findings). The source as written is `MallocAsWritten`, with `AsWrittenPushes`, `AsWrittenKeepsPaced` and `AsWrittenThenFree`.
- Ustack.MallocResult: models the corrected placement, not the source's, for the same reason.
- Ustack.MallocKeepsValid: proved for the corrected placement only. As written, the adjacent header chain breaks (`AsWrittenBreaksValid`); `AsWrittenKeepsPaced` proves the weaker invariant that holds there.
- Ustack.MallocThenFree: proved for the corrected placement; `AsWrittenThenFree` proves the round trip for the source as written.
- Ustack.Lowered: kernel/vm.c is not part of this model. `sbrk(-PGSIZE)` with the break below one page is taken to leave the break unchanged.
- Kproc.ProcTable.RemoveSwapFile: the body of `removeSwapFile` is not part of this model. It is taken to delete the file and leave `p->swapFile` set, since `exit` (kernel/proc.c:678-679) clears that pointer itself after the call. A child freed after a failed `copySwapFile` therefore keeps a pointer to its removed file.
- The `uint16` header size never truncates, because a block is at most 528 bytes.

## Findings

| source | as written | input that shows it | evidently intended | confidence | as-written member | corrected member |
|---|---|---|---|---|---|---|
| kernel/proc.c:619-633 | When `createSwapFile` or `copySwapFile` fails, `fork` frees the child and returns 0 | a parent not named `init` or `sh` whose `createSwapFile` fails | return -1, so the parent does not take itself for the child | not executed | Kproc.ForkReturnSwapFailedIsChildValue | Kproc.ForkReturnCheckedDistinguishes |
| kernel/proc.c:908-911 | `kill` matches `p->pid == pid` in every slot, UNUSED ones included, and `allocproc` does not clear `killed` | `kill(0)` on a table with an UNUSED slot: the lowest UNUSED slot is marked, and the next process `allocproc` puts there starts killed | only processes in use are matched, and `kill(0)` returns -1 | not executed | Kproc.KillZeroHitsFreeSlot | Kproc.ProcTable.KillLive |
| user/ustack.c:37-40 | After a page crossing the new block is placed at the address `sbrk` returns (the old break), while `stack_size` counts from the end of the previous block | `ustack_malloc(512)` calls with the break at 0x4000: the eighth header lands at 0x5000, 0x180 past the end of the seventh block; the fifteenth block ends at 0x6080, past the break 0x6000, and the sixteenth header is written at 0x6000 inside it | place the block where the stack ends and only extend the break | not executed | Ustack.AsWrittenPastBreak | Ustack.MallocPushes |
