# House kernel: a verified model of its stateful cores

House runs a Haskell kernel on a small Rust layer for AArch64. This project models the parts of
that layer (and of the build tool that prepares user programs) whose correctness is hardest to
see by reading them, and proves what they promise for every input, every reachable state or
every interleaving. `dafny verify dfyconfig.toml` checks everything.

| files | what they model |
|---|---|
| `Buddy` | the page allocator: a free list threaded through free pages in front of a bump cursor |
| `PageTables`, `Walk` | AArch64 translation tables (1 GiB blocks, 2 MiB blocks, 4 KiB pages, section D8.3 of Arm DDI 0487), block splitting and the walk to a leaf |
| `Vm`, `Pager`, `DriverSet`, `DriverRoot` | mprotect, munmap, the demand pager, driver enrolment, MMIO windows and root narrowing, all over one allocator and one tree |
| `Shootdown`, `IrqRing`, `Budget` | TLB shootdown, the interrupt ring and the page budget as separate memory steps, interleaved |
| `Asid`, `Tables` | the ASID cache, and the swap-removal tables it shares with the budget |
| `ByteMemory`, `Malloc` | the libc pool allocator over byte-addressed memory |
| `RunQueue` | the intrusive per-core run queues and the scheduler operations on them |
| `El0Table`, `El0Claim`, `El0Park` | the table of parked user sessions: fork, exec, exit, preemption; and, access by access, claiming its slots and parking frames without a lock |
| `Fdt` | the flattened-devicetree walker against the serialized format (sections 5.2 and 5.4 of the Devicetree Specification v0.4) |
| `RtsAlias` | the alias window of the runtime heap, as built and as checked |
| `Elf`, `Segments`, `Dynamic`, `Repack`, `RepackRun` | the ELF repackager, from bytes to bytes (System V gABI, chapters 4 and 5) |
| `DynamicExact`, `RepackExact`, `RepackDynamic` | exactly which files it accepts, said byte by byte, and a family of shared objects that are |
| `RepackProofs`, `RepackAgain`, `RepackWitnesses` | that its output loads the same program, and when it is a fixed point |
| `Arithmetic`, `Sequences`, `ByteStrings`, `Options`, `Layout` | shared helpers |

State the source keeps in globals is held in classes with the same fields; each method is proved
equal to a specification function or predicate on a snapshot of those fields (`Now()`), and the
properties are lemmas about those. Concurrent protocols are state machines whose steps are the
source's individual accesses. Machine words are integers with explicit bounds; masks and shifts are
written as division and remainder, and 32- and 64-bit wrap-around appears wherever it can happen.

## What the proofs found

- Block splits keep a translation exactly when the block's output is below 2^44; above, the mask
  drops output bits (`PageTables.Split1Exact`, `PageTables.Split2Exact`).
- `munmap` frees the descriptor with its high attribute bits, so a page installed by the pager is
  unmapped but never handed back (`Vm.FreedAddress`, `Pager.PagerFramesAreNotReclaimed`).
- A second narrowing that is refused removes an existing enrolment (`DriverRoot.Narrow`), and
  only the first 512 GiB of a root are narrowed.
- An older shootdown acknowledgement passes the test exactly when its distance modulo 2^32 is 0 or
  more than 2^31 (`Shootdown.StaleAckAccepted`).
- `realloc` never frees or moves the old block: it stays live (`Malloc.Allocator.Realloc`).
- A running thread that is also queued on another core and yields with its own queue empty goes on
  running while marked runnable (`RunQueue.YieldHandsOver`).
- Rebalancing keeps a moved thread's old affinity, so each rebalance sends it to the back of its
  queue again (`RunQueue.RebalanceMoved`).
- An eager acquisition between a fault's check and its charge lets a root reach cap + 1, exactly when
  it fills the cap, and with 64 other roots in the table a root's charges are not recorded at all
  (`Budget.CapPlusOneReached`, `Budget.WithinCapExactly`, `Budget.ChargeCounts`).
- An alias window built for 32 cores is one block shorter than a check made for fewer cores
  accepts, for RAM from 8 MiB to 16 GiB + 4 MiB and only then (`RtsAlias.SpansMeetExactly`).
- Freeing behind a header forged inside a payload leaves no valid free list, unless the forged size
  is below 8 (`Malloc.FreeExact`, `Malloc.ForgeryExists`); freeing a page that is not held destroys
  the page list (`Buddy.GiveValidExactlyWhenHeld`). Callers owe both allocators that.
- Retiring a session slot while one of its traps is still writing lets that exit reach the next
  owner of the slot (`El0Claim.LateExitLeaks`), and only that breaks the routing
  (`El0Claim.OwnExactly`).
- Repackaging twice is not always the identity: two empty segments at one address, flags
  decreasing, are swapped by the second pass (`RepackWitnesses.NotAlwaysFixed`), and an executable of
  more than eight segments that only an empty RELRO header made dynamic is refused by it
  (`RepackWitnesses.NotAlwaysAccepted`). There is no other way for it to fail (`RepackAgain.FixedPoint`).

## Model

| member | source | states |
|---|---|---|
| Buddy.PageAllocator.Init | rust/crates/house-hal-aarch64/src/buddy.rs:31-58 | the heap window is rounded inwards to whole pages and every page of it starts as not-yet-bumped; a second call changes nothing |
| Buddy.PageAllocator.Alloc | rust/crates/house-hal-aarch64/src/buddy.rs:67-99 | null exactly when no page is free; otherwise the first free page, zeroed and aligned, becomes held and nothing else changes |
| Buddy.PageAllocator.FreePage | rust/crates/house-hal-aarch64/src/buddy.rs:108-132 | a held page becomes the head of the free list; null, misaligned and foreign addresses change nothing |
| Buddy.TakeKeeps | rust/crates/house-hal-aarch64/src/buddy.rs:67-99 | taking a page keeps the free list acyclic, complete and counted |
| Buddy.GiveKeeps | rust/crates/house-hal-aarch64/src/buddy.rs:108-132 | giving a held page back keeps the same invariant and every other page's status |
| Buddy.Partition | rust/crates/house-hal-aarch64/src/buddy.rs:67-132 | held, free-listed and not-yet-bumped pages partition the heap; the counter is list length plus remaining bump pages |
| Buddy.TakeAfterGive | rust/crates/house-hal-aarch64/src/buddy.rs:67-132 | a page given back is the next one handed out, and the allocator is then as before |
| Buddy.GiveValidExactlyWhenHeld | rust/crates/house-hal-aarch64/src/buddy.rs:108-132 | freeing keeps the allocator valid if and only if the page was held: a double free breaks it |
| PageTables.HangSplit | rust/crates/house-hal-aarch64/src/mm/vm.rs:273-316 | a table filled from a block below 2^44 and linked in its place leaves every translation of the root unchanged |
| PageTables.Split1Exact | rust/crates/house-hal-aarch64/src/mm/vm.rs:288-294 | a 1 GiB split preserves the translation of every page below it if and only if the output is below 2^44 |
| PageTables.Split2Exact | rust/crates/house-hal-aarch64/src/mm/vm.rs:295-306 | a 2 MiB split preserves the translation of every page below it if and only if the output is below 2^44 |
| PageTables.LeafWritten | rust/crates/house-hal-aarch64/src/mm/vm.rs:212-260 | writing one leaf entry of a tree-shaped root changes the translation of its own page only |
| Walk.SplitSlot | rust/crates/house-hal-aarch64/src/mm/vm.rs:273-316 | splits a block in place, leaves invalid entries and tables alone, fails exactly on a null slot, a wrong level or no page; no translation changes |
| Walk.LeafEntry | rust/crates/house-hal-aarch64/src/mm/vm.rs:212-260 | finds the leaf slot of an address, splitting blocks on the way, without changing any translation; null when unmapped above the leaf or out of pages |
| Walk.RefinedTwice | rust/crates/house-hal-aarch64/src/mm/vm.rs:212-260 | table refinement composes: both levels of splitting together still preserve every translation |
| Vm.Mprotect | rust/crates/house-hal-aarch64/src/mm/vm.rs:927-994 | which calls fail and with which errno, as conditions on address, length and protection alone; success exactly when every page of the range is mapped, given two free pages for each; success changes the AP field of exactly those pages, a failure leaves a changed prefix and nothing else; data pages keep their contents |
| Vm.RefusalExactly | rust/crates/house-hal-aarch64/src/mm/vm.rs:928-968 | ENOTSUP for execute, ENOMEM outside the window, EINVAL for the other malformed requests, each if and only if |
| Vm.ProtectRange | rust/crates/house-hal-aarch64/src/mm/vm.rs:970-992 | the page loop: a prefix of the range is protected, every other page of the root translates as before |
| Vm.ApDescFields | rust/crates/house-hal-aarch64/src/mm/vm.rs:985-987 | rewriting bits 6 and 7 of a descriptor rewrites the AP field of its translation |
| Vm.WithApFields | rust/crates/house-hal-aarch64/src/mm/vm.rs:985-987 | the AP field becomes the one asked for, and every other attribute and the frame stay |
| Vm.Munmap | rust/crates/house-hal-aarch64/src/mm/vm.rs:855-918 | after success no mapped page of the range is valid unless a split got no page; no page outside changes; only Normal frames of the range reach the allocator; all other held data keeps its contents |
| Vm.UnmapRange | rust/crates/house-hal-aarch64/src/mm/vm.rs:876-902 | the page loop keeps the tree well-formed while clearing leaves and freeing frames |
| Vm.FreedAddress | rust/crates/house-hal-aarch64/src/mm/vm.rs:882-894 | the freed address is a heap page exactly when the leaf has no bits above bit 47 and its frame is in the heap |
| DriverSet.DriverRoots.IsDriverRoot | rust/crates/house-hal-aarch64/src/mm/vm.rs:613-627 | whether a root is enrolled; never for null |
| DriverSet.DriverRoots.Mark | rust/crates/house-hal-aarch64/src/mm/vm.rs:631-647 | idempotent enrolment, refused exactly when the set is full of other roots |
| DriverSet.DriverRoots.Unmark | rust/crates/house-hal-aarch64/src/mm/vm.rs:651-661 | removes one root and no other |
| DriverSet.MarkThenUnmark | rust/crates/house-hal-aarch64/src/mm/vm.rs:631-661 | enrolling a new root and removing it again restores the set |
| Pager.FaultDesc | rust/crates/house-hal-aarch64/src/userspace.rs:1040-1050 | the installed leaf by its fields: valid page, Normal memory, AP 1 (read-write), inner shareable, accessed, not global, both execute-never bits, and no other low bit |
| Pager.IsDemand | rust/crates/house-hal-aarch64/src/userspace.rs:838-845 | the markers are exactly the even words from 0xDE00_0000_0000_0000 to below 0xDF00_0000_0000_0000 |
| Pager.ServedIsWritable | rust/crates/house-hal-aarch64/src/userspace.rs:1040-1050 | an installed page already is what mprotect makes of it for writing, and not what it makes of it for reading only |
| Pager.Deepen | rust/crates/house-hal-aarch64/src/userspace.rs:943-1026 | one level of the fault walk: follow, split or link a zeroed table; no translation changes |
| Pager.FaultLocked | rust/crates/house-hal-aarch64/src/userspace.rs:924-1062 | 1 maps exactly the faulting page, previously absent and unmarked, to a fresh zeroed frame as Normal read-write memory that is never executable; every other answer leaves all translations and gives the data page back; held data is untouched either way |
| Pager.HandleUserFault | rust/crates/house-hal-aarch64/src/userspace.rs:893-921 | heap addresses, addresses outside the window, unusable roots and driver roots are refused without any change |
| Pager.PagerFramesAreNotReclaimed | rust/crates/house-hal-aarch64/src/mm/vm.rs:882-894 | munmap of a pager-installed page gives nothing back |
| DriverRoot.SlotPage | rust/crates/house-hal-aarch64/src/mm/vm.rs:451-457 | exactly slots 0 to 31 have a page, and it contains the slot's whole window |
| DriverRoot.MmioDesc | rust/crates/house-hal-aarch64/src/mm/vm.rs:465-482 | the window leaf by its fields: valid page, Device memory, AP 1, inner shareable, accessed, not global, both execute-never bits |
| DriverRoot.MapMmio | rust/crates/house-hal-aarch64/src/mm/vm.rs:496-572 | installs the slot's page, at 0x0A00_0000 plus a page for every eight slots, as a read-write Device page; no other page, level-2 entry or data page changes; a refusal or a missing page changes nothing |
| DriverRoot.WindowPage | rust/crates/house-hal-aarch64/src/mm/vm.rs:673-713 | the frame of the root's only Device leaf; none when there is no leaf or more than one |
| DriverRoot.NarrowValidate | rust/crates/house-hal-aarch64/src/mm/vm.rs:718-748 | accepts exactly the roots narrowing can strip |
| DriverRoot.Narrow | rust/crates/house-hal-aarch64/src/mm/vm.rs:756-792 | strips and enrols, or refuses: a refusal leaves the tables, and for a root not yet enrolled the enrolment, as they were |
| DriverRoot.StrippedExactly | rust/crates/house-hal-aarch64/src/mm/vm.rs:601-602 | what narrowing strips, by address: 1 GiB to 512 GiB, and 2 MiB each at 0x0800_0000 and 0x0900_0000 |
| DriverRoot.WindowIsSlotPage | rust/crates/house-hal-aarch64/src/mm/vm.rs:532-792 | mapping a slot's window and narrowing leaves that page as the only Device leaf and strips everything else named, for every slot |
| DriverRoot.SetUpDriver | rust/crates/house-hal-aarch64/src/mm/vm.rs:532-792 | mapping, narrowing and asking for the window, run one after another on any root fit for it, returns exactly the slot's page, enrols the root and strips everything named |
| Shootdown.AckExact | rust/crates/house-hal-aarch64/src/userspace.rs:737-739 | with generations less than 2^31 apart the wrapped comparison is the true one |
| Shootdown.StaleAckAccepted | rust/crates/house-hal-aarch64/src/userspace.rs:737-739 | exactly which older acknowledgements pass the comparison |
| Shootdown.TakeStep | rust/crates/house-hal-aarch64/src/userspace.rs:761-775 | taking a generation keeps the protocol invariant |
| Shootdown.PollStep | rust/crates/house-hal-aarch64/src/userspace.rs:779-798 | an acknowledgement that passes the test proves a flush after the request |
| Shootdown.PeerStep | rust/crates/house-boot/src/c_start.rs:677-692 | read generation, flush, acknowledge: each step of the handler keeps the invariant, coalesced interrupts included |
| Shootdown.RunKeepsInv | rust/crates/house-hal-aarch64/src/userspace.rs:748-829 | every interleaving of requesters, handlers and hotplug keeps the invariant |
| Shootdown.ShootdownReturns | rust/crates/house-hal-aarch64/src/userspace.rs:748-801 | over every run, by its steps alone: if a shootdown read the online mask at one step and returns at a later one, every other core online before the first has run its flush after the request took its generation, or was offline when the request looked again in between |
| Shootdown.RunSignalled | rust/crates/house-hal-aarch64/src/userspace.rs:761-801 | no lost signal: in every reachable state each peer a request waits for has its interrupt pending, is handling a generation at least as late, or has acknowledged one |
| Shootdown.ServedIsAcked | rust/crates/house-hal-aarch64/src/userspace.rs:779-798 | from every reachable state the peer's own handler steps are enough for the next poll to stop waiting for it |
| Shootdown.Completes | rust/crates/house-hal-aarch64/src/userspace.rs:748-801 | a complete run on two cores: signalled, flushed, acknowledged, returned |
| Shootdown.GivesUp | rust/crates/house-hal-aarch64/src/userspace.rs:794-797 | a complete run in which the peer goes offline instead and the shootdown still returns |
| IrqRing.RejectExact | rust/crates/house-hal-aarch64/src/irq.rs:86-91 | a push is turned away exactly when 256 entries were unread at its read of the tail |
| IrqRing.EmptyExact | rust/crates/house-hal-aarch64/src/irq.rs:112-116 | a pop reports empty exactly when nothing was unread at its read of the head |
| IrqRing.ProduceKeeps | rust/crates/house-hal-aarch64/src/irq.rs:86-94 | each access of a push carries its value unchanged and is invisible or one enqueue into a queue of fewer than 256 entries; it is turned away and counted exactly when 256 entries were unread at its read of the tail |
| IrqRing.ConsumeKeeps | rust/crates/house-hal-aarch64/src/irq.rs:112-120 | each access of a pop is invisible or the dequeue of the oldest entry, which it returns; it gives up exactly when nothing was unread at its read of the head |
| IrqRing.EveryRun | rust/crates/house-hal-aarch64/src/irq.rs:70-122 | in every interleaving pops are a prefix of accepted pushes, at most 256 are unread, drops count rejections mod 2^32 |
| IrqRing.EveryPush | rust/crates/house-hal-aarch64/src/irq.rs:70-122 | in every interleaving what is accepted is what the handler brought, in order, less the pushes that met a full ring, and each of those is counted |
| Tables.Find | rust/crates/house-hal-aarch64/src/userspace.rs:488-497 | linear search agrees with lookup by key |
| Tables.Remove | rust/crates/house-hal-aarch64/src/userspace.rs:549-567 | swap-removal forgets one key, keeps every other binding and keeps keys unique |
| Tables.PutKeeps | rust/crates/house-hal-aarch64/src/userspace.rs:575-603 | writing a value keeps keys unique and every other binding, and does nothing exactly when the table is full of other keys |
| Asid.AsidCache.AsidForPdir | rust/crates/house-hal-aarch64/src/userspace.rs:80-128 | a bound root keeps its ASID; a new one gets the next in 1..250, flushing first on wrap and on rebuild; bindings stay unique and at most 64 |
| Asid.AsidCache.EvictAsid | rust/crates/house-hal-aarch64/src/userspace.rs:259-278 | removes one binding and no other, reporting whether it was there |
| Asid.AsidCache.ForgetPdir | rust/crates/house-hal-aarch64/src/userspace.rs:182-202 | evicts, and flushes exactly when a binding was held |
| Asid.HandOutKeeps | rust/crates/house-hal-aarch64/src/userspace.rs:80-128 | any two fresh hand-outs of one ASID are separated by an all-ASID flush |
| Budget.Cap | rust/crates/house-hal-aarch64/src/userspace.rs:483-486 | 1024 below 10250 pages, else a tenth of all pages |
| Budget.PageBudget.Count | rust/crates/house-hal-aarch64/src/userspace.rs:488-497 | the recorded count of a root, 0 if it has none |
| Budget.PageBudget.Over | rust/crates/house-hal-aarch64/src/userspace.rs:514-519 | whether a root is at or over its cap |
| Budget.PageBudget.Inc | rust/crates/house-hal-aarch64/src/userspace.rs:499-512 | one page more for the root if it has or can get an entry; nothing else changes |
| Budget.PageBudget.Reset | rust/crates/house-hal-aarch64/src/userspace.rs:527-547 | the root's count becomes 0; null is ignored |
| Budget.PageBudget.Forget | rust/crates/house-hal-aarch64/src/userspace.rs:549-567 | the root's entry is gone, every other one is unchanged |
| Budget.PageBudget.TryAcquire | rust/crates/house-hal-aarch64/src/userspace.rs:575-603 | all n pages or none, never past the cap |
| Budget.StepBounded | rust/crates/house-hal-aarch64/src/userspace.rs:499-603 | each locked section keeps every count at most cap + 1, and at most cap for the root being charged |
| Budget.StepStrict | rust/crates/house-hal-aarch64/src/userspace.rs:499-603 | without an interleaved acquisition each section keeps every count at most cap |
| Budget.EveryRun | rust/crates/house-hal-aarch64/src/userspace.rs:483-603 | both bounds in every interleaving of the pager's check and charge with other callers |
| Budget.PastCapExactly | rust/crates/house-hal-aarch64/src/userspace.rs:499-603 | one section takes a root past the cap if and only if it is a recorded charge of a root already at the cap |
| Budget.WithinCapExactly | rust/crates/house-hal-aarch64/src/userspace.rs:483-603 | for every run: no root is ever past the cap if and only if no charge is recorded for a root filled up since its check |
| Budget.CapPlusOneReached | rust/crates/house-hal-aarch64/src/userspace.rs:934-1059 | a run that reaches cap + 1 |
| Budget.ChargeCounts | rust/crates/house-hal-aarch64/src/userspace.rs:499-512 | a charge is recorded exactly when the root has, or can get, a table entry |
| Malloc.ReleaseKeeps | rust/crates/house-libc/src/alloc.rs:237-265 | freeing a live block moves it to the front of the free list and changes nobody's payload |
| Malloc.ReuseKeeps | rust/crates/house-libc/src/alloc.rs:130-145 | unlinking any listed block and reusing it keeps the pool valid and every live payload |
| Malloc.BumpKeeps | rust/crates/house-libc/src/alloc.rs:148-207 | a bumped block, header included, is disjoint from all others and inside the pool |
| Malloc.CallerWrites | rust/crates/house-libc/src/alloc.rs:94-208 | callers that write inside their payloads cannot break the pool |
| Malloc.PlaceAtFits | rust/crates/house-libc/src/alloc.rs:156-179 | placement is behind a whole header, 16-aligned and aligned as asked, for every power of two |
| Malloc.PlaceAtLeast | rust/crates/house-libc/src/alloc.rs:156-179 | no lower aligned address leaves room for the header |
| Malloc.PowerOfTwoExact | rust/crates/house-libc/src/alloc.rs:119-125 | the alignment test passes exactly the powers of two |
| Malloc.FreedBlockFailsHeader | rust/crates/house-libc/src/alloc.rs:94-113 | a freed block no longer passes the header test |
| Malloc.Allocator.PoolAlloc | rust/crates/house-libc/src/alloc.rs:119-208 | first fit, else bump; null with ENOMEM and nothing changed exactly when neither is possible |
| Malloc.Allocator.TakeFit | rust/crates/house-libc/src/alloc.rs:126-147 | the walk takes the first listed block that is large enough |
| Malloc.Allocator.Malloc | rust/crates/house-libc/src/alloc.rs:225-227 | a 16-aligned block nobody holds, or null with nothing changed |
| Malloc.Allocator.Free | rust/crates/house-libc/src/alloc.rs:237-265 | for every pointer: null is ignored, an invalid one only sets EINVAL, a size below 8 is disarmed with EINVAL, anything else is linked; exactly where FreeExact allows it the pool stays valid and only that block changes hands |
| Malloc.Allocator.Calloc | rust/crates/house-libc/src/alloc.rs:298-311 | a zeroed block of a * b bytes; an overflowing product is refused |
| Malloc.Allocator.Realloc | rust/crates/house-libc/src/alloc.rs:321-356 | for every pointer that passes the header test a new block is granted and the clamped copy arrives when the ranges are apart; for a live block it is the first min(old, new) bytes; the old block stays live; failures change nothing |
| Malloc.Allocator.PosixMemalign | rust/crates/house-libc/src/alloc.rs:365-379 | an aligned block, EINVAL for an alignment that is no power of two, ENOMEM when exhausted |
| Malloc.AllocatesGrants | rust/crates/house-libc/src/alloc.rs:119-208 | first-fit reuse and bumping, as the code does them, grant a block that was not live and keep the pool valid |
| Malloc.AllocatesExactly | rust/crates/house-libc/src/alloc.rs:119-208 | by numbers: the first listed block of at least max(n, 8) bytes, or that many bytes at the first multiple of 16 past a header, below base + 64 MiB |
| Malloc.LivePasses | rust/crates/house-libc/src/alloc.rs:94-113 | whatever is handed out passes the header test with its size recorded |
| Malloc.MallocAfterFree | rust/crates/house-libc/src/alloc.rs:119-265 | a freed block is the next one handed out to whoever asks for no more than it holds; blocks, free list and counters are then as before |
| Malloc.MagicIsNoField | rust/crates/house-libc/src/alloc.rs:94-113 | a magic word in memory that is not a block's own header overlaps no header and no link, at any alignment |
| Malloc.FreeExact | rust/crates/house-libc/src/alloc.rs:237-265 | for every pointer, the state after free is a valid pool over the same block addresses if and only if the pointer fails the header test, records a size below 8, or is a live payload |
| Malloc.ForgeryExists | rust/crates/house-libc/src/alloc.rs:94-113 | a caller writing inside its own payload can forge a header with any size |
| Malloc.RunKeeps | rust/crates/house-libc/src/alloc.rs:119-265 | in every run from an unused pool live blocks stay aligned, inside the pool and disjoint, the free list is exactly the freed blocks, USED is the live total and HIGH its running maximum |
| RunQueue.AtMost64 | rust/crates/house-libc/src/threads/threads.rs:260-273 | no queue is longer than the 64 slots |
| RunQueue.Appended | rust/crates/house-libc/src/threads/threads.rs:171-196 | linking a thread at the tail keeps all queues well linked and threads unique |
| RunQueue.Removed | rust/crates/house-libc/src/threads/threads.rs:147-169 | unlinking any entry keeps all queues well linked, and the thread is on none |
| RunQueue.Scheduler.QueuedAnywhere | rust/crates/house-libc/src/threads/threads.rs:260-273 | the bounded scan finds a thread if and only if it is on some queue |
| RunQueue.Scheduler.EnqueueRunCore | rust/crates/house-libc/src/threads/threads.rs:171-196 | appends a thread that is on no queue and leaves a queued one where it is |
| RunQueue.Scheduler.DequeueRunCore | rust/crates/house-libc/src/threads/threads.rs:238-255 | pops the front of one queue |
| RunQueue.Scheduler.DequeueSpecific | rust/crates/house-libc/src/threads/threads.rs:147-169 | every queue loses exactly that thread |
| RunQueue.Scheduler.AllocThread | rust/crates/house-libc/src/threads/threads.rs:133-145 | the first unused slot, off every queue; null exactly when all 64 are in use |
| RunQueue.FirstUnused | rust/crates/house-libc/src/threads/threads.rs:133-145 | the slot chosen is unused and every earlier one is in use |
| RunQueue.Scheduler.EnqueueRun | rust/crates/house-libc/src/threads/threads.rs:210-236 | a thread goes to the core that affinity, tid and the online mask select |
| RunQueue.TargetOnline | rust/crates/house-libc/src/threads/threads.rs:210-236 | with any core online the selected core is online |
| RunQueue.TargetHome | rust/crates/house-libc/src/threads/threads.rs:210-226 | the lowest affinity bit, else tid modulo the core count, is the target whenever that core exists and is online |
| RunQueue.TargetAway | rust/crates/house-libc/src/threads/threads.rs:210-232 | otherwise the lowest online core is the target, core 0 with none online |
| RunQueue.Scheduler.SchedYield | rust/crates/house-libc/src/threads/threads.rs:626-719 | computes the specified view; a thread that can run and is on no queue ends at the back of its core's line and the first of the line runs |
| RunQueue.YieldRotates | rust/crates/house-libc/src/threads/threads.rs:674-719 | the whole view after such a yield: current thread, queue, and both states; every other core, thread and field as before |
| RunQueue.YieldHandsOver | rust/crates/house-libc/src/threads/threads.rs:674-719 | the whole view after a yield of a thread that is queued already or cannot run: only the front of the queue is taken |
| RunQueue.YieldConserves | rust/crates/house-libc/src/threads/threads.rs:674-719 | the threads queued or running are the same before and after a yield of a thread that can run or is queued |
| RunQueue.Scheduler.SchedBlock | rust/crates/house-libc/src/threads/threads.rs:592-617 | one attempt: the front of the queue takes over, if there is one |
| RunQueue.Scheduler.RebalanceThread | rust/crates/house-libc/src/threads/threads.rs:398-448 | a misplaced queued thread moves to the back of its home queue, otherwise its affinity is rewritten |
| RunQueue.Scheduler.Rebalance | rust/crates/house-libc/src/threads/threads.rs:395-450 | all 64 slots in turn |
| RunQueue.RebalanceConserves | rust/crates/house-libc/src/threads/threads.rs:395-450 | rebalancing neither loses nor duplicates queued threads |
| RunQueue.RebalanceMoved | rust/crates/house-libc/src/threads/threads.rs:411-440 | where a moved thread lands, and that it stays eligible to be moved again |
| RunQueue.RebalanceResult | rust/crates/house-libc/src/threads/threads.rs:395-450 | after a whole rebalance every used thread with tid 2 to 9 is queued on its home core only, or was on no queue and is bound to it; every other thread is where it was, as it was |
| RunQueue.Scheduler.OnCoreDown | rust/crates/house-libc/src/threads/threads.rs:1776-1806 | the migration loop empties one queue into another, entry by entry |
| RunQueue.CoreDownAppends | rust/crates/house-libc/src/threads/threads.rs:1776-1806 | the destination is online, its queue becomes old destination followed by old source, the moved threads are runnable and bound to it, nothing runs on the source, all else is unchanged |
| RunQueue.StepValid | rust/crates/house-libc/src/threads/threads.rs:133-273 | no operation puts a thread on two queues or twice on one |
| RunQueue.BoundedWaiting | rust/crates/house-libc/src/threads/threads.rs:626-719 | the thread at index k is made current by one of the next k + 1 yields on its core, whatever else happens to queues, states, tids, affinities and current threads, unless it is moved or the core stops |
| RunQueue.StepPresent | rust/crates/house-libc/src/threads/threads.rs:133-719 | every event keeps every thread that is queued or running, but for those it takes away, and brings none but those it names |
| RunQueue.NobodyLost | rust/crates/house-libc/src/threads/threads.rs:133-719 | through any run a queued or running thread stays one until its slot is reused or it blocks, exits or loses its core while running |
| El0Table.Table.RegisterSlot | rust/crates/house-hal-aarch64/src/svc.rs:857-884 | claims or re-arms a slot; refused for null and when all 64 belong to others |
| El0Table.Table.UnregisterSlot | rust/crates/house-hal-aarch64/src/svc.rs:897-914 | frees the root's slot and no other |
| El0Table.Table.SetExitCode | rust/crates/house-hal-aarch64/src/svc.rs:822-847 | the code goes to the exiting root's slot, or to the global record when it has none |
| El0Table.Table.ExitStatus | rust/crates/house-hal-aarch64/src/svc.rs:925-942 | 1 and the code exactly when that root's slot recorded an exit |
| El0Table.Table.Park | rust/crates/house-hal-aarch64/src/svc.rs:955-984 | saves the whole trapped context in the root's slot and restarts the quantum |
| El0Table.Table.ParkFault | rust/crates/house-hal-aarch64/src/svc.rs:998-1033 | saves the whole context with request 0x1F and the page of the faulting address, and restarts the quantum |
| El0Table.Table.ParkKill | rust/crates/house-hal-aarch64/src/svc.rs:1045-1078 | the same with request 0x1D |
| El0Table.Table.TickPreempt | rust/crates/house-hal-aarch64/src/svc.rs:1441-1489 | counts the quantum down; parks the interrupted context with request 0x1E exactly when it is used up, others wait and the root has a slot |
| El0Table.Table.FaultAddr | rust/crates/house-hal-aarch64/src/svc.rs:1157-1177 | the faulting page of a session parked for a fault or a kill, 0 otherwise |
| El0Table.Table.TakeRequest | rust/crates/house-hal-aarch64/src/svc.rs:1210-1234 | request and x0..x3 of a parked session |
| El0Table.Table.CloneSlot | rust/crates/house-hal-aarch64/src/svc.rs:1247-1291 | the child gets the parent's parked context with x0 = 0; the scan's last match is the only one |
| El0Table.Table.SetEntryPoint | rust/crates/house-hal-aarch64/src/svc.rs:1303-1326 | a parked session restarts at the new entry with a cleared frame |
| El0Table.Table.ResumeSession | rust/crates/house-hal-aarch64/src/svc.rs:1338-1366 | enters exactly a parked session, with the saved context, x0 replaced; afterwards the session is not parked and the core has a full quantum |
| El0Table.KeepsValid | rust/crates/house-hal-aarch64/src/svc.rs:822-1366 | every operation keeps one slot per nonzero root |
| El0Table.Isolation | rust/crates/house-hal-aarch64/src/svc.rs:822-1366 | an operation on one root leaves every other root's whole slot unchanged |
| El0Table.ParkToResume | rust/crates/house-hal-aarch64/src/svc.rs:955-1366 | from park to resume, whatever happens to other roots, the session goes on with its trapped context except x0 |
| El0Table.ResumeUsesUp | rust/crates/house-hal-aarch64/src/svc.rs:1338-1366 | a resume that enters clears the flag, replaces x0 and changes nothing else of the slot; until the next park a resume enters nothing |
| El0Table.EnteredOnce | rust/crates/house-hal-aarch64/src/svc.rs:955-1489 | over any run of all sessions a root is entered at most once for each trap, preemption or fork that parks it |
| El0Table.SaveExact | rust/crates/house-hal-aarch64/src/svc.rs:955-1078 | a park answers 1 exactly for a root with a slot, whose slot then holds the context, the request and the page |
| El0Table.TickExact | rust/crates/house-hal-aarch64/src/svc.rs:1441-1489 | the whole effect of one tick: counters, answer, and slots |
| El0Table.ForkToResume | rust/crates/house-hal-aarch64/src/svc.rs:1247-1366 | parent and child both go on from the parent's trap, the child with x0 = 0, no request and no exit code |
| El0Table.ParkedRequest | rust/crates/house-hal-aarch64/src/svc.rs:955-1234 | the request, arguments and fault page the supervisor reads are those of the trap, whatever happened to other roots |
| El0Table.ExecToResume | rust/crates/house-hal-aarch64/src/svc.rs:1303-1366 | after exec a parked session goes on at the new entry and stack with cleared registers; one that is not parked is refused |
| El0Table.RegisterFresh | rust/crates/house-hal-aarch64/src/svc.rs:857-884 | a registered root is neither parked nor exited, with no request and no code; a new slot starts at null entry and stack; refused exactly when all 64 slots belong to other roots |
| El0Table.UnregisterForgets | rust/crates/house-hal-aarch64/src/svc.rs:897-914 | an unregistered root owns no slot, and the one it had is free |
| El0Table.ExitRouted | rust/crates/house-hal-aarch64/src/svc.rs:822-942 | an exit code is kept in its own slot through every operation on other roots |
| El0Table.PreemptedOnTime | rust/crates/house-hal-aarch64/src/svc.rs:1417-1489 | a session is preempted by the tick that uses up its quantum and by no earlier one; that tick saves the interrupted context and starts the next quantum |
| El0Claim.RunKeeps | rust/crates/house-hal-aarch64/src/svc.rs:822-914 | every interleaving of a registrar's field writes with trap handlers' scans and writes that retires no slot under its writer keeps one slot per root and each handler in its own root's slot |
| El0Claim.OwnExactly | rust/crates/house-hal-aarch64/src/svc.rs:822-914 | for every run: handlers always write to their own roots' slots if and only if no slot is retired under its writer |
| El0Claim.EveryRun | rust/crates/house-hal-aarch64/src/svc.rs:822-914 | both, for every run from boot |
| El0Claim.NeverHalfClaimed | rust/crates/house-hal-aarch64/src/svc.rs:853-884 | a trap scan never finds a slot that is being claimed |
| El0Claim.PublishedFresh | rust/crates/house-hal-aarch64/src/svc.rs:870-884 | a claimed slot is published with every field reset |
| El0Claim.ExitOwnSlot | rust/crates/house-hal-aarch64/src/svc.rs:822-847 | each access of a recorded exit touches the exiting root's slot and no other |
| El0Claim.LateExitLeaks | rust/crates/house-hal-aarch64/src/svc.rs:822-914 | a run from boot on one core that ends with one root's exit code in the slot of another |
| El0Park.RunKeeps | rust/crates/house-hal-aarch64/src/svc.rs:955-1366 | every interleaving of a park's stores with the supervisor's take and resume keeps the flag behind the whole frame |
| El0Park.NeverHalfSaved | rust/crates/house-hal-aarch64/src/svc.rs:955-1033 | in every run, whoever sees the parked flag finds the complete context of the last trap behind it |
| El0Park.TakesTrapped | rust/crates/house-hal-aarch64/src/svc.rs:1210-1234 | the request and arguments handed out, read one by one, are those of the trap |
| El0Park.EntersTrapped | rust/crates/house-hal-aarch64/src/svc.rs:1338-1366 | the frame loaded word by word on resume is the trapped one, x0 apart, and the session runs only then |
| El0Park.StoresFinish | rust/crates/house-hal-aarch64/src/svc.rs:955-984 | a trap's own stores lead to a waiting session with its flag up |
| El0Park.ResumeFinishes | rust/crates/house-hal-aarch64/src/svc.rs:1338-1366 | a resume of a waiting session runs it again within 117 accesses of the supervisor |
| Fdt.GetInitrd | rust/crates/house-hal-aarch64/src/dtb.rs:616-787 | terminates and reads inside the blob on every accepted blob, and computes the specified walk |
| Fdt.ScanName | rust/crates/house-hal-aarch64/src/dtb.rs:650-658 | length of a name, at most 65 bytes and never past the blob |
| Fdt.Compare | rust/crates/house-hal-aarch64/src/dtb.rs:665-675 | byte-wise comparison that stops before the terminator is passed |
| Fdt.OnBeginNode | rust/crates/house-hal-aarch64/src/dtb.rs:647-683 | the effect of a node header on cursor, depth and flags |
| Fdt.OnProperty | rust/crates/house-hal-aarch64/src/dtb.rs:688-765 | the effect of a property, bounds checks included |
| Fdt.Follow | rust/crates/house-hal-aarch64/src/dtb.rs:644-774 | the walk passes over any serialized nodes and keeps exactly what they say about the ramdisk |
| Fdt.KeptInRoot | rust/crates/house-hal-aarch64/src/dtb.rs:664-678 | only direct properties of nodes called chosen below the root count |
| Fdt.InitrdExact | rust/crates/house-hal-aarch64/src/dtb.rs:616-787 | on every serialized devicetree (names up to 64 bytes, depth up to 16, NOPs anywhere) the answer is the last start and end of /chosen, when both exist and end > start |
| RtsAlias.Mmu.FillBlocks | rust/crates/house-hal-aarch64/src/mmu.rs:98-106 | the loop writes one 2 MiB block per step up to the span and nothing beyond |
| RtsAlias.BlockFields | rust/crates/house-hal-aarch64/src/mmu.rs:51-57 | a block is valid, inner shareable and accessed at its address and has no other low bit |
| RtsAlias.Mmu.BuildRtsAlias | rust/crates/house-hal-aarch64/src/mmu.rs:59-112 | the window maps 2 MiB blocks of the upper half of RAM up to the span; all other level-1 entries are kept |
| RtsAlias.Mmu.ExtendRamBlocks | rust/crates/house-hal-aarch64/src/mmu.rs:269-291 | adds missing identity blocks of detected RAM |
| RtsAlias.Mmu.TrimRamBlocks | rust/crates/house-hal-aarch64/src/mmu.rs:303-322 | clears blocks beyond detected RAM and no table |
| RtsAlias.RamBlocksExactly | rust/crates/house-hal-aarch64/src/mmu.rs:269-322 | the least number of 1 GiB blocks that covers detected RAM, four while it is unknown |
| RtsAlias.Mmu.UpdateAlias | rust/crates/house-hal-aarch64/src/mmu.rs:331-338 | after detection the identity map covers exactly the RAM blocks, with the window built |
| RtsAlias.AliasOnly | rust/crates/house-hal-aarch64/src/mm/vm.rs:132-168 | from the window's base on only the alias test can accept a range |
| RtsAlias.WindowsExact | rust/crates/house-hal-aarch64/src/mm/vm.rs:113-168 | the user-window and the alias-window test accept exactly the ranges inside their windows, wrap-around included |
| RtsAlias.SpanExactly | rust/crates/house-hal-aarch64/src/mm/vm.rs:137-149 | the span is the largest size up to 8 GiB that leaves the stack reserve of the upper half of RAM |
| RtsAlias.SpansAgree | rust/crates/house-hal-aarch64/src/mm/vm.rs:139-168 | for those pairs every accepted offset is in a mapped block below the last 2 MiB of RAM |
| RtsAlias.AcceptedIsMapped | rust/crates/house-hal-aarch64/src/mmu.rs:59-112 | for those pairs every address of an accepted range translates to RAM_BASE + ram/2 + offset, below the boot stack top and the stacks of all cores counted by the check |
| RtsAlias.BuiltBelowStack | rust/crates/house-hal-aarch64/src/mmu.rs:98-106 | every block that is built ends at or below the boot stack top |
| RtsAlias.SpansMeetExactly | rust/crates/house-hal-aarch64/src/mm/vm.rs:139-168 | for 0 to 32 cores at build and at check, every accepted offset is in a mapped block if and only if the pair is not 32 built, fewer checked, with RAM from 8 MiB to 16 GiB + 4 MiB |
| RtsAlias.TableKind | rust/crates/house-hal-aarch64/src/mmu.rs:93-97 | a level-1 entry leads back to its table exactly when the table is page-aligned |
| Elf.PhdrReads | build-probe/repack.py:514-527 | a program header with any physical address reads back, each field from its own offset |
| Elf.EhdrReads | build-probe/repack.py:578-594 | a written file header reads back, each field from its own offset |
| Segments.SortSorts | build-probe/repack.py:552 | sorting keeps the segments and orders them |
| Segments.FoundIn | build-probe/repack.py:147-154 | address translation finds a segment that backs the range, if there is one |
| Segments.OneSegment | build-probe/repack.py:174-186 | after the layout check an address lies in at most one segment |
| Dynamic.AcceptsAgain | build-probe/repack.py:264-511 | the dynamic check depends on addressed bytes only: it passes again for any file that backs the same addresses |
| Dynamic.AcceptedRelocations | build-probe/repack.py:221-261 | every relocation of an accepted section is of a known kind and writes inside a segment, writable where a symbol is involved |
| DynamicExact.ScanExact | build-probe/repack.py:300-381 | the scan succeeds exactly on entries with known tags, those that matter once each and no text relocations, and finds every tag's value |
| DynamicExact.ResolveExact | build-probe/repack.py:189-204 | a string resolves exactly to the bounded, printable, terminated name that stands there |
| DynamicExact.NamesExact | build-probe/repack.py:411-456 | symbol metadata is accepted exactly with both tables, 24-byte entries, hash entries below the symbol count, and a name and no TLS type for every symbol |
| DynamicExact.TablesExact | build-probe/repack.py:482-511 | relocation tables are accepted exactly when complete, of 24-byte entries with addends, within the limit, and every entry is allowed |
| DynamicExact.AcceptsExactly | build-probe/repack.py:264-511 | a dynamic section is accepted if and only if its bytes meet the conditions written out entry by entry |
| RepackDynamic.SharedObjectAccepted | build-probe/repack.py:804-836 | shared objects with DT_SYMENT 24, a hash table, a named symbol and a bind-now relocation, at any address and for any name and kind, are accepted and written back unchanged |
| RepackExact.SegmentExact | build-probe/repack.py:537-550 | what one loadable header must be, by numbers |
| RepackExact.LinkedExact | build-probe/repack.py:658-722 | interpreter, dynamic section, read-only range and header count are accepted exactly as described |
| RepackExact.AcceptedExactly | build-probe/repack.py:530-836 | a file is accepted if and only if its headers, read at their offsets, meet the conditions written out |
| RepackExact.HeadersCarried | build-probe/repack.py:578-801 | every header that stays is carried over with its address, permissions and bytes, zero fill written out; there are no others; type and entry are kept |
| RepackRun.ParseRaw | build-probe/repack.py:514-527 | all program headers, or refusal if one is TLS |
| RepackRun.CollectLoads | build-probe/repack.py:537-550 | all loadable segments, or refusal if one breaks a size, alignment or file bound |
| RepackRun.ValidateLoadLayout | build-probe/repack.py:174-186 | accepts exactly the layouts without page overlap and without the stack page |
| RepackRun.MakeBlobs | build-probe/repack.py:641-653 | segment contents with zeroed BSS, if all lie in the window and one holds the entry |
| RepackRun.EmitLoads | build-probe/repack.py:595-605 | segment headers with running offsets, and the contents in the same order |
| RepackRun.ScanEntries | build-probe/repack.py:300-381 | the dynamic entries up to the null tag, each supported tag once |
| RepackRun.CheckRelocations | build-probe/repack.py:221-261 | accepts exactly tables whose every entry is allowed, in the sense of the bytes |
| RepackRun.CheckDynamic | build-probe/repack.py:264-511 | accepts exactly the dynamic sections whose bytes meet the written-out conditions |
| RepackRun.FindExtras | build-probe/repack.py:658-711 | interpreter, dynamic section and RELRO range, each at most once and well-formed |
| RepackRun.RepackFile | build-probe/repack.py:804-836 | writes something exactly for the files that meet the written-out conditions, and then the specified output |
| RepackProofs.OutputRead | build-probe/repack.py:578-605 | the written file parses to exactly the headers that were written |
| RepackProofs.SameImage | build-probe/repack.py:530-801 | for every accepted file the output loads the same byte with the same permissions at every address, BSS included, and has the same entry |
| RepackAgain.SortNearly | build-probe/repack.py:635 | sorting an output moves a segment only past segments that differ in flags alone |
| RepackAgain.ExtendsOut | build-probe/repack.py:147-171 | the output backs every address range the input backs, with the same bytes |
| RepackAgain.AcceptedAgain | build-probe/repack.py:804-836 | for every accepted file the output is accepted again, with the same extras, if and only if it is not a plain executable of more than eight segments |
| RepackAgain.FixedPoint | build-probe/repack.py:530-801 | for every accepted file, repackaging the output changes nothing if and only if it is accepted again and no neighbouring empty segments at one address have decreasing flags |
| RepackWitnesses.NotAlwaysFixed | build-probe/repack.py:530-608 | a concrete accepted file whose output is not a fixed point |
| RepackWitnesses.NotAlwaysAccepted | build-probe/repack.py:696-720 | accepted executables, one for each count of nine to fifteen segments, whose output is refused |

## Left out

- Assembly, barriers, cache maintenance, system registers, exception entry and context switching: "flush", "send an interrupt" and "enter user mode with this context" are steps or results.
- Locks are taken as given: code that holds a lock runs as one step. Of the lock-free tables, claiming, re-arming and retiring slots against exits (`El0Claim`) and parking against take and resume (`El0Park`) are interleaved access by access; fork, exec and the quantum counters of `El0Table`, and `DriverSet`, whose updates are single-word stores, are single steps.
- Memory order: accesses take effect in program order. The source puts its barrier after the last store of a park, so on weakly ordered hardware the flag's order behind the frame rests on more than the model has.
- TLB maintenance after a leaf is changed is not part of the page-table model; `Shootdown` models it on its own.
- The reservation list behind mmap (`vm_overlap`, `vm_record`, `vm_release`) and `house_vm_mmap` itself.
- UART, GIC, PSCI, timer and virtio registers; the detection of RAM size and core count, which are parameters.
- `pthread` mutexes and condition variables, thread creation, sleep and poll; only the run queues.
- Scheduling fairness: a shootdown wait ends once its peers' handlers run (`Shootdown.ServedIsAcked`), but nothing says that they do.
- Uniqueness of the ASIDs of live roots: the counter wraps without looking at the cache, so only flush separation holds.
- `house_release_pdir`, which calls the eviction, budget and enrolment removals modelled here one after another.
- The system-call mask table, which has the same shape as the budget table.
- `fdt_get_ram_bytes`, `fdt_get_cpu_count` and the bank queries: further walks of the same format.
- The error messages of the repackager: a refusal is one outcome, whatever its reason.
- File reading and writing, and the Haskell side, which is the environment of every model.
- Floating point, string and stdio helpers, file-descriptor, epoll and timer tables: they would add only easy members.
- PageTables.HangSplit: asks for block outputs below 2^44, which Split1Exact and Split2Exact show to be the exact condition.
- Vm.Munmap: asks the caller that the frames a range gives back are held, once each; the source does not check it, and a frame mapped twice would be freed twice, which Buddy.GiveValidExactlyWhenHeld shows to destroy the free list.
- Vm.UnmapRange: the same demand.
- Vm.Mprotect: does not undo a prefix after a failure, because the source does not.
- Malloc.Allocator.Free: promises a valid pool only where FreeExact says there is one.
- Malloc.Allocator.Realloc: promises no bytes when the copied range behind a forged header overlaps the new block, where the source's copy is undefined.
- El0Claim.RunKeeps: asks that no slot is retired while a trap is writing to it; the source has no such guard, and OwnExactly shows it to be the exact condition.
- Asid.AsidCache.AsidForPdir: the branch for a zero counter is unreachable, the counter stays in 1..250, and not modelled.
- RunQueue.Scheduler.Rebalance: asks for 1 to 32 cores; with none the source divides by zero.
- RtsAlias.AcceptedIsMapped: takes the eight level-2 tables to be page-aligned, which the source's declaration does not state and TableKind shows to be needed; with RAM unknown the two sides use different defaults, so RAM is a parameter here.
- Fdt.InitrdExact: longer names and deeper trees are outside it, as the source's fixed bounds of 64 bytes and 16 levels misread them.
