# Stardust in Dafny

Stardust is a small x86_64 kernel with a Rust userland. Its safety rests on parts that each look simple and have to fit
together: a bump allocator under a page table under two ELF loaders, a handful of multi-core hand-shakes, a one-word
mailbox between a driver and a user interface, and a user interface that repaints only what it thinks has changed. This
project models those parts and proves what they promise each other.

`dafny verify dfyconfig.toml` checks everything.

## How the model is organised

* **Memory.** `Frames` is the allocator's two-field cursor over the bootloader's memory map. `Memory` is physical RAM
  seen through a page table, by user programs and by the kernel. `Kernel` holds both in one object, gives every handed-out frame exactly one *role* (it backs
  one page, it is a page table, or it is unused) and has the services that map memory. `Elf` says what a file's header
  means and what a loaded image looks like; `KernelLoader` and `UserLoader` are the two loaders; `MemoryRuns` has whole
  runs and compares the loaders, and `ElfWriter` writes files whose fields read back. The page-table code of the `x86_64` crate is a method with a deliberately loose contract:
  it may take any number of frames for tables and may fail at any time. The ghost counter `mapErrors` counts those failures.
  The kernel is built with overflow checks, so its overflows are explicit outcomes; userland is built without, so it wraps.
* **Protocols.** `Shootdown`, `Locks`, `SmpBoot` and `Supervisor` are step systems: a step is one atomic operation (in
  `Locks` an acquisition, an access to what a lock guards, or a release), any core may step at any time, and the theorems range over every run. `Threads` is the
  thread table as an object, which the source only touches under its lock.
* **Input and graphics.** `Mailbox` and `Input` go from PS/2 bytes to user-interface events. `Graphics` is `draw_rect`
  with 32- and 64-bit wrap-around on a pixel array. `Ui` is the event loop and its incremental redraw.
* **Start-up and data.** `Tar`, `Unicode` and `Fnv` read the initial archive, `Marshal` runs the init protocol on it, `DriverImages` has the
  two drivers that the repository links at one address. `Words` has
  masks on 64-bit words, `Collections` two shared definitions.

## Where a promise holds only under a condition

* The kernel loader clears a page again for every segment on it, so a page that two segments share keeps only what the last
  one puts there. `KernelLoader.ReadBackIff` says exactly for which files every segment survives, a property of the
  file alone; `KernelLoader.SharedPageLosesByte` has a file that loses its entry byte.
* The kernel loader writes in ring 0, and an error of `map_to` is ignored, so a segment on a page that the bootloader mapped is
  written through that mapping. `KernelLoader.LoadAndGetEntry` says which pages a load is written to,
  `KernelLoader.WrittenToHome` what a user page behind such a mapping then holds, and `KernelLoader.DirectMapOverwrites` has a
  file that overwrites a page it does not name. A store that would go into a page table or outside the allocator's frames ends the model:
  the load's result is `Wild`.
* The userland loader counts pages from the segment's start instead of its page's start. `UserLoader.PagesCoverIff` says when
  the count is enough for one segment, `UserLoader.Load` exactly when a load faults, and `UserLoader.StraddlingStarves`
  has a two-byte segment that does.
* `draw_rect` skips a rectangle at a negative position even where it meets the screen, and a negative size that reaches below
  zero fills up to the edge; `Graphics.ExactClippingIff` says that it is exact for all other arguments, and
  `Graphics.MisdrawnInputs` has one input of each kind.
* The incremental redraw agrees with a repaint from scratch if and only if the old window had no negative coordinate or what
  showed of it is painted over: `Ui.RedrawIff`. `Ui.StripeLeftBehind` is a run of six mouse messages from the
  start that leaves a stripe behind.
* The title bar stays within reach if and only if the screen has at least 206 by 156 pixels: `Ui.RunInv`, `Ui.CanAlwaysGrab`.
* The init protocol's comment promises no collisions for ever. For stacks, heap and deep stack that holds for up to 15 loaded
  drivers and fails from the 16th on, whose stack is the start of marshal's own deep stack: `Marshal.NoCollisionIff`,
  `Marshal.StartOnMachine`. For the driver images it fails sooner. All of them can be read back after the start if and only if
  they prescribe the same bytes wherever they overlap, and zeros where they reach into the deep stack:
  `Marshal.DriversSurviveIff`, `Marshal.EndSurviveIff`. The linker scripts promise a unique address to each driver, but give both
  of the repository's drivers the same one, so the second replaces the first:
  `DriverImages.ShippedDriverLost`.
* Allocating every frame of a memory map panics if and only if a usable region reaches too close to the end of the 64-bit
  range: `Frames.TakeAll`.

## Model

| member | source | states |
|---|---|---|
| Words.MaskRoundsDown | stardust/src/task/elf.rs:99-99 | for every power of two, masking with the complement of one less clears exactly the remainder |
| Words.MaskRoundsUp | userland/marshal/src/main.rs:17-18 | for every power of two `a`, `(s + a - 1) & !(a - 1)` is the least multiple of `a` that is not below `s`, whenever the sum fits in 64 bits |
| Frames.AllFramesMember | stardust/src/memory/frame.rs:44-63 | the frames the allocator will ever give out are exactly the aligned pages wholly inside a usable region |
| Frames.AllFramesDistinct | stardust/src/memory/frame.rs:44-73 | no frame occurs twice if the usable regions do not overlap |
| Frames.FrameCount | stardust/src/memory/physical.rs:32-38 | frames times 4096 never exceed the usable bytes reported at boot, with equality for page-aligned regions |
| Frames.AlignUp | stardust/src/memory/frame.rs:59-59 | the allocator's mask expression is the least page boundary from the address on |
| Frames.FrameAllocator.constructor | stardust/src/memory/frame.rs:34-36 | a new allocator has handed out nothing |
| Frames.FrameAllocator.SearchRegion | stardust/src/memory/frame.rs:48-70 | one region either yields the next frame of the whole map or is passed without losing one; it panics only if the region's additions overflow, and is passed only if they do not |
| Frames.FrameAllocator.AllocateFrameRaw | stardust/src/memory/frame.rs:40-73 | the n-th successful call returns the n-th frame; `None` exactly when all are handed out, and then for ever; a panic only in a region that overflows, which is never passed |
| Frames.TakeAll | stardust/src/memory/frame.rs:40-73 | allocating to the end panics if and only if some usable region overflows, and otherwise gives all frames in map order |
| Memory.PhysInjective | stardust/src/memory/mapper.rs:61-81 | two virtual addresses of backed pages never reach the same physical byte |
| Memory.StoreReadBack | stardust/src/memory/mapper.rs:61-81 | a store is read back at its own address and changes no other visible byte |
| Memory.KernelStoreReadBack | stardust/src/task/elf.rs:119-119 | a kernel store changes every byte that leads to the same physical byte, through the bootloader's mappings too, and no other |
| Kernel.TablesAreInvisible | stardust/src/memory/mapper.rs:69-74 | frames turned into page tables are never seen through a user page |
| Kernel.NewMapping | stardust/src/memory/mapper.rs:74-80 | adding a mapping keeps one role per frame and every byte seen before |
| Kernel.Kernel.constructor | stardust/src/main.rs:64-67 | the state before the allocator's self-test: the bootloader's mappings, no frame handed out, roles in order |
| Kernel.SafeUserPtrIff | stardust/src/arch/x86_64/syscall.rs:40-43 | for 64-bit arguments the check accepts exactly the ranges that are not empty and end below 0x7FFFFFFFF000 |
| Kernel.CanonicalIff | stardust/src/memory/mapper.rs:61-63 | the addresses accepted are those whose upper 17 bits are all clear or all set |
| Kernel.Kernel.AllocateFrame | stardust/src/memory/shared.rs:34-37 | an allocated frame had no role before |
| Kernel.Kernel.MapTo | stardust/src/memory/mapper.rs:74-79 | the contract of the page-table crate: it adds the one mapping or leaves all mappings alone, and what it allocates becomes page tables |
| Kernel.Kernel.MapPage | stardust/src/memory/mapper.rs:61-81 | an existing mapping is kept, a new one is to the given frame, everything visible stays, and it panics exactly on a physical address above 52 bits or a virtual address that is not canonical |
| Kernel.Kernel.MapFreshFrame | stardust/src/task/elf.rs:106-116 | allocate and map: only the page asked for can become mapped, and then it is backed by memory of its own |
| Kernel.Kernel.GrantFrame | stardust/src/memory/shared.rs:23-51 | a wrong token gives 0 and changes no mapping, no memory, no role and no count of frames; a mapped page keeps its mapping; otherwise the result is the address and the page has memory of its own; all visible bytes stay |
| Kernel.Kernel.SysGrant | stardust/src/arch/x86_64/syscall.rs:88-91 | an address outside the user range gives 2^64 - 1 and a wrong token 0, and both change no mapping, no memory, no role and no count of frames; otherwise the result is the address, and the page is mapped unless the page-table code fails; only a lack of frames can stop it |
| Kernel.Kernel.BuildUserStack | stardust/src/task/loader.rs:73-87 | all 128 KB below the stack top are mapped and nothing else becomes mapped, each new page is backed by memory of its own, and earlier contents stay |
| Kernel.Kernel.MapDevice | stardust/src/arch/x86_64/syscall.rs:100-105 | every page of the device ends up mapped, each newly mapped page leads to the device's frame with the same number, memory stays as it was, and it panics exactly if some page has an address that is not accepted |
| Kernel.Kernel.StoreBytes | userland/libs/libstardust/src/elf.rs:100-115 | a user program's run of stores writes exactly these bytes or stops at the first page without a user mapping |
| Kernel.Kernel.KernelStoreBytes | stardust/src/task/elf.rs:119-128 | the kernel's run of stores, which also goes through the bootloader's mappings: each byte is what was stored last through any address that leads to it; it stops at a page that is not mapped, or where it would go astray into a page table or outside the allocator's frames |
| Kernel.Kernel.LoadBytes | userland/libs/libstardust/src/elf.rs:71-79 | a run of loads reads exactly the visible bytes or stops at the first page that is not memory |
| KernelLoader.MapSegment | stardust/src/task/elf.rs:98-122 | the page loop maps and clears exactly the pages the segment touches, mapped before or not; however it ends, no byte changes on a page that the segment is not written to, be it through a mapping of the bootloader |
| KernelLoader.SegmentByte | stardust/src/task/elf.rs:104-128 | after relocation the bytes of a segment are still consecutive and lie in the pages of the loop |
| KernelLoader.CopyCompletes | stardust/src/task/elf.rs:125-129 | copying over the cleared pages gives the file's bytes and zeros on all of the segment's pages, if no two of them lead to one frame |
| KernelLoader.LoadSegment | stardust/src/task/elf.rs:97-130 | every byte of the segment's pages is what the segment puts there; however it ends, no byte changes on a page that the segment is not written to; a store goes astray only through a bootloader page that leads to no user page |
| KernelLoader.LoadAndGetEntry | stardust/src/task/elf.rs:63-139 | for every well-formed image, with shared pages and with pages of the bootloader: each byte on a segment's pages is what the last segment on that page puts there; a user reads all segments back, at v - 0xFFFFFFFF80200000 + 0x400000 modulo 2^64 if the entry is at least 0xFFFFFFFF80000000 and at v otherwise, if and only if nothing is lost that way and none is on a bootloader page; the entry returned is moved alike; a file without a header of type 1 changes nothing at all; however the call ends no byte changes on a page the segments are not written to; and only missing frames or page-table errors can stop it |
| KernelLoader.LinkedImage | stardust/src/task/elf.rs:78-127 | a segment of a kernel-half image linked at 0xFFFFFFFF80200000 + x is read at 0x400000 + x, which passes the user-range check; a segment of any other image is read where it is linked |
| KernelLoader.UserPlaceIff | stardust/src/task/elf.rs:79-127 | the segments are read back at those addresses if and only if they are read back at the offset that the loader computes |
| KernelLoader.LastOnFacts | stardust/src/task/elf.rs:94-131 | the segment that decides a page is on it and no later loadable one is |
| KernelLoader.ReadBackIff | stardust/src/task/elf.rs:94-131 | after a load a user reads every segment back if and only if no byte of a segment differs from what a later segment on its page puts there and no byte is on a page of the bootloader |
| KernelLoader.PageDisjointLosesNothing | stardust/src/task/elf.rs:94-131 | files whose segments share no page lose nothing |
| KernelLoader.SharedPageLosesByte | stardust/src/task/elf.rs:116-119 | a file with two segments on one page, which `KernelLoader.SharedPageFile` shows to be a well-formed ELF file: after every load its entry byte reads 0 where the file has 1 |
| KernelLoader.OwnPagesOnly | stardust/src/memory/mapper.rs:74-79 | segments with no page of the bootloader are written to their own pages only, and no store of theirs goes astray |
| KernelLoader.WrittenToHome | stardust/src/memory/mapper.rs:74-79 | if the bootloader maps a segment's page to the frame of a user page, that page holds after the load what the last segment there puts into it |
| KernelLoader.DirectMapIsTame | stardust/src/task/elf.rs:78-85 | a file with an ordinary entry point and a segment in the direct map over a user page's frame is loaded without a stray store |
| KernelLoader.DirectMapOverwrites | stardust/src/task/elf.rs:116-128 | every load of that file, which `KernelLoader.DirectMappedFile` shows to be a well-formed one, overwrites the user page, which none of its segments names |
| ElfWriter.FileReadBack | stardust/src/task/elf.rs:65-95 | magic, entry, header size, header count and every program header of a written file are read back |
| ElfWriter.PhdrReadBack | stardust/src/task/elf.rs:94-98 | of a header with any 32-bit type, flags, physical address and alignment the loaders see that it is to be loaded exactly if the type is 1, and its own offset, virtual address and sizes |
| ElfWriter.EhdrReadBack | stardust/src/task/elf.rs:65-95 | entry, table offset, header size and header count are read back whatever stands in the other fields |
| Elf.MagicIff | userland/libs/libstardust/src/elf.rs:73-74 | a file is taken for an ELF file exactly if it starts with 0x7F and the letters ELF |
| KernelLoader.EntryKeepsItsPlace | stardust/src/task/elf.rs:78-91 | an entry inside a segment keeps its distance from the segment's start, and the byte fetched there is the file's |
| UserLoader.PagesCoverIff | userland/libs/libstardust/src/elf.rs:89-95 | the pages asked for cover the segment if and only if its offset in the page leaves room for it |
| UserLoader.PagesForIsLeast | userland/libs/libstardust/src/elf.rs:89-89 | the count is the least number of pages that hold the memory size, for every size that can be rounded up |
| UserLoader.GrantSegment | userland/libs/libstardust/src/elf.rs:92-95 | only pages asked for become mapped, all of them unless frames run out or the page-table code fails, and nothing visible changed |
| UserLoader.CopyThenClear | userland/libs/libstardust/src/elf.rs:97-115 | copying and then clearing the rest gives the segment and changes no byte outside it |
| UserLoader.LoadSegment | userland/libs/libstardust/src/elf.rs:87-117 | one segment can be read back, or some byte of it is on a page neither mapped nor asked for; however it ends, no visible byte outside it changed and only pages it asks for became mapped |
| UserLoader.Load | userland/libs/libstardust/src/elf.rs:68-122 | `None` exactly for data that is shorter than 64 bytes or has no magic; a file without a header of type 1 changes nothing at all; however it ends, mappings, the image and all bytes outside its segments are kept; after a return every byte of a segment is what the last segment around it puts there, and all segments read back if and only if overlapping ones prescribe the same bytes; with frames left and no page-table error it faults if and only if some segment byte is on a page that was neither mapped before nor asked for by this or an earlier header |
| UserLoader.LaidIff | userland/libs/libstardust/src/elf.rs:78-118 | after a load every segment can be read back if and only if overlapping segments prescribe the same bytes |
| UserLoader.TogetherAgree | userland/libs/libstardust/src/elf.rs:97-115 | two images that are in memory together prescribe the same byte at every address both cover |
| UserLoader.CoveredMissesNothing | userland/libs/libstardust/src/elf.rs:89-95 | a segment that fits the pages counted for it never causes a fault, wherever it is in the file |
| UserLoader.StraddlingStarves | userland/libs/libstardust/src/elf.rs:89-95 | a two-byte segment at 0x400FFF stops the load exactly if its second page was not mapped before |
| MemoryRuns.Step | stardust/src/arch/x86_64/syscall.rs:88-108 | every service keeps one role per frame, every mapping, and every visible byte it does not store to or write a segment over; it maps only pages it asks for or loads a segment on; if it does not halt and the page-table code does not fail, what it was called for is done; it halts only for a stated cause; and a grant with a wrong token leaves mappings, memory, roles and the count of frames alone |
| MemoryRuns.Run | stardust/src/memory/shared.rs:23-51 | over every run of the boot self-test, grants, kernel and userland loads, stack construction, device mappings and stores, up to the first that halts: mappings never change; a visible byte changes only by a store to it, a kernel load written to its page, also through the bootloader's mappings, or a userland load around it; a page becomes mapped only if an operation asks for it or loads a segment on it; each frame has one role; no two pages share memory; without a halt or a page-table error everything asked for is mapped at the end, and a halt has a stated cause |
| MemoryRuns.MatchedIff | userland/libs/libstardust/src/elf.rs:87-117 | memories left by the two loaders show the same segments if and only if the file has that property and its segments are off the bootloader's pages |
| MemoryRuns.MatchedIfNothingLost | stardust/src/task/elf.rs:94-131 | for files whose overlapping segments agree, that is so if and only if the kernel loses no byte on a shared page |
| MemoryRuns.LoadersAgree | stardust/src/task/elf.rs:94-131 | the two loaders give the same entry, and the same bytes on every segment if and only if everywhere the last segment on the page puts what the last segment around the address does, and none is on a bootloader page |
| Shootdown.WaitIsOver | stardust/src/arch/x86_64/apic.rs:135-135 | when the wait ends, the cores that acknowledged, were interrupted and have flushed are the same |
| Shootdown.StepInv | stardust/src/arch/x86_64/idt.rs:108-113 | the protocol's invariant survives every step of initiator and handlers |
| Shootdown.ShootdownSafety | stardust/src/arch/x86_64/apic.rs:117-137 | in every run, for any number of shootdowns as they were begun: each finished one flushed its own address exactly once on each core from 1 to 3 whose bit is set in its mask and nowhere else; between rounds all are finished and no handler is left |
| Shootdown.TargetsAreCores | stardust/src/arch/x86_64/apic.rs:122-123 | the cores that the masked test picks are those whose bit is set |
| Shootdown.ShootdownCompletes | stardust/src/arch/x86_64/apic.rs:117-137 | every run can be continued, without another shootdown, until the initiator and all handlers are through |
| Locks.ServicesDisciplined | stardust/src/memory/shared.rs:26-48 | every service takes its locks in the order CDT, mapper, allocator, takes the scheduler's lock alone, accesses only data whose lock it holds, and releases all |
| Locks.StepInv | stardust/src/task/scheduler.rs:85-88 | lock discipline and the interrupt rule survive every step: off on booting and scanning cores, elsewhere on exactly outside services |
| Locks.SomeCoreRuns | stardust/src/memory/mapper.rs:65-69 | whenever a core is inside a service, some core inside one can step |
| Locks.CanDrain | stardust/src/task/scheduler.rs:152-166 | from every good state there is a schedule that finishes all services, frees all locks and turns the user cores' interrupts on again |
| Locks.NeverDeadlocked | stardust/src/arch/x86_64/idt.rs:102-105 | over every run on any number of cores: a core inside a service never blocks everyone, all services can be finished with all locks free and user cores interruptible, and an interruptible core holds no lock, so the timer handler never waits for its own core |
| Locks.NeverTogether | stardust/src/memory/mapper.rs:65-79 | in every run no two cores are about to access the data of the same lock |
| Locks.GrantAccesses | stardust/src/memory/shared.rs:26-48 | a grant checks the tree, takes a frame and writes the page table, all under the tree's lock, the page table under the mapper's and the allocator's too, and ends with nothing held |
| Threads.Table.constructor | stardust/src/task/scheduler.rs:16-23 | the table starts as an empty queue |
| Threads.Table.SpawnThread | stardust/src/task/scheduler.rs:25-42 | appends to the queue with the next id, and fails exactly after 64 spawns |
| Threads.Table.PopReadyThread | stardust/src/task/scheduler.rs:44-52 | takes the oldest thread not taken yet, or none if there is none |
| Threads.AtMostThree | stardust/src/task/scheduler.rs:144-146 | distinct workers are at most three |
| Threads.Run | stardust/src/task/scheduler.rs:144-166 | over every event sequence: threads leave in spawn order, each to one core, no core takes two, at most three run, the accepted ones are the first 64 spawned, and a scan gets a thread exactly if its worker has none and one is waiting |
| Threads.ScanIsServed | stardust/src/task/scheduler.rs:144-166 | a worker that scans while a thread is waiting has a thread from then on |
| SmpBoot.StepInv | stardust/src/smp.rs:60-77 | the boot invariant survives every step of the boot processor and of any application processor |
| SmpBoot.BootBarrier | stardust/src/smp.rs:42-77 | in every interleaving ids are distinct; once the boot processor goes on, each of the others has taken its id and initialised its hardware, its features and its interrupt controller, each once, in this order and before its report, the ids are exactly 1 to n - 1, and exactly one has loaded the shared task state segment |
| SmpBoot.DutiesInOrder | stardust/src/smp.rs:60-73 | at every moment a processor has made exactly its first steps of the five, each once and in order |
| SmpBoot.BootCompletes | stardust/src/smp.rs:42-77 | every run of the start-up can be continued until the boot processor goes on |
| SmpBoot.NewIdIsDistinct | stardust/src/smp.rs:62-62 | the id taken by the atomic increment is nobody else's |
| Mailbox.StoreInOrder | stardust/src/arch/x86_64/syscall.rs:166-169 | a store keeps the words received a subsequence of the words stored |
| Mailbox.SwapInOrder | stardust/src/arch/x86_64/syscall.rs:170-172 | a swap receives the word in the slot, empties it, and keeps the order without duplicates |
| Supervisor.NoLostWakeup | stardust/src/task/scheduler.rs:90-97 | for every interleaving with stores and interrupts, core 0 is never asleep on a non-empty mailbox, and what it takes is an in-order subsequence of what was stored |
| Supervisor.MessageIsTaken | stardust/src/arch/x86_64/cpu.rs:46-68 | with a word in the mailbox, core 0 has received a message after at most four of its own instructions in every interleaving with interrupts and with stores other than of zero |
| Supervisor.IdleSleeps | stardust/src/task/scheduler.rs:90-97 | with an empty mailbox and nothing coming in, core 0 is asleep after at most seven of its own instructions, and stays so |
| Input.MouseRoundTrip | userland/apps/test_app/src/lib.rs:124-138 | decoding a mouse payload gives back flags and signed movements, and the payload is not the empty word |
| Input.KeyRoundTrip | userland/apps/test_app/src/lib.rs:173-174 | decoding a key payload gives back the scancode, and the payload is not the empty word |
| Input.Driver.constructor | userland/drivers/ps2_hid/src/main.rs:65-66 | the driver starts between two packets |
| Input.Driver.PollOnce | userland/drivers/ps2_hid/src/main.rs:68-114 | one pass sends exactly what the bytes polled so far call for |
| Input.StreamsAreSeparate | userland/drivers/ps2_hid/src/main.rs:76-110 | the mouse packets are the consecutive triples of the mouse's own bytes whatever the keyboard does in between, and vice versa |
| Input.SentMeansIntended | userland/drivers/ps2_hid/src/main.rs:90-109 | every word sent is non-zero and decodes to the event the device meant |
| Input.Pipeline | userland/apps/test_app/src/lib.rs:121-174 | from polls to events in any interleaving: the events received are events meant by the devices, in order, each at most once, and every receive gets the last word stored since the receive before, if there is one |
| Fnv.GenerateObjectId | userland/libs/libstardust/src/tar.rs:37-44 | the loop computes the 64-bit FNV-1a hash (section 2 of draft-eastlake-fnv) |
| Fnv.KnownHashes | userland/libs/libstardust/src/tar.rs:37-44 | the empty name and the name `a` have the values that are known for the 64-bit FNV-1a hash |
| Fnv.StepInvertible | userland/libs/libstardust/src/tar.rs:40-41 | one round can be undone with the inverse of the prime |
| Fnv.StepSeparates | userland/libs/libstardust/src/tar.rs:40-41 | different bytes take the same state to different states |
| Fnv.CollisionIff | userland/libs/libstardust/src/tar.rs:37-44 | names with a common end collide if and only if they collide without it |
| Fnv.OneByteApart | userland/libs/libstardust/src/tar.rs:37-44 | names of equal length that differ in exactly one byte never collide |
| Tar.ReadName | userland/libs/libstardust/src/tar.rs:57-70 | the name up to its first NUL if it is UTF-8, otherwise `UNKNOWN` |
| Unicode.Utf8Iff | userland/libs/libstardust/src/tar.rs:57-70 | a name counts as UTF-8 exactly if it is the encoding of a sequence of Unicode scalar values (section 3 of RFC 3629) |
| Tar.UnknownName | userland/libs/libstardust/src/tar.rs:57-70 | a name that is no such encoding becomes `UNKNOWN` |
| Tar.ReadSize | userland/libs/libstardust/src/tar.rs:78-84 | the octal value of the digits, other bytes ignored |
| Tar.Parse | userland/libs/libstardust/src/tar.rs:52-107 | the loop terminates on all bytes and yields exactly the members of the recursive reading |
| Tar.HeadersApart | userland/libs/libstardust/src/tar.rs:86-103 | headers are read at increasing offsets, each past the data of the one before |
| Tar.AtMostLastDropped | userland/libs/libstardust/src/tar.rs:86-97 | on arbitrary bytes every header read becomes a member, except possibly the last, and that one exactly if its data is truncated |
| Tar.MembersInBounds | userland/libs/libstardust/src/tar.rs:90-103 | on arbitrary bytes all data slices lie in the archive, in order, and do not overlap |
| Tar.OctalRoundTrip | userland/libs/libstardust/src/tar.rs:78-84 | reading the octal digits of a number gives the number |
| Tar.HeaderRoundTrip | userland/libs/libstardust/src/tar.rs:57-84 | name and size of an encoded header are read back |
| Tar.ParseInvertsEncode | userland/libs/libstardust/src/tar.rs:52-107 | for every list of files with archivable names and sizes, reading the archive gives back their names and data, whatever follows the end block |
| Graphics.ExtentExact | userland/marshal/src/main.rs:185-186 | what the wrapping 64-bit clipping amounts to for every position that is not negative and every size |
| Graphics.Screen.Put | userland/marshal/src/main.rs:189-190 | one store sets the pixel meant and no other |
| Graphics.Screen.DrawRect | userland/marshal/src/main.rs:180-194 | for all 32-bit arguments exactly the pixels of the clipped extents are set, nothing at a negative position, and every index is in the framebuffer |
| Graphics.ExactClippingIff | userland/marshal/src/main.rs:180-194 | for all 32-bit arguments the pixels set are the rectangle cut to the screen if and only if it is not one that meets the screen from a negative position, nor one whose negative size reaches below zero while the other axis is filled |
| Graphics.MisdrawnInputs | userland/marshal/src/main.rs:182-186 | one input of each bad kind, with a pixel that is wrong |
| Graphics.PixelsAreMapped | stardust/src/arch/x86_64/syscall.rs:96-108 | every byte of every pixel lies in a page of the mapping loop, and all of these are below the user limit |
| Graphics.MapFramebuffer | stardust/src/arch/x86_64/syscall.rs:96-108 | refused exactly for a size beyond the user limit, stopped exactly by a size beyond 64 bits or a device page beyond 52-bit addresses; after a mapping without page-table error, of pages not mapped before, every byte of every pixel from 0xB0000000 on leads to the device's byte at its offset |
| Graphics.ScanLineIff | userland/marshal/src/main.rs:140-190 | the pixel offset used is the device's scan line offset if and only if it is the first line or the pitch is a multiple of four |
| Graphics.MetaRoundTrip | userland/marshal/src/main.rs:136-143 | pitch and height are read back from the metadata word |
| Ui.HitsExact | userland/marshal/src/main.rs:182-194 | a rectangle of non-negative size is drawn cut to the screen, or not at all when its corner is negative |
| Ui.PaintCovered | userland/apps/test_app/src/lib.rs:65-88 | after a list of calls a covered pixel has the colour of a rectangle that covers it, any other its own |
| Ui.MouseInv | userland/apps/test_app/src/lib.rs:134-168 | after a mouse message the cursor is the movement clamped to the screen; a drag goes on or begins exactly with the button down and the cursor dragging or on the title bar of 400 by 24 pixels; a dragged window hangs on the cursor at the recorded offset, and no other window moves |
| Ui.ColorAfter | userland/apps/test_app/src/lib.rs:173-179 | after n key presses among any messages the title bar has the colour 0x55AA + n * 0x1133 in 24 bits |
| Ui.ScratchIsLook | userland/apps/test_app/src/lib.rs:52-88 | the colour of every pixel of cursor, lines, button, client area, close box, title bar, frame, shadow and desktop, for every window whose corner is not left of or above the screen |
| Ui.RunInv | userland/apps/test_app/src/lib.rs:102-168 | over every run the cursor stays on the screen and the drag offset is kept; the title bar is always within reach if and only if the screen is at least 206 by 156, and otherwise the window never moves |
| Ui.GrabbableIff | userland/apps/test_app/src/lib.rs:143-156 | the title bar is within reach if and only if the code's hit test succeeds at some position the cursor can take |
| Ui.MoveTo | userland/apps/test_app/src/lib.rs:140-147 | from every state some movements without the button bring the cursor to any position, and leave the window alone |
| Ui.CanAlwaysGrab | userland/apps/test_app/src/lib.rs:134-168 | on a screen of at least 206 by 156, after any messages there are movements after which a press starts a drag with the window where it was |
| Ui.RedrawIff | userland/apps/test_app/src/lib.rs:187-194 | the incremental redraw equals the repaint from scratch on every pixel if and only if the old window had no negative coordinate or what showed of it is painted over |
| Ui.UnmovedIsClean | userland/apps/test_app/src/lib.rs:187-194 | a window that did not move is redrawn well wherever it is |
| Ui.StripeLeftBehind | userland/apps/test_app/src/lib.rs:189-192 | six mouse messages on a 1024 by 768 screen: five clean redraws, then one that leaves a pixel of the shadow behind |
| Ui.NonNegativeIsClean | userland/apps/test_app/src/lib.rs:120-196 | a run whose window has no negative coordinate before any message has only good redraws |
| Ui.DrawCursor | userland/apps/test_app/src/lib.rs:52-57 | paints the two cursor rectangles over what was there |
| Ui.DrawWindow | userland/apps/test_app/src/lib.rs:65-88 | paints the nine window rectangles back to front over what was there |
| Ui.DrawAll | userland/apps/test_app/src/lib.rs:115-118 | the first drawing shows the picture of the state, whatever was on the screen |
| Ui.Redraw | userland/apps/test_app/src/lib.rs:187-194 | the drawing calls after a message, as rectangles painted over the old screen |
| Ui.RedrawPictures | userland/apps/test_app/src/lib.rs:187-194 | on a screen that showed the old state, these calls show the new state if and only if the step is clean |
| Ui.HandleMouse | userland/apps/test_app/src/lib.rs:134-168 | the assignments of the loop, in order, amount to the transition function whose invariants are proved |
| Ui.RunUiLoop | userland/apps/test_app/src/lib.rs:101-197 | after any messages the loop is in the state of the transition function; the pixels are the repaint from scratch whenever all redraws were clean, and after a run clean up to its last message only then |
| Marshal.Start | userland/marshal/src/main.rs:86-149 | for every archive: which processes are spawned on which stacks, which pages are requested in which order, and that the last application named wins |
| Marshal.StartDrivers | userland/marshal/src/main.rs:99-115 | every object with the driver's name is loaded, and each success takes the next stack |
| Marshal.DriversIff | userland/marshal/src/main.rs:99-104 | exactly the objects that some `driver:` line names are started |
| Marshal.AppIsLastNamed | userland/marshal/src/main.rs:116-125 | the application is the last object with the name on the last `app:` line that names an object |
| Marshal.NoAppNamed | userland/marshal/src/main.rs:116-125 | without such a line there is no application |
| Marshal.SpawnedBy | userland/marshal/src/main.rs:104-113 | a load that succeeds after k others gives process number k, at its entry, with its stack top 64 KiB above 0x600000000000 + k MiB |
| Marshal.LayoutIs | userland/marshal/src/main.rs:89-151 | every page of the layout in numbers: 16 MiB of heap, 16 pages for each driver, the shared page and 16 MiB of deep stack |
| Marshal.NoCollisionIff | userland/marshal/src/main.rs:89-151 | no heap, stack, shared or deep-stack page is requested twice if and only if at most 15 drivers were loaded |
| Marshal.StacksApart | userland/marshal/src/main.rs:93-112 | the stack pages of any number of drivers are pairwise different |
| Marshal.AllAcceptedIff | stardust/src/arch/x86_64/syscall.rs:40-43 | the kernel accepts every request if and only if at most 2^25 drivers were loaded |
| Marshal.StackOfSpawn | userland/marshal/src/main.rs:105-109 | all 16 pages below the stack pointer of a spawned process were requested |
| Marshal.GrantAll | userland/marshal/src/main.rs:40-45 | granting a list of pages maps every acceptable one and no other page, with memory of its own where it was unmapped, and keeps all visible bytes; only a lack of frames can stop it |
| Marshal.OwnMemory | userland/marshal/src/main.rs:93-151 | addresses in two pages with frames of their own never reach the same physical byte |
| Marshal.OwnFramesIff | userland/marshal/src/main.rs:93-151 | once all requests are served, heap and stacks have frames of their own if and only if at most 15 drivers were loaded |
| Marshal.StartOnMachine | userland/marshal/src/main.rs:86-151 | the whole start on a machine with loads, grants, memsets and framebuffer: a process for exactly the ELF files among the named drivers, at their entries; at the end each byte of their images is what the last driver around it put there, or zero in the deep stack, and all of them read back if and only if they agree wherever they overlap and prescribe zeros in the deep stack; heap and deep stack are zero; without page-table error heap and stacks have frames of their own if and only if at most 15 were started, and a framebuffer that the kernel accepts, whose pages were unmapped, lie below the heap and are asked for by no driver, is shown pixel for pixel; it stops only for lack of frames, a page-table error, a driver that lacks a page, a framebuffer beyond the address range, or a bootloader page in heap or deep stack |
| Marshal.StartDriversOn | userland/marshal/src/main.rs:99-115 | every driver in order: loaded, stack granted, spawned on the next stack exactly if it is an ELF file; each byte of their images is what the last driver around it puts there, and all of them read back if and only if they agree wherever they overlap; the heap stays zero, no page becomes mapped below the heap that no driver asks for, and it stops only for lack of frames, a page-table error or a driver that lacks a page |
| Marshal.DriversSurviveIff | userland/marshal/src/main.rs:104-115 | after the drivers were started in order, all images read back if and only if any two of them prescribe the same byte at every address both cover |
| Marshal.EndSurviveIff | userland/marshal/src/main.rs:145-153 | after the deep stack was cleared, all images read back if and only if they agree and prescribe zeros in the deep stack |
| Marshal.FinishStart | userland/marshal/src/main.rs:132-153 | after the shared page, the framebuffer and the deep stack only the deep stack's bytes changed, all of it that can be seen is zero, and new pages are memory or the framebuffer's; without page-table error a framebuffer that the kernel accepts, on pages that were unmapped at the start of this half, is shown pixel for pixel at the end; it stops only for lack of frames, a page-table error, a framebuffer beyond the address range, or a bootloader page in the deep stack |
| DriverImages.DriverFileIs | userland/drivers/gpu_driver/linker.ld:17-25 | a written ELF file with one byte of text at 0x800000 is a well-formed driver image |
| DriverImages.PairIsGood | userland/drivers/ps2_hid/linker.ld:19-28 | two such drivers meet the conditions of marshal's start if the address is off the archive and unmapped or ordinary memory |
| DriverImages.PairDisagrees | userland/drivers/gpu_driver/linker.ld:20-25 | two different drivers at that address do not agree |
| DriverImages.FirstDriverLost | userland/marshal/src/main.rs:102-115 | after every start of the two the address shows the second one's byte, and the first one cannot be read back |
| DriverImages.ShippedDrivers | Orchestrator/stardust.py:226-244 | from an archive with both drivers and the `init.rc` that the build script writes, marshal takes exactly these two, in this order |
| DriverImages.WrittenContains | Orchestrator/stardust.py:241-244 | an archive written from files consists of them for the reader |
| DriverImages.ShippedDriverLost | userland/marshal/src/main.rs:88-115 | with that archive all conditions of the start hold, the drivers do not agree, and after every start the first driver is lost |

## Left out

- Kernel.Kernel.MapTo: the `x86_64` crate's walk over page-table levels is not modelled; the contract allows any failure and any number of table frames.
- Kernel.Kernel.KernelStoreBytes: ends before a store through a bootloader mapping into a page table or outside the allocator's frames, because the kernel's own code and data and the encoding of page tables are not modelled.
- Kernel.Kernel.LoadBytes: a load from a device page stops, because the contents of devices are not modelled.
- Kernel.Kernel.MapPage: a virtual address with only bit 47 set above the lower half counts as rejected; the crate that decides this is not part of this model and may extend its sign instead.
- KernelLoader.LoadAndGetEntry: nothing is said about the bytes loaded from a file whose tables or segments do not fit in it, onto pages a device has mapped, or when two of its pages lead to one frame.
- UserLoader.Load: the copy is modelled as reading all source bytes and then writing them; segments that overlap the image they are read from are excluded from the promises about bytes.
- Graphics.Screen.DrawRect: framebuffers narrower than 2^30 and lower than 2^31 pixels, which every metadata word gives apart from heights of 2^31 and more.
- Graphics.MetaRoundTrip: pitch and height below 2^32; a larger value would not survive the packing.
- Ui.RunInv: screens from 6 by 6 to below 2^30 by 2^30 pixels; on smaller ones the cursor itself has a negative position.
- Ui.RunUiLoop: the endless loop is modelled over every finite sequence of polled words, the zero word included.
- Shootdown.ShootdownSafety: workers run with interrupts disabled, so the wait need not end; Shootdown.ShootdownCompletes says only that it can, if the interrupts are delivered.
- Marshal.Start: the pages that the ELF loads ask for are not in its list; cutting `init.rc` into trimmed lines and the result of each ELF load are parameters (the loads are performed in Marshal.StartOnMachine); that stack addresses wrap beyond 2^44 drivers is not modelled.
- Marshal.StartOnMachine: drivers whose images overlap the archive or marshal's heap are excluded, because marshal reads both while it goes on and would read what the driver put there; marshal's own code, static data and first stack are not part of the memory modelled; the IOMMU call does nothing.
- Marshal.StartDriversOn: a spawned driver may already run on another core and write to its own image; the bytes promised are those that the loads leave, without such writes.
- Marshal.NoCollisionIff: the pages that the ELF loads ask for are not in the list; two drivers at one address ask for the same page twice, which changes no mapping.
- Locks.NeverDeadlocked: services that panic while holding a lock are excluded.
- Ui.ScratchIsLook: a window whose corner is left of or above the screen; its rectangles with a negative corner are not drawn, and Ui.HitsExact says which are.
- The capability tree beyond the single genesis token with id 0, which is the only one ever sealed.
- Port I/O, model-specific registers, descriptor tables, the context switch and the system call entry assembly.
- Whether the workers' interrupt table is the one core 0 saved; nothing orders the two.
- The serial log, the IOMMU stub, PCI scanning, the GPU driver and the build script.
- The heap allocator and the WebAssembly interpreter inside marshal.
