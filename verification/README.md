# Nitro Enclaves: a verified model

This project models three parts of the Nitro Enclaves stack and proves what they guarantee.

1. **The kernel driver** (`ne_misc_dev.c`, `ne_pci_dev.c`): CPU pool setup, the choice of vCPUs, page pinning
   and memory regions, start, out-of-band events and release. The operations are classes and loops, proved
   equal to functions on values. A transition system (`NeSystem`) interleaves those functions over any number
   of enclaves at lock-section granularity. `NeSteps` says exactly when each step takes effect and what it
   changes, `NeBase` proves what every run keeps, `NeTheorems` and `AutoVcpu` state what follows for pool and
   enclaves, and `NeProgress` that a free core is always enough to start one.
   `Locks` proves that the mutexes cannot deadlock and that shared data is only accessed under its mutex.
2. **The huge-page allocator and the image loader** (`resource_manager.rs`): a two-pass greedy allocator over
   a finite stock of pages, and a scatter write of one file over many regions that refines one flat copy.
   `CpuInit` is the loop that adds the vCPUs, with the exact condition under which a number or a list of them can
   be had and started with. `EndToEnd` joins all of it with the driver: a started enclave reads its whole image at
   the load offset if its memory has room for it there, and the size checks ensure the room exactly when the least
   amount that can be started has it, in particular below 2^62 bytes.
3. **The command line and enclave process protocol**: frames and codecs (`Wire`), broadcast accounting
   (`Broadcast`), the event loop over whole runs (`EventLoop`), names (`Naming`), enclave IDs (`EnclaveId`) and
   CPU lists (`CpuList`).

`dafny verify dfyconfig.toml` checks everything.

## Assumptions

- Sibling sets of the host's CPUs are the classes of an equivalence relation with one class size
  (`PoolSetup.Uniform`); `add_cpu` succeeds.
- A device exchange (`ne_do_request`) is one atomic success or error. `get_user_pages`, the device, munmap and
  all socket and epoll outcomes are arbitrary inputs. Retries on EINTR are finite and not shown.
- Slot uids are nonzero; a creation that would reuse one fails. User and physical ranges do not wrap, and the
  counters of a single enclave do not overflow.
- The event worker uses the state in a SLOT_INFO reply even when the request failed, so a reply can be INIT.
  `FrozenExact` says exactly when that matters to a started enclave, and `InitReplyUnfreezes` shows that it does.
- The driver drops the enclave list's mutex after the check that precedes a change of the pool. Teardown and setup
  are two further steps, so an enclave can be created before, between and after them. In every run, raced or not, no
  thread has two places, no CPU in use is online, and the memory invariant holds. That cores stay whole and none is
  lost is stated for the runs that neither tear the pool down under an enclave that holds a core nor set one up that
  an enclave does not fit (`Harmless`). `RaceExact` proves that exactly these keep that invariant in all their
  states, `NoRaceIsHarmless` that all runs without a creation during a change are among them.
  `RaceBreaksInvariant`, `ReleaseOutOfBounds` and `CountedTwice` show what the others can do.
- A setup takes whole cores of CPUs that are online (`SetupOk`, which `PreparedSetupOk` proves of what setup leaves),
  and takes them offline; a teardown puts the CPUs of the pool online. A write that a release makes beyond the
  pool's array is ignored by the transition system.
- Dropping the last reference to a new enclave's file when the slot uid cannot be copied out runs the release
  after the ioctl returned, so `Locks` treats it as its own release operation.
- `ENCLAVE_MEMORY_EIF_SIZE_RATIO * eif_size` is a u64 product that wraps, as in a release build; file sizes are
  below 2^63. `memory_mib << 20` drops high bits.
- Mapping a page of a size fails exactly when none is left. `get_user_pages` finds behind a region that is one
  huge page either an error or that page.
- CBOR and JSON are codecs of which only `decode(encode(x)) == x` is used, for the values sent; a length
  prefix that promises more bytes than arrive counts as a failed read.
- A termination thread shares the handle of the enclave process and can clear it between any two turns of the
  event loop; of what it clears, the model has the CID.
- Names are queried and enclaves started one after the other, and all processes answer; the counter of
  `new_enclave_name` is unbounded.

Where comment and code differ, the model follows the code: a request of 2^63 bytes or more becomes negative in
the allocator, gets no region and is caught only by the later size check of `init_memory`.

## Model

| member | source | states |
|---|---|---|
| CpuSelect.CpuPool.GetUnusedCore | drivers/virt/nitro_enclaves/ne_misc_dev.c:583-596 | The result is the least slot with a non-empty mask, or -1 exactly when all are empty. |
| CpuSelect.CpuPool.GetVcpuCore | drivers/virt/nitro_enclaves/ne_misc_dev.c:710-723 | The result is the least slot holding the CPU, or -1 exactly when none does. |
| CpuSelect.FirstIndex | drivers/virt/nitro_enclaves/ne_misc_dev.c:588-593 | Least index that satisfies the test; nothing before it does; -1 exactly when none does. |
| CpuSelect.FirstUndonated | drivers/virt/nitro_enclaves/ne_misc_dev.c:669-675 | Finds the least thread of a mask that is not donated, exactly when there is one. |
| CpuSelect.EnclaveCpus.SetThreadsPerCore | drivers/virt/nitro_enclaves/ne_misc_dev.c:611-643 | Moves the whole core from the pool to the enclave, or changes nothing and gives the error of the first failing check. |
| CpuSelect.EnclaveCpus.GetCpuFromPool | drivers/virt/nitro_enclaves/ne_misc_dev.c:657-697 | A free sibling of a held core comes first, then the first free core of the pool; pool, cores and outcome are those of the selection function. |
| CpuSelect.AutoExact | drivers/virt/nitro_enclaves/ne_misc_dev.c:657-697 | Otherwise the least free thread of the first held core that has one is chosen; without one, the first free core moves and the least thread in its slot is chosen; refused exactly if there is neither. |
| CpuSelect.EnclaveCpus.CheckCpuInPool | drivers/virt/nitro_enclaves/ne_misc_dev.c:736-776 | A given vCPU is refused if donated, taken from a held core, or taken with its whole core from the pool; what is chosen is that vCPU. |
| CpuSelect.GivenExact | drivers/virt/nitro_enclaves/ne_misc_dev.c:736-776 | A caller who names a vCPU gets that one or each refusal exactly on its condition; the pool changes exactly if no held core has it, and then exactly its core moves. |
| CpuSelect.EnclaveCpus.AddVcpu | drivers/virt/nitro_enclaves/ne_misc_dev.c:1234-1301 | The whole ioctl: selection, then recording exactly if the device accepts; a named vCPU is the one that is added; a device error keeps the core but records nothing. |
| CpuSelect.EnclaveCpus.FullCoresUsed | drivers/virt/nitro_enclaves/ne_misc_dev.c:1188-1195 | True exactly when every thread of every held core is a vCPU. |
| CpuSelect.EnclaveCpus.RemoveAllVcpus | drivers/virt/nitro_enclaves/ne_misc_dev.c:1501-1521 | Every slot of the pool gets back the enclave's threads of that slot and nothing else; all writes are inside the pool's array exactly when no core beyond it is held. |
| PoolSetup.AllOnline | drivers/virt/nitro_enclaves/ne_misc_dev.c:304-313 | True exactly when all requested CPUs are online. |
| PoolSetup.OneNode | drivers/virt/nitro_enclaves/ne_misc_dev.c:314-337 | True exactly when all requested CPUs are on one valid NUMA node, which is returned. |
| PoolSetup.NoneOf | drivers/virt/nitro_enclaves/ne_misc_dev.c:351-360 | True exactly when no sibling of CPU 0 is requested. |
| PoolSetup.SiblingsIncluded | drivers/virt/nitro_enclaves/ne_misc_dev.c:362-378 | True exactly when every requested CPU brings all its siblings. |
| PoolSetup.CountThreads | drivers/virt/nitro_enclaves/ne_misc_dev.c:380-383 | Counts the siblings of the first CPU. |
| PoolSetup.CheckRequest | drivers/virt/nitro_enclaves/ne_misc_dev.c:304-378 | Accepts exactly the acceptable requests: non-empty, online, one node, CPU 0 and its siblings out, full cores. |
| PoolSetup.SplitCores | drivers/virt/nitro_enclaves/ne_misc_dev.c:403-414 | Splits the request into exactly its sibling classes in slots 0..c-1; the slot index never leaves the array; the request has c full cores. |
| PoolSetup.AddCore | drivers/virt/nitro_enclaves/ne_misc_dev.c:408-413 | One core is marked and set in the next slot, which exists because its threads are new. |
| PoolSetup.PoolSize | drivers/virt/nitro_enclaves/ne_misc_dev.c:385-389 | The pool has c cores times threads per core CPUs, and c is at most the host's number of cores. |
| PoolSetup.SlotsIsDivision | drivers/virt/nitro_enclaves/ne_misc_dev.c:385-389 | The array size used in the proofs is the division of the code. |
| PoolSetup.Offline | drivers/virt/nitro_enclaves/ne_misc_dev.c:426-447 | Takes the CPUs offline, or leaves the online set as it was, exactly when one cannot be taken. |
| PoolSetup.Setup | drivers/virt/nitro_enclaves/ne_misc_dev.c:264-461 | Succeeds exactly for acceptable requests that can be taken offline; then the pool is the split, on one node; otherwise the pool is empty and the online set unchanged. |
| PoolSetup.Prepare | drivers/virt/nitro_enclaves/ne_misc_dev.c:304-419 | Accepts exactly the acceptable requests and then gives their split, thread count and node. |
| PoolSetup.PreparedSetupOk | drivers/virt/nitro_enclaves/ne_misc_dev.c:403-434 | What setup leaves in the pool are whole cores of CPUs that were online, together the request. |
| PoolSetup.Teardown | drivers/virt/nitro_enclaves/ne_misc_dev.c:470-503 | Empties the pool and puts exactly its CPUs back online. |
| PoolSetup.SetKernelParam | drivers/virt/nitro_enclaves/ne_misc_dev.c:515-552 | Succeeds exactly if the new list is acceptable for the CPUs online after teardown, can be taken offline and is stored; then the pool is that list in whole cores, offline; otherwise it is empty and all its CPUs are online again. |
| MemRegions.PinRecords | drivers/virt/nitro_enclaves/ne_misc_dev.c:1038-1075 | Every recorded page passed all checks and answers its own call, and there are never more pages than array slots. |
| MemRegions.PinCovers | drivers/virt/nitro_enclaves/ne_misc_dev.c:1038-1075 | Running out of slots happens only for size 0; on success the pages cover the region and without the last one they do not. |
| MemRegions.PinErrors | drivers/virt/nitro_enclaves/ne_misc_dev.c:894-952 | The errno is that of the call that failed: no page, not huge, bad size, wrong node or unaligned address, in the fields of the page. |
| MemRegions.GoodPageExact | drivers/virt/nitro_enclaves/ne_misc_dev.c:894-952 | A page passes the checks exactly if it is a hugetlbfs page of whole aligned 2 MiB pieces on the node. |
| MemRegions.PinOutcome | drivers/virt/nitro_enclaves/ne_misc_dev.c:1019-1075 | The whole loop: recorded pages are hugetlbfs pages, aligned and sized in 2 MiB, on the node; it fails exactly at the first call before the region is covered that yields no such page, or for size 0; on success the pages just cover the region. |
| MemRegions.PinPages | drivers/virt/nitro_enclaves/ne_misc_dev.c:1019-1075 | The loop with its two fixed-size buffers stays in bounds and computes the pinning function and the merged ranges. |
| MemRegions.FetchPage | drivers/virt/nitro_enclaves/ne_misc_dev.c:1039-1067 | One turn up to recording the page: each failure is the one of the pinning function and changes no range; otherwise the page is good and merged. |
| MemRegions.PhysContig.Add | drivers/virt/nitro_enclaves/ne_misc_dev.c:965-986 | Extends the last range in place or appends one, or refuses an unaligned page and changes nothing. |
| MemRegions.MergeDenotes | drivers/virt/nitro_enclaves/ne_misc_dev.c:965-986 | Adding a page appends exactly its addresses and keeps the ranges aligned and never contiguous with a neighbour. |
| MemRegions.MergeAllDenotes | drivers/virt/nitro_enclaves/ne_misc_dev.c:965-986 | The merged ranges denote exactly the pages' addresses in order, no two neighbours touch, and sizes add up. |
| MemRegions.OverlapExact | drivers/virt/nitro_enclaves/ne_misc_dev.c:863-877 | The overlap test is true exactly when the two non-empty user ranges share an address. |
| MemRegions.EnclaveMemory.CheckUserRegion | drivers/virt/nitro_enclaves/ne_misc_dev.c:832-880 | The loop finds the first failing check, and overlap with any listed region. |
| MemRegions.UserErrorExact | drivers/virt/nitro_enclaves/ne_misc_dev.c:832-880 | Each refusal of a user range exactly on its condition: size, alignment, beyond the user address space, or an address already listed. |
| MemRegions.ListRegionCases | drivers/virt/nitro_enclaves/ne_misc_dev.c:1077-1128 | The re-check of the merged ranges can never fail; the outcomes are the region limit, a device error after a prefix, or success. |
| MemRegions.EnclaveMemory.CheckRanges | drivers/virt/nitro_enclaves/ne_misc_dev.c:1088-1095 | All merged ranges pass the physical check; the error branch is dead. |
| MemRegions.EnclaveMemory.RequestAll | drivers/virt/nitro_enclaves/ne_misc_dev.c:1102-1128 | Size and region counters grow by exactly the ranges the device accepted, also when it stops halfway. |
| MemRegions.EnclaveMemory.ListUserRegion | drivers/virt/nitro_enclaves/ne_misc_dev.c:1077-1142 | The part after pinning computes the listing function, including the pages put back on refusal. |
| MemRegions.EnclaveMemory.SetUserRegion | drivers/virt/nitro_enclaves/ne_misc_dev.c:999-1143 | The whole ioctl computes the value-level memory step with the same error. |
| MemRegions.SetMemoryOutcome | drivers/virt/nitro_enclaves/ne_misc_dev.c:999-1143 | The ioctl keeps the memory invariant. A refusal changes no list and no counter and puts what it pinned; a device error lists the region and counts what was accepted; success counts all of it. |
| MemRegions.SetMemoryExact | drivers/virt/nitro_enclaves/ne_misc_dev.c:999-1143 | A region is listed exactly if its range is good and inside the user address space, it was pinned and its physical ranges are within the limit; success, region limit and device error exactly on their conditions. |
| MemRegions.EnclaveMemory.RemoveAll | drivers/virt/nitro_enclaves/ne_misc_dev.c:1474-1492 | Empties the list and puts each recorded page exactly once: afterwards pages put equal pages pinned. |
| NeSystem.ReserveShape | drivers/virt/nitro_enclaves/ne_misc_dev.c:611-776 | A selection does nothing, picks an undonated held thread, or moves one whole non-empty core; "invalid core id" is impossible for arrays of equal length. |
| NeSystem.MoveKeeps | drivers/virt/nitro_enclaves/ne_misc_dev.c:611-643 | A core that moves was whole in the pool and absent from the enclave; afterwards it is whole in the enclave only. |
| NeSystem.ReturnPlaced | drivers/virt/nitro_enclaves/ne_misc_dev.c:1501-1521 | The cores of a released enclave are whole in the pool again. |
| NeSystem.StepKeeps | drivers/virt/nitro_enclaves/ne_misc_dev.c:1229-1465 | Every harmless step of any enclave or of the administrator keeps the CPU invariant. |
| NeSystem.RunKeeps | drivers/virt/nitro_enclaves/ne_misc_dev.c:1229-1465 | Every harmless interleaving keeps it, whatever the device answers. |
| NeSystem.TearDownExact | drivers/virt/nitro_enclaves/ne_misc_dev.c:470-503 | Tearing the pool down keeps the invariant exactly when no enclave holds a core. |
| NeSystem.SetUpExact | drivers/virt/nitro_enclaves/ne_misc_dev.c:264-461 | Setting a pool up keeps the invariant exactly when every enclave has its slots, threads per core and NUMA node. |
| NeSystem.RaceExact | drivers/virt/nitro_enclaves/ne_misc_dev.c:523-531 | A run is harmless if and only if the invariant holds in every one of its states. |
| NeSystem.NoRaceIsHarmless | drivers/virt/nitro_enclaves/ne_misc_dev.c:233-249 | Runs without a creation while the pool is being changed are harmless. |
| NeBase.SetUpKeepsBase | drivers/virt/nitro_enclaves/ne_misc_dev.c:304-313 | A pool is set up from CPUs that no enclave holds, because they are online. |
| NeBase.StepKeepsBase | drivers/virt/nitro_enclaves/ne_misc_dev.c:1229-1465 | Every step, raced or not: no thread in two places, none in use online, vCPUs inside the enclave's own cores, started enclaves passed their checks. |
| NeBase.RunKeepsBase | drivers/virt/nitro_enclaves/ne_misc_dev.c:1229-1465 | The same for every run. |
| NeSteps.ReconfExact | drivers/virt/nitro_enclaves/ne_misc_dev.c:470-531 | When the check before a pool change passes, and what exactly a teardown changes. |
| NeSteps.SetUpStepExact | drivers/virt/nitro_enclaves/ne_misc_dev.c:264-461 | When a setup takes effect, and that it puts exactly its CPUs offline. |
| NeSteps.CreateCheckExact | drivers/virt/nitro_enclaves/ne_misc_dev.c:1687-1702 | A creation begins exactly if the pool has a thread. |
| NeSteps.CreateExact | drivers/virt/nitro_enclaves/ne_misc_dev.c:1704-1777 | It yields an enclave exactly if the device gives a new slot: in INIT, with the pool's slots, threads per core and node, without CPUs and memory; nothing else changes. |
| NeSteps.ReleaseExact | drivers/virt/nitro_enclaves/ne_misc_dev.c:1559-1630 | An enclave is gone exactly if the device agrees and nobody has its mutex or the list; its threads are then back in their slots, its pages put, and no other enclave changes. |
| NeSteps.StartExact | drivers/virt/nitro_enclaves/ne_misc_dev.c:1156-1216 | An enclave in INIT becomes RUNNING if and only if it has memory, 64 MiB of it, and vCPUs, all threads of its cores are among them, and the device agrees; nothing else changes. |
| NeSteps.OnlyInInit | drivers/virt/nitro_enclaves/ne_misc_dev.c:1243-1243 | Outside INIT, or while an addition waits for the device, no resource is added and nothing starts. |
| NeSteps.ReserveExact | drivers/virt/nitro_enclaves/ne_misc_dev.c:1234-1284 | A named vCPU is reserved, and no other, exactly if it is below the limit, not donated, and held or in the pool. |
| NeSteps.RecordExact | drivers/virt/nitro_enclaves/ne_misc_dev.c:790-818 | A waiting vCPU is recorded and counted exactly if the device accepts it. |
| NeSteps.SetMemExact | drivers/virt/nitro_enclaves/ne_misc_dev.c:1346-1373 | The memory ioctl changes the memory of its enclave only. |
| NeSteps.EventExact | drivers/virt/nitro_enclaves/ne_pci_dev.c:231-259 | A running enclave takes over a reported state other than RUNNING and raises its flag; any other ignores events. |
| NeSystem.StepKeepsMem | drivers/virt/nitro_enclaves/ne_misc_dev.c:999-1143 | Every step keeps the memory invariant of every enclave, living or released. |
| NeSystem.SetMemoryPages | drivers/virt/nitro_enclaves/ne_misc_dev.c:894-920 | Listed pages passed the page and physical checks for the enclave's NUMA node. |
| NeSystem.RunKeepsMem | drivers/virt/nitro_enclaves/ne_misc_dev.c:840-1128 | In every run, harmless or not: user ranges disjoint, non-empty and aligned, region count within the limit, memory size the sum of accepted sizes, each recorded page listed or put once, and all of them put once an enclave is released. |
| NeTheorems.ExactlyOnePlace | drivers/virt/nitro_enclaves/ne_misc_dev.c:611-776 | In every state of every harmless run each pool core lies whole in exactly one place. |
| NeTheorems.NothingLost | drivers/virt/nitro_enclaves/ne_misc_dev.c:1501-1521 | In every harmless run the union over all places is exactly the pool as set up. |
| NeTheorems.NoSharing | drivers/virt/nitro_enclaves/ne_misc_dev.c:611-776 | In every run no thread is in two places and no CPU of the pool or of an enclave is online. |
| NeTheorems.VcpusAreHeld | drivers/virt/nitro_enclaves/ne_misc_dev.c:790-818 | In every run vCPU ids are threads of the enclave's own cores. |
| NeTheorems.VcpusAreCounted | drivers/virt/nitro_enclaves/ne_misc_dev.c:611-643 | In every harmless run the counter is their number and "invalid core id" is unreachable. |
| NeTheorems.StartedOwnsItsCpus | drivers/virt/nitro_enclaves/ne_misc_dev.c:1156-1216 | In every run a started enclave owns cores, its vCPUs are exactly their threads, neither pool nor any other enclave holds them, none is online, and it has 64 MiB in at least one region. |
| NeTheorems.StartedOwnsWholeCores | drivers/virt/nitro_enclaves/ne_misc_dev.c:1156-1216 | In every harmless run these are whole cores of the pool as it was set up. |
| NeTheorems.PagesOnPoolNode | drivers/virt/nitro_enclaves/ne_misc_dev.c:894-920 | In every harmless run, while there is a pool, all pages listed for an enclave are hugetlbfs pages of whole aligned 2 MiB pieces on its NUMA node. |
| NeTheorems.ReleasedPagesPut | drivers/virt/nitro_enclaves/ne_misc_dev.c:1474-1492 | In every run each enclave that was released has put each recorded page exactly once. |
| NeTheorems.ReleaseInBounds | drivers/virt/nitro_enclaves/ne_misc_dev.c:1508-1514 | In every harmless run a release writes only to slots that the pool has. |
| NeTheorems.FrozenExact | drivers/virt/nitro_enclaves/ne_pci_dev.c:238-256 | A started enclave stays started up to its release if and only if no INIT reply about it takes effect; then it keeps exactly its CPUs, memory and counters. |
| NeTheorems.StartedKeepsResources | drivers/virt/nitro_enclaves/ne_misc_dev.c:1229-1465 | With replies about it that report RUNNING or STOPPED it keeps exactly these CPUs, memory and counters until release, whatever other enclaves get, and once stopped stays stopped. |
| NeTheorems.InitReplyUnfreezes | drivers/virt/nitro_enclaves/ne_pci_dev.c:238-256 | With an effective INIT reply the running enclave can take another core. |
| NeTheorems.EventFlags | drivers/virt/nitro_enclaves/ne_pci_dev.c:214-263 | In all states of a run an enclave's poll flag is up exactly if it stopped, if and only if no INIT reply about it takes effect. |
| NeTheorems.RaceBreaksInvariant | drivers/virt/nitro_enclaves/ne_misc_dev.c:523-531 | From any good state with a free core, a creation and an added vCPU before the teardown break the invariant. |
| NeTheorems.ReleaseOutOfBounds | drivers/virt/nitro_enclaves/ne_misc_dev.c:1508-1514 | Then the enclave holds a core in a slot that the pool no longer has, so its release indexes beyond the array. |
| NeTheorems.AutoRepeatsIff | drivers/virt/nitro_enclaves/ne_misc_dev.c:677-694 | With all held threads donated, the automatic choice repeats a vCPU exactly when it merges a core into a slot in which the enclave holds a smaller thread. |
| NeTheorems.CountedTwice | drivers/virt/nitro_enclaves/ne_misc_dev.c:790-818 | A run in which an enclave with one vCPU counts two. |
| NeProgress.CanStart | drivers/virt/nitro_enclaves/ne_misc_dev.c:1229-1465 | With a free core some steps create an enclave, give it that core thread by thread and memory, and start it; nothing else changes. |
| NeProgress.FreeCoreStarts | drivers/virt/nitro_enclaves/ne_misc_dev.c:1229-1465 | After every run, raced or not, one thread in the pool is enough to start a new enclave on a core of the pool, leaving all others alone; releasing it restores the pool. |
| NeProgress.StartsFromBoot | drivers/virt/nitro_enclaves/ne_misc_dev.c:515-552 | From boot: on every pool that can be set up with a thread an enclave can be started. |
| AutoVcpu.AutoRun | drivers/virt/nitro_enclaves/ne_misc_dev.c:657-697 | With driver-chosen vCPUs, in every run at most one held core is not fully donated. |
| AutoVcpu.BegunRun | drivers/virt/nitro_enclaves/ne_misc_dev.c:657-697 | In every harmless run without device errors every held core has a donated or waiting thread. |
| AutoVcpu.FullCoresIffMultiple | drivers/virt/nitro_enclaves/ne_misc_dev.c:1188-1195 | Then the full-core check passes exactly when the number of vCPUs is a multiple of the threads per core. |
| AutoVcpu.AutoRefusedIff | src/enclave_proc/resource_manager.rs:695-714 | An addition of a counted vCPU is refused exactly when every held thread is donated and the pool is empty. |
| CpuInit.SelectionIsSound | drivers/virt/nitro_enclaves/ne_misc_dev.c:611-776 | Whatever the device says, an addition to one enclave loses no thread and chooses a new vCPU. |
| CpuInit.AddAllSound | src/enclave_proc/resource_manager.rs:695-714 | Successful additions make exactly the listed vCPUs, all different, those of the enclave; those asked for by number are listed as asked. |
| CpuInit.AutoUsesSpare | src/enclave_proc/resource_manager.rs:707-711 | Every driver-chosen addition uses up one spare thread, and is refused exactly when there is none. |
| CpuInit.CountFits | src/enclave_proc/resource_manager.rs:707-711 | A number of vCPUs can be had exactly if there are as many spare threads. |
| CpuInit.CountExact | src/enclave_proc/resource_manager.rs:707-711 | A new enclave gets n vCPUs if and only if the pool has n threads; they are full cores if and only if n is a multiple of the threads per core. |
| CpuInit.ListFits | src/enclave_proc/resource_manager.rs:700-706 | A list of vCPUs can be had exactly if they are different, within the limit and in the pool. |
| CpuInit.ListExact | src/enclave_proc/resource_manager.rs:700-706 | They are then the vCPUs, and full cores exactly if the list has, core by core, all threads or none. |
| CpuInit.GrantedExact | src/enclave_proc/resource_manager.rs:695-714 | A new enclave gets vCPUs with which it can be started exactly if the configuration fits the pool. |
| CpuInit.InitCpu | src/enclave_proc/resource_manager.rs:684-692 | One ioctl: the vCPU that was added, or nothing added. |
| CpuInit.InitCpus | src/enclave_proc/resource_manager.rs:695-714 | The loop succeeds exactly if every addition does and the device accepts them all; either way no thread is lost. |
| Locks.ProgramInOrder | drivers/virt/nitro_enclaves/ne_misc_dev.c:1583-1619 | Every entry point, on every path, takes enclave list, one enclave, then pool or device mutex, never both, accesses the list, an enclave, the pool and the device only under their mutexes, and releases all. |
| Locks.AccessesExact | drivers/virt/nitro_enclaves/ne_misc_dev.c:677-694 | Which of the list, the enclave, the pool and the device each entry point works on, in order, on each path. |
| Locks.RunKeeps | drivers/virt/nitro_enclaves/ne_misc_dev.c:677-694 | In every interleaving no mutex has two holders and every thread's rest is in order. |
| Locks.NoDeadlock | drivers/virt/nitro_enclaves/ne_pci_dev.c:144-174 | After every interleaving of any threads and entry points, all are done or some thread can move. |
| Locks.NoDataRace | drivers/virt/nitro_enclaves/ne_misc_dev.c:1506-1516 | After every interleaving whoever is about to access shared data holds its mutex, and no two threads are about to access the same. |
| Locks.CanFinish | drivers/virt/nitro_enclaves/ne_pci_dev.c:224-262 | Every reachable state has a schedule that completes all threads. |
| Allocator.HugePages.Map | src/enclave_proc/resource_manager.rs:203-242 | Maps one page exactly when the stock of that size is not empty, takes exactly that page, at addresses not in use. |
| Allocator.HugePages.Unmap | src/enclave_proc/resource_manager.rs:254-275 | A freed region is a no-op, a failed munmap changes nothing, otherwise one page goes back and the region is marked. |
| Allocator.ResourceAllocator.Take | src/enclave_proc/resource_manager.rs:365-375 | Maps pages of one size until less is needed or none is left, each of them the greedy choice. |
| Allocator.ResourceAllocator.TakeOne | src/enclave_proc/resource_manager.rs:367-371 | One page moves from the stock to a new region at fresh addresses, exactly if there is one. |
| Allocator.ResourceAllocator.TakeNext | src/enclave_proc/resource_manager.rs:366-373 | One turn of either loop takes the greedy choice if it is in stock. |
| Allocator.ResourceAllocator.TakeLarge | src/enclave_proc/resource_manager.rs:365-375 | After the first pass nothing in stock fits what is still needed. |
| Allocator.ResourceAllocator.TakeSmall | src/enclave_proc/resource_manager.rs:385-397 | After the second pass something is still needed only if the stock is empty. |
| Allocator.ResourceAllocator.Gather | src/enclave_proc/resource_manager.rs:352-398 | The two passes: every page taken is the largest in stock that fits what is still needed or, if none fits, the smallest in stock; no page is lost, and if something is still needed the whole stock is empty. |
| Allocator.ResourceAllocator.SplitIndex | src/enclave_proc/resource_manager.rs:417-425 | The shortest prefix that covers the request. |
| Allocator.SortSorts | src/enclave_proc/resource_manager.rs:414-415 | The sort gives descending sizes. |
| Allocator.SortPermutes | src/enclave_proc/resource_manager.rs:414-415 | The sort is a permutation. |
| Allocator.SortMapped | src/enclave_proc/resource_manager.rs:414-415 | Sorting keeps the regions aligned and apart from each other. |
| Allocator.ResourceAllocator.SortAndTrim | src/enclave_proc/resource_manager.rs:412-429 | Sorted, covering, not covering without the last; drained pages are back in the stock. |
| Allocator.ResourceAllocator.Allocate | src/enclave_proc/resource_manager.rs:351-449 | Fails exactly when the stock is worth less than the request; else the regions are leading ones in sorted order of greedily taken pages, covering and minimal; pages are conserved either way and regions never overlap. |
| Allocator.ResourceAllocator.Free | src/enclave_proc/resource_manager.rs:452-461 | Pages are conserved also when a munmap fails and the call is repeated; success gives every page back. |
| Allocator.ConservedWorth | src/enclave_proc/resource_manager.rs:351-461 | Conserved pages mean conserved bytes, whatever was mapped, kept or returned. |
| EifLoader.RegionMemory.FillFromFile | src/enclave_proc/resource_manager.rs:278-311 | Each of the three errors exactly on its condition; otherwise the slice holds the next bytes of the file and the rest is as before. |
| EifLoader.RegionMemory.FillRegion | src/enclave_proc/resource_manager.rs:1140-1152 | No subtraction underflows and no error occurs; the region becomes its window of the flat copy and the cursor moves to where it must be. |
| EifLoader.RegionMemory.WriteEif | src/enclave_proc/resource_manager.rs:1093-1158 | Refines one flat copy of the file at the offset; overflows exactly when an address on the way needs more than 64 bits; the file cursor is max(0, min(start - offset, length)). |
| EifLoader.FlattenAppend | src/enclave_proc/resource_manager.rs:1117-1155 | Regions concatenate, so a copy can be proved region by region. |
| EndToEnd.SmallImageFits | src/enclave_proc/resource_manager.rs:480-505 | Below 2^62 bytes an image that passes the 4x check has room at the load offset in any amount that can be started. |
| EndToEnd.WrappedCheck | src/enclave_proc/resource_manager.rs:490-490 | A 2^62-byte image passes the check with 64 MiB, where it has no room, because the product wraps. |
| EndToEnd.NoWrap | src/enclave_proc/resource_manager.rs:479-490 | Requests below 2^64 bytes and images below 2^62 bytes do not wrap in the size check. |
| EndToEnd.LeastIsReached | src/enclave_proc/resource_manager.rs:351-449 | A minimal allocation ending in a 2 MiB page is that least amount. |
| EndToEnd.OnePage | drivers/virt/nitro_enclaves/ne_misc_dev.c:999-1143 | A region that is one huge page adds exactly that page's range and size. |
| EndToEnd.PageAccepted | drivers/virt/nitro_enclaves/ne_misc_dev.c:999-1143 | An aligned region of one good huge page that overlaps no other, within the limits, is accepted if the device takes it. |
| EndToEnd.EnclaveSees | drivers/virt/nitro_enclaves/ne_misc_dev.c:1102-1128 | What the device's address sequence reads in physical memory is the concatenation of the regions. |
| EndToEnd.ImageExact | src/enclave_proc/resource_manager.rs:1093-1158 | The whole image is in the regions at the offset if and only if their total has room for it. |
| EndToEnd.EnclaveHandle.AllocateMemory | src/enclave_proc/resource_manager.rs:632-653 | Each error exactly on its condition; the "short allocation" one only for requests of 2^63 bytes or more. |
| EndToEnd.EnclaveHandle.WriteImage | src/enclave_proc/resource_manager.rs:655-670 | After an allocation the write cannot fail, and zeroed memory then holds the image from 8 MiB on. |
| EndToEnd.EnclaveHandle.GiveRegions | src/enclave_proc/resource_manager.rs:672-677 | If every ioctl succeeds the driver holds one range per region, in order, and its memory size is their total; mapped regions with good pages within the limits are all accepted. |
| EndToEnd.EnclaveHandle.InitMemory | src/enclave_proc/resource_manager.rs:627-681 | Success means image loaded, regions given, at least the request, and no wrapped request; under favourable conditions it succeeds. |
| EndToEnd.StartErrorExact | drivers/virt/nitro_enclaves/ne_misc_dev.c:1166-1195 | The start checks pass exactly with memory, 64 MiB of it, and vCPUs that are all threads of the held cores. |
| EndToEnd.EnclaveHandle.CreateEnclave | src/enclave_proc/resource_manager.rs:550-570 | Past the start the regions hold the entire image at offset 8 MiB exactly if they have room for it, and then that is what the enclave reads there; its vCPUs are all threads of its cores and the device agreed. If memory can be had, it starts exactly if the vCPUs can be added and the device agrees. |
| EndToEnd.Launch | src/enclave_proc/resource_manager.rs:473-570 | The same from the arguments on. The image is entire whenever the least amount that can be started has room for it, in particular below 2^62 bytes; at least the requested MiB and 64 MiB; requests that fail the checks never start. If memory can be had, it starts if and only if the number of vCPUs is a multiple of the threads per core that the pool has, or the list is whole cores of the pool, and the device agrees. |
| EndToEnd.TruncatedLaunch | src/enclave_proc/resource_manager.rs:473-570 | That condition is exact: whenever a request passes the checks without that room, there is a host on which the enclave starts and its memory does not hold the image. |
| Text.NumeralRoundTrip | src/enclave_proc/utils.rs:120-129 | Parsing undoes rendering in radix 10 and 16, below the type's limit. |
| Text.NumeralTooBig | src/enclave_proc/utils.rs:120-129 | A number that does not fit the type is refused. |
| Text.ParseUintSound | src/enclave_proc/cpu_info.rs:136-145 | What is accepted is below the limit, and is digits behind at most one plus sign. |
| Text.NumeralInjective | src/lib.rs:211-211 | Different numbers are rendered differently. |
| Text.NumeralCanonical | src/enclave_proc/utils.rs:112-116 | Numerals are in lower case and without leading zeros. |
| Text.StripAppend | src/enclave_proc/cpu_info.rs:137-138 | Removing whitespace distributes over concatenation. |
| Wire.LeRoundTrip | src/common/mod.rs:436-466 | Little-endian bytes give back the value. |
| Wire.FromLeAppend | src/common/mod.rs:436-466 | The less significant bytes come first. |
| Wire.ReceiveFrame | src/common/mod.rs:521-542 | A frame in front of anything yields its object and leaves exactly the rest. |
| Wire.TruncatedFrame | src/common/mod.rs:521-542 | A frame of which the end is missing yields nothing. |
| Wire.Stream.ReceiveObject | src/common/mod.rs:521-542 | Reads the object at the start of the stream, or fails on a short or undecodable frame. |
| Wire.SendSingle | src/common/mod.rs:468-518 | Appends the command frame twice and the argument frame if there is one. |
| Wire.HandleNewConnection | src/enclave_proc/connection_listener.rs:143-159 | Takes the first frame; registers the stream unless it failed or says stop. |
| Wire.ReadCommand | src/enclave_proc/connection.rs:162-213 | Takes the next frame and replaces a command that is not permitted. |
| Wire.CommandRoundTrip | src/common/mod.rs:468-542 | Listener, command reader and argument reader recover the same command and argument and leave exactly what followed. |
| Wire.WriteReply | src/enclave_proc/connection.rs:297-327 | Appends one whole frame. |
| Wire.HandleOutput | src/enclave_proc_comm.rs:250-264 | The loop ends at the first failed frame with all output text in order and the last status; without a status frame there is none, and an empty stream has no text. |
| Wire.LastStatusExact | src/enclave_proc_comm.rs:255-264 | The status is that of the last status frame, and there is none exactly if no frame is a status. |
| Wire.StdOutAppend | src/enclave_proc_comm.rs:258-264 | Output text accumulates in order. |
| Wire.StdErrAppend | src/enclave_proc_comm.rs:258-264 | So does error text. |
| Wire.RepliesRoundTrip | src/enclave_proc_comm.rs:250-264 | All replies before the end of the stream or the first bad frame are read back. |
| Wire.InterleavingIsInvisible | src/enclave_proc/connection.rs:297-327 | Text and status do not depend on how a message writer and a status writer interleave. |
| Wire.ReplyStream | src/enclave_proc_comm.rs:250-278 | The same for the bytes: for every frame order the command line decodes the same output and status. |
| Broadcast.Pigeonhole | src/enclave_proc_comm.rs:243-244 | Distinct connections are at most all of them, and all of them if as many; so the error count cannot underflow. |
| Broadcast.HandleOne | src/enclave_proc_comm.rs:213-240 | Handling a ready connection removes it and loses no other. |
| Broadcast.RepliesConfirm | src/enclave_proc_comm.rs:218-229 | The replies are distinct connections that confirm; if all that got the command were handled, none is missing. |
| Broadcast.SendAll | src/enclave_proc_comm.rs:142-247 | Ends for every pattern of outcomes, and fails exactly if one of the waits, one per connection that got the command, fails. As many connections are handled as waits do not time out; the replies are exactly the handled ones that confirm, in order, and all others are errors. |
| Broadcast.HandleOutputs | src/enclave_proc_comm.rs:281-298 | Collects exactly the connections with both object and status, in order. |
| Broadcast.ObjectsAll | src/enclave_proc_comm.rs:281-298 | No object is missing exactly when every reply has object and status, and then they line up. |
| Broadcast.HandleAllReplies | src/enclave_proc_comm.rs:301-365 | Objects and failures account for all; success exactly when nothing failed and all statuses are allowed. |
| Broadcast.Broadcast | src/enclave_proc_comm.rs:142-365 | Success implies every connected process confirmed, gave an object and an allowed status, each once; without time-outs and epoll errors also the converse. |
| EventLoop.EnclaveProcess.FetchDescribeResult | src/enclave_proc/mod.rs:221-250 | The thread is taken and joined by the first call only, and what it computed is stored; it fails exactly if the thread did. |
| EventLoop.EnclaveProcess.HandleRun | src/enclave_proc/mod.rs:263-302 | A second Run is refused and attempts nothing; a failed one is fatal; a first one that creates and sets up succeeds and sets ID, name, CID and thread. |
| EventLoop.EnclaveProcess.HandleDescribe | src/enclave_proc/mod.rs:391-411 | Success exactly on its condition, showing name, CID and what the one thread computed; exactly a Describe on a handle without CID kills the process. |
| EventLoop.EnclaveProcess.HandleGetId | src/enclave_proc/mod.rs:364-389 | The ID goes out exactly to a caller that gives the enclave's name. |
| EventLoop.EnclaveProcess.HandleCommand | src/enclave_proc/mod.rs:253-417 | Every command is carried out exactly if the inputs so far allow it, with exactly the answer and the state they call for. |
| EventLoop.EnclaveProcess.Conclude | src/enclave_proc/mod.rs:505-541 | When the status is sent, and when the loop goes on. |
| EventLoop.EnclaveProcess.HandleReceived | src/enclave_proc/mod.rs:481-541 | Every error is the last turn; at most one status per command, exactly one if the loop goes on; an error is answered with EINVAL once everything is cleaned up. |
| EventLoop.EnclaveProcess.Clear | src/enclave_proc/resource_manager.rs:778-784 | A termination thread that clears the shared handle sets the CID to 0 and leaves everything else intact. |
| EventLoop.AllAnswered | src/enclave_proc/mod.rs:528-541 | While the loop goes on every command that needs a status gets exactly one, in order, a refusal only for a Run after the first. |
| EventLoop.RunAnswered | src/enclave_proc/mod.rs:263-302 | The first Run created an enclave, and exactly it was answered with status 0. |
| EventLoop.DescribedAfterRun | src/enclave_proc/mod.rs:391-411 | A description answered after it shows the name and what its thread computed. |
| EventLoop.HelpfulLasts | src/enclave_proc/mod.rs:445-541 | If nothing goes wrong and whoever needs the CID comes after a Run, the loop goes on after every input. |
| EventLoop.FirstRunServed | src/enclave_proc/mod.rs:263-302 | A first Run that creates and sets up an enclave and can be answered is carried out. |
| EventLoop.EnclaveProcess.ProcessEventLoop | src/enclave_proc/mod.rs:420-544 | For any inputs and any clearing in between: the loop ends at exactly the first input that ends it, in the right way, and until then state and answers are those the inputs call for. |
| EventLoop.WholeRun | src/enclave_proc/mod.rs:420-544 | From the start: the commands answered are exactly those received that need a status, in order, all with success except a Run after the first; the first Run created the enclave and is answered 0; a command to stop ends the loop, and if nothing goes wrong it goes on; at most one creation and one join; every Describe answered with status 0 after a Run answered with status 0 showed the measurements of that creation's thread; all IDs given are that creation's; with a handle never filled nor cleared no Describe succeeds. |
| Naming.LastSegment | src/lib.rs:198-199 | The part after the last '/', as a suffix without one. |
| Naming.TrimEifExact | src/lib.rs:199-201 | The file name is the base plus some number of ".eif", and the base ends in none. |
| Naming.BaseNameExact | src/lib.rs:193-203 | The path is a directory, the base name, which has no slash and does not end in ".eif", and any number of ".eif". |
| Naming.CandidatesDiffer | src/lib.rs:205-212 | All numbered names of a base are different. |
| Naming.TakenBound | src/lib.rs:209-212 | If the first k candidates are taken there are at least k names. |
| Naming.NewEnclaveName | src/lib.rs:192-215 | Ends after at most as many probes as names, with the least free candidate, which is a function of the names; a wanted name that is free is the name given, and one that is taken gets a number. |
| Naming.LeastFree | src/lib.rs:205-212 | There is a free candidate within as many steps as there are names; all before it are taken. |
| Naming.OneAnswer | src/enclave_proc/mod.rs:364-389 | With distinct names exactly one process answers for the name of a running enclave. |
| Naming.NoAnswer | src/lib.rs:486-493 | Nobody answers for a name that is not running. |
| Naming.Host.RunEnclave | src/main.rs:80-95 | A started enclave gets the least free candidate of its base name and joins the running ones, whose names stay distinct; a failed one changes nothing. |
| Naming.Host.GetIdByName | src/lib.rs:470-499 | Finds exactly the ID of the enclave with that name, and an error exactly when there is none. |
| Naming.History | src/lib.rs:192-215 | After every history the host runs exactly what the actions leave, and a query finds exactly the enclave with that name. |
| Naming.NamesStayDistinct | src/lib.rs:192-215 | After every history of runs and terminations names are distinct. |
| Naming.NamesFindEnclaves | src/lib.rs:470-499 | After every history the answers to a name are exactly the ID of the running enclave with it, or none. |
| Naming.RunIsFound | src/lib.rs:192-215 | After one more run its name finds it, and every other name what it found before. |
| Naming.TerminatedIsGone | src/lib.rs:470-499 | After a termination nobody answers for that name, and every other name finds what it found before. |
| EnclaveId.SepsOfId | src/enclave_proc/utils.rs:112-116 | The separator occurs in an ID right before the slot and otherwise only inside the tag. |
| EnclaveId.IdIsVisible | src/enclave_proc/utils.rs:95-116 | No ID contains whitespace; blanks around the tag do not show; the ID of a bare tag is the tag, "-enc" and the slot in hexadecimal. |
| EnclaveId.SlotRecovered | src/enclave_proc/utils.rs:95-129 | Without the separator in the stripped tag every u64 slot is recovered. |
| EnclaveId.TokenFromTag | src/enclave_proc/utils.rs:120-129 | With it, the piece that is parsed is a piece of the tag and says nothing of the slot. |
| EnclaveId.RoundTripExact | src/enclave_proc/utils.rs:95-129 | All slots are recovered if and only if the stripped tag does not contain the separator. |
| EnclaveId.TagWithSeparator | src/enclave_proc/utils.rs:120-129 | A tag for which a slot is not recovered. |
| EnclaveId.SocketNameIsSlot | src/common/mod.rs:554-559 | For any tag the socket is named after the slot alone. |
| EnclaveId.SocketsDistinct | src/common/mod.rs:554-559 | Two IDs have the same socket exactly when they have the same slot, whatever the tags. |
| CpuList.SplitJoin | src/enclave_proc/cpu_info.rs:151-152 | Splitting undoes joining. |
| CpuList.JoinSplit | src/enclave_proc/cpu_info.rs:151-152 | Joining undoes splitting, and no piece has the separator. |
| CpuList.ParseCpuPoolLine | src/enclave_proc/cpu_info.rs:147-173 | The nested loops compute the ids of all intervals in order, or fail exactly if one is malformed. |
| CpuList.PushInterval | src/enclave_proc/cpu_info.rs:159-161 | Appends the ids of an inclusive interval. |
| CpuList.OnlyIntervalsParse | src/enclave_proc/cpu_info.rs:151-170 | Only a number, or two numbers with one dash between them, make an interval. |
| CpuList.NumberParses | src/enclave_proc/cpu_info.rs:136-145 | A u32 with any whitespace around it is read back. |
| CpuList.LineParses | src/enclave_proc/cpu_info.rs:147-173 | Parsing a rendered line gives the in-order concatenation of its expansions. |
| CpuList.CheckCpuIds | src/enclave_proc/cpu_info.rs:91-128 | Accepts exactly the lists without duplicates that are inside the pool. |
| CpuList.CheckAgainstLine | src/enclave_proc/cpu_info.rs:91-173 | Against a rendered line: accepted exactly if duplicate-free and each id is one of its numbers or in one of its intervals. |

## Left out

- EifLoader.RegionMemory.WriteEif: mapped memory is a field holding byte sequences, not raw memory, so aliasing between regions is not modelled.
- NeSystem.RunKeeps: what a run does after a replacement that was not harmless is not described beyond the memory invariant.
- EnclaveId.SocketNameIsSlot: stated for generated IDs; path components in other strings passed as IDs are not modelled.
- Broadcast.Broadcast: printing the objects and a failing shutdown of a connection are not modelled.
- Wire.ReadCommand: the access policy is a parameter; the default policy table is not modelled.
- Late device replies after a time-out, MMIO, MSI-X, PCI probe and removal: foreign effects.
- The page that fails a check after it was pinned: the driver records a page only after the checks, so release is stated for recorded pages.
- Unmapping across the clone of the allocator that termination makes: conservation is stated for one allocator.
- EventLoop.EnclaveProcess.Clear: the CPU list, memory size, descriptor and slot number that are cleared too, and so what a description says of them, are not modelled.
- Kernel allocation failures, file descriptor installation, the owner check of the memory map and kernel version shims.
- EndToEnd.Launch: a list of vCPUs does not contain 0, because `check_cpu_ids` only lets CPUs of the pool through and CPU 0 is never one of them; the enclave is new and has the slots of the pool, as in every harmless run.
- CpuInit.InitCpus: the additions of one enclave are not interleaved with those of others; interleavings are the subject of `NeSystem`.
- What follows NE_START_ENCLAVE in `create_enclave` (the boot heartbeat and the report), and the CID and flag checks of the ioctls.
- Requester policy, process spawning, signals, console, vsock proxy, image building and signing, logging, error texts and argument parsing.
