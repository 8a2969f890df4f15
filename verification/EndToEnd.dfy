/** From the requested memory and the image file to a started enclave: `EnclaveHandle::new`, `init_memory`
    and `create_enclave` of `resource_manager.rs`, over the allocator, the image loader and the driver. */
module EndToEnd {
  import opened NeTypes
  import opened Allocator
  import opened EifLoader
  import MemRegions
  import NeSystem
  import CpuSelect
  import CpuInit

  // ----- The size checks -----

  /** `memory_mib << 20` in a u64. */
  function Requested(memoryMib: nat): nat { memoryMib * 0x10_0000 % U64 }

  /** `ENCLAVE_MEMORY_EIF_SIZE_RATIO * eif_size` in a u64. */
  function Needed(eif: nat): nat { 4 * eif % U64 }

  /** Neither wraps for requests below 2^64 bytes and images below 2^62 bytes. */
  lemma NoWrap(memoryMib: nat, eif: nat)
    ensures memoryMib < 0x1000_0000_0000 ==> Requested(memoryMib) == memoryMib * 0x10_0000
    ensures eif < 0x4000_0000_0000_0000 ==> Needed(eif) == 4 * eif
  {
  }

  /** The request passes the checks made before any memory is mapped, and is positive as an i64. */
  predicate PassesChecks(memoryMib: nat, eif: nat) {
    Needed(eif) <= Requested(memoryMib) && 0 < Requested(memoryMib) < 0x8000_0000_0000_0000
  }

  /** Amounts of memory with which an enclave can be started for a request. */
  predicate Startable(memoryMib: nat, total: nat) {
    total >= Requested(memoryMib) && total >= MIN_ENCLAVE_MEM && total % 0x20_0000 == 0
  }

  function LeastStartable(memoryMib: nat): (total: nat)
    ensures Startable(memoryMib, total) && forall t: nat :: Startable(memoryMib, t) ==> total <= t
  {
    var least := if Requested(memoryMib) < MIN_ENCLAVE_MEM then MIN_ENCLAVE_MEM else Requested(memoryMib);
    RoundUp(least);
    (least + 0x1F_FFFF) / 0x20_0000 * 0x20_0000
  }

  lemma RoundUp(n: nat)
    ensures var r := (n + 0x1F_FFFF) / 0x20_0000 * 0x20_0000;
            n <= r && r % 0x20_0000 == 0 && forall t: nat :: n <= t && t % 0x20_0000 == 0 ==> r <= t
  {
  }

  /** Below 2^62 bytes the product does not wrap, and then the checks leave room for the whole image at the load
      offset in any amount of memory that can be started. */
  lemma SmallImageFits(memoryMib: nat, eif: nat)
    requires PassesChecks(memoryMib, eif) && eif < 0x4000_0000_0000_0000
    ensures EIF_LOAD_OFFSET + eif <= LeastStartable(memoryMib)
  {
    assert Needed(eif) == 4 * eif;
  }

  /** An image of 2^62 bytes passes the checks with 64 MiB, where there is no room for it. */
  lemma WrappedCheck()
    ensures PassesChecks(64, 0x4000_0000_0000_0000)
    ensures EIF_LOAD_OFFSET + 0x4000_0000_0000_0000 > LeastStartable(64)
  {
    assert Startable(64, MIN_ENCLAVE_MEM);
  }

  // ----- One huge page per region in the driver -----

  /** What `get_user_pages` finds behind a region: an error or the huge page it consists of. */
  type PageTable = Region -> MemRegions.Gup

  ghost predicate HugePageBacked(table: PageTable) {
    forall r: Region :: table(r).GupPage? ==> table(r).page.size == PageSize(r.page)
  }

  function RangeOf(r: Region, table: PageTable): Range
    requires table(r).GupPage?
  {
    Range(table(r).page.paddr, table(r).page.paddr + PageSize(r.page) - 1)
  }

  /** The device accepted one range per region, in order. */
  ghost predicate Given(regions: seq<Region>, table: PageTable, accepted: seq<Range>) {
    && |accepted| == |regions|
    && forall k :: 0 <= k < |regions| ==> table(regions[k]).GupPage? && accepted[k] == RangeOf(regions[k], table)
  }

  lemma PinOne(node: int, size: nat, gup: MemRegions.Gup)
    requires gup.GupPage? ==> gup.page.size == size
    requires MemRegions.Pin(node, size, [gup], [], 0).Pinned?
    ensures gup.GupPage? && MemRegions.Pin(node, size, [gup], [], 0).pages == [gup.page]
  {
  }

  lemma MergeOne(p: Page)
    ensures MemRegions.MergeAll([p]) == [Range(p.paddr, p.paddr + p.size - 1)]
    ensures MemRegions.SumLen(MemRegions.MergeAll([p])) == p.size
  {
    assert [p][..0] == [] && MemRegions.MergeAll([]) == [];
    var ranges := [Range(p.paddr, p.paddr + p.size - 1)];
    assert ranges[..0] == [] && MemRegions.SumLen([]) == 0;
  }

  /** The memory grew by the one huge page. */
  ghost predicate OnePageGiven(m: Memory, m': Memory, addr: nat, size: nat, gup: MemRegions.Gup) {
    && MemRegions.MemOk(m') && m'.memSize == m.memSize + size && gup.GupPage? && m'.maxMemRegions == m.maxMemRegions
    && m'.accepted == m.accepted + [Range(gup.page.paddr, gup.page.paddr + size - 1)]
    && m'.regions == [MemRegion(addr, size, [gup.page])] + m.regions
  }

  /** The region was listed with the pages of a pinning, and the device took all their ranges. */
  ghost predicate Listed(m: Memory, m': Memory, addr: nat, size: nat, pin: MemRegions.PinResult) {
    var ranges := MemRegions.MergeAll(pin.pages);
    && MemRegions.MemOk(m') && m'.maxMemRegions == m.maxMemRegions && pin.Pinned?
    && m'.accepted == m.accepted + ranges && m'.memSize == m.memSize + MemRegions.SumLen(ranges)
    && m'.regions == [MemRegion(addr, size, pin.pages)] + m.regions
  }

  lemma SuccessLists(m: Memory, m': Memory, node: int, taskSize: nat, addr: nat, size: nat, gup: seq<MemRegions.Gup>,
                     accepts: nat)
    requires MemRegions.MemOk(m)
    requires (m', None) == MemRegions.SetMemory(m, node, taskSize, addr, size, gup, accepts)
    ensures Listed(m, m', addr, size, MemRegions.Pin(node, size, gup, [], 0))
  {
    MemRegions.SetMemoryOutcome(m, node, taskSize, addr, size, gup, accepts);
    var ranges := MemRegions.MergeAll(MemRegions.Pin(node, size, gup, [], 0).pages);
    assert ranges[..|ranges|] == ranges;
  }

  lemma OnePage(m: Memory, m': Memory, node: int, addr: nat, size: nat, gup: MemRegions.Gup)
    requires (gup.GupPage? ==> gup.page.size == size)
    requires Listed(m, m', addr, size, MemRegions.Pin(node, size, [gup], [], 0))
    ensures OnePageGiven(m, m', addr, size, gup)
  {
    PinOne(node, size, gup);
    MergeOne(gup.page);
  }

  /** The driver has no reason to refuse the region, and the device takes it. */
  ghost predicate Takes(m: Memory, node: int, taskSize: nat, addr: nat, size: nat, gup: MemRegions.Gup, accepts: nat) {
    && MemRegions.Aligned(addr) && MemRegions.Aligned(size) && size > 0 && addr + size <= taskSize
    && (forall i :: 0 <= i < |m.regions| ==> !MemRegions.Overlaps(m.regions[i], addr, size))
    && gup.GupPage? && gup.page.size == size && MemRegions.GoodPage(gup.page, node)
    && m.nrMemRegions < m.maxMemRegions && accepts > 0
  }

  lemma PinAccepted(node: int, size: nat, gup: MemRegions.Gup)
    requires MemRegions.Aligned(size) && size > 0
    requires gup.GupPage? && gup.page.size == size && MemRegions.GoodPage(gup.page, node)
    ensures MemRegions.Pin(node, size, [gup], [], 0) == MemRegions.Pinned([gup.page])
  {
    MemRegions.SlotsOfAligned(size);
    MemRegions.PinNext(node, size, [gup], [], 0, gup.page);
    assert [] + [gup.page] == [gup.page];
  }

  lemma ListAccepted(m: Memory, node: int, addr: nat, size: nat, page: Page, accepts: nat)
    requires MemRegions.GoodPage(page, node) && m.nrMemRegions < m.maxMemRegions && accepts > 0
    ensures MemRegions.ListRegion(m, MemRegion(addr, size, [page]), accepts).1 == None
  {
    MemRegions.ListRegionCases(m, node, MemRegion(addr, size, [page]), accepts);
    MergeOne(page);
  }

  lemma PageAccepted(m: Memory, node: int, taskSize: nat, addr: nat, size: nat, gup: MemRegions.Gup, accepts: nat)
    requires Takes(m, node, taskSize, addr, size, gup, accepts)
    ensures MemRegions.SetMemory(m, node, taskSize, addr, size, [gup], accepts).1 == None
  {
    assert MemRegions.UserError(m.regions, taskSize, addr, size).None?;
    PinAccepted(node, size, gup);
    ListAccepted(m, node, addr, size, gup.page, accepts);
  }

  /** The driver lists the regions, the last one first. */
  ghost predicate Lists(listed: seq<MemRegion>, regions: seq<Region>) {
    && |listed| == |regions|
    && forall i :: 0 <= i < |listed| ==>
         listed[i].addr == regions[|regions| - 1 - i].addr && listed[i].size == Size(regions[|regions| - 1 - i])
  }

  /** The driver holds exactly the memory of the regions, one range each, in order. */
  ghost predicate Held(regions: seq<Region>, table: PageTable, m: Memory) {
    Given(regions, table, m.accepted) && MemRegions.MemOk(m) && m.memSize == Total(regions) && Lists(m.regions, regions)
  }

  lemma HeldStep(regions: seq<Region>, r: Region, table: PageTable, m: Memory, m': Memory)
    requires Held(regions, table, m) && r.addr > 0 && OnePageGiven(m, m', r.addr, Size(r), table(r))
    ensures Held(regions + [r], table, m')
  {
    Snoc(regions, r);
    ListsStep(m.regions, regions, r, m'.regions[0]);
  }

  lemma ListsStep(listed: seq<MemRegion>, regions: seq<Region>, r: Region, first: MemRegion)
    requires Lists(listed, regions) && first.addr == r.addr && first.size == Size(r)
    ensures Lists([first] + listed, regions + [r])
  {
    var l, n := [first] + listed, |regions|;
    forall i | 0 <= i < |l|
      ensures l[i].addr == (regions + [r])[n - i].addr && l[i].size == Size((regions + [r])[n - i])
    {
      if i > 0 { assert l[i] == listed[i - 1] && (regions + [r])[n - i] == regions[n - 1 - (i - 1)]; }
    }
  }

  /** Every page that can be behind a region is good, and the device takes it. */
  ghost predicate Friendly(table: PageTable, accepts: Region -> nat, node: int) {
    forall r: Region :: table(r).GupPage? && MemRegions.GoodPage(table(r).page, node) && accepts(r) > 0
  }

  lemma PageSizeAligned(page: nat)
    requires page < 9
    ensures PageSize(page) % 0x20_0000 == 0
  {
  }

  /** The driver takes the next of several mapped regions. */
  lemma TakesNext(m: Memory, regions: seq<Region>, k: nat, node: int, taskSize: nat, table: PageTable,
                  accepts: Region -> nat)
    requires k < |regions| <= m.maxMemRegions && Mapped(regions, taskSize) && m.nrMemRegions == k
    requires Lists(m.regions, regions[..k]) && HugePageBacked(table) && Friendly(table, accepts, node)
    ensures Takes(m, node, taskSize, regions[k].addr, Size(regions[k]), table(regions[k]), accepts(regions[k]))
  {
    var r := regions[k];
    assert Below(r, taskSize);
    PageSizeAligned(r.page);
    forall i | 0 <= i < |m.regions| ensures !MemRegions.Overlaps(m.regions[i], r.addr, Size(r)) {
      var q := regions[..k][k - 1 - i];
      assert q == regions[k - 1 - i] && Below(q, taskSize) && Apart(q, r);
    }
  }

  // ----- What the enclave sees -----

  /** The bytes at a sequence of physical addresses. */
  function Look(phys: int -> byte, addrs: seq<int>): seq<byte> {
    seq(|addrs|, i requires 0 <= i < |addrs| => phys(addrs[i]))
  }

  /** Physical memory holds each region's bytes in its huge page. */
  ghost predicate Backs(phys: int -> byte, regions: seq<Region>, table: PageTable, mem: seq<seq<byte>>)
    requires |mem| == |regions|
  {
    forall k, j {:trigger mem[k][j]} :: 0 <= k < |regions| && 0 <= j < |mem[k]| && table(regions[k]).GupPage? ==>
      phys(table(regions[k]).page.paddr + j) == mem[k][j]
  }

  /** The regions' sizes are those of their huge pages. */
  ghost predicate Sized(regions: seq<Region>, mem: seq<seq<byte>>) {
    |mem| == |regions| && forall k :: 0 <= k < |regions| ==> |mem[k]| == Size(regions[k]) > 0
  }

  /** The device's address sequence reads as the concatenation of the regions. */
  lemma {:induction false} EnclaveSees(phys: int -> byte, regions: seq<Region>, table: PageTable,
                                       mem: seq<seq<byte>>, accepted: seq<Range>)
    requires Sized(regions, mem) && Backs(phys, regions, table, mem)
    requires Given(regions, table, accepted) && MemRegions.RangesOk(accepted)
    ensures Look(phys, MemRegions.Denote(accepted)) == Flatten(mem)
  {
    if regions != [] {
      var n := |regions| - 1;
      EnclaveSees(phys, regions[..n], table, mem[..n], accepted[..n]);
      var a, b := MemRegions.Denote(accepted[..n]), MemRegions.Span(accepted[n].start, MemRegions.Len(accepted[n]));
      assert Look(phys, b) == mem[n];
      assert Look(phys, a + b) == Look(phys, a) + Look(phys, b);
    }
  }

  lemma {:induction false} SizedTotal(regions: seq<Region>, mem: seq<seq<byte>>)
    requires Sized(regions, mem)
    ensures |Flatten(mem)| == Total(regions)
  {
    if regions != [] { SizedTotal(regions[..|regions| - 1], mem[..|mem| - 1]); }
  }

  lemma CopyHoldsFile(flat: seq<byte>, file: seq<byte>, offset: nat)
    requires offset + |file| <= |flat|
    ensures FlatCopy(flat, 0, file, offset)[offset..offset + |file|] == file
  {
  }

  lemma {:induction false} TotalIsAligned(regions: seq<Region>)
    ensures Total(regions) % 0x20_0000 == 0
  {
    if regions != [] { TotalIsAligned(regions[..|regions| - 1]); }
  }

  /** An allocation that ends in a 2 MiB page has the least amount that can be started for its request. */
  lemma LeastIsReached(memoryMib: nat, regions: seq<Region>)
    requires Requested(memoryMib) >= MIN_ENCLAVE_MEM && regions != [] && Size(regions[|regions| - 1]) == 0x20_0000
    requires Total(regions[..|regions| - 1]) < Requested(memoryMib) <= Total(regions)
    ensures Total(regions) == LeastStartable(memoryMib)
  {
    TotalIsAligned(regions);
    TotalIsAligned(regions[..|regions| - 1]);
    assert Startable(memoryMib, Total(regions));
  }

  // ----- The handle -----

  function Zeroes(regions: seq<Region>): (mem: seq<seq<byte>>)
    ensures |mem| == |regions| && forall k :: 0 <= k < |mem| ==> |mem[k]| == Size(regions[k])
  {
    seq(|regions|, k requires 0 <= k < |regions| => seq(Size(regions[k]), _ => 0))
  }

  lemma NoOverflow(mem: seq<seq<byte>>, k: nat, file: seq<byte>, offset: nat)
    requires k < |mem| && |Flatten(mem)| < U64 && offset + |file| < U64
    ensures !Overflows(mem, k, file, offset)
  {
    FlattenStep(mem, k);
    StartMonotone(mem, k + 1, |mem|);
    assert mem[..|mem|] == mem;
  }

  lemma {:induction false} CountBound(regions: seq<Region>, limit: nat)
    requires Mapped(regions, limit)
    ensures |regions| * 0x20_0000 <= Total(regions)
  {
    if regions != [] {
      var n := |regions| - 1;
      PrefixMapped(regions, regions[..n], limit);
      CountBound(regions[..n], limit);
      assert Below(regions[n], limit);
      PageSizeAligned(regions[n].page);
    }
  }

  /** Allocation overshoots the request by less than the largest page. */
  lemma TotalBound(regions: seq<Region>, limit: nat)
    requires regions != [] ==> Total(regions[..|regions| - 1]) < limit
    ensures Total(regions) < limit + 0x4_0000_0001
  {
  }

  /** The regions are what is left of the stock, no more of them than the request needs. */
  ghost predicate Minimal(regions: seq<Region>, request: nat) {
    regions != [] ==> Total(regions[..|regions| - 1]) < request
  }

  /** Nothing stands in the way of giving the requested memory: enough pages, good for the driver and the device,
      room in the address space and in the driver's limit of regions. */
  ghost predicate Favourable(request: nat, stock: seq<nat>, nextAddr: nat, node: int, taskSize: nat, table: PageTable,
                             accepts: Region -> nat, maxMemRegions: nat)
    requires |stock| == 9
  {
    && request < 0x8000_0000_0000_0000 && request <= Worth(stock) && nextAddr + Worth(stock) <= taskSize
    && request + 0x4_0000_0001 <= maxMemRegions * 0x20_0000 && Friendly(table, accepts, node)
  }

  /** The request, or each page that is left, meets the driver's minimum. */
  predicate BigEnough(request: nat, stock: seq<nat>)
    requires |stock| == 9
  {
    request >= MIN_ENCLAVE_MEM || forall p :: 5 <= p < 9 ==> stock[p] == 0
  }

  lemma StartErrorExact(cpu: Cpus, m: Memory)
    ensures NeSystem.StartError(cpu, m).None? <==>
            m.nrMemRegions > 0 && m.memSize >= 0x400_0000 && CpuInit.CpusFit(cpu)
  {
    CpuSelect.FullCoresExact(cpu);
  }

  lemma {:induction false} CountZero(regions: seq<Region>, p: nat, i: nat)
    requires Count(regions, p) == 0 && i < |regions| && regions[i].addr > 0
    ensures regions[i].page != p
  {
    var n := |regions| - 1;
    if i < n { CountZero(regions[..n], p, i); }
  }

  /** Regions come from the stock. */
  lemma FromStock(stock: seq<nat>, left: seq<nat>, regions: seq<Region>, limit: nat, i: nat)
    requires |stock| == |left| == 9 && Conserved(stock, [], left, regions) && Mapped(regions, limit) && i < |regions|
    ensures stock[regions[i].page] > 0
  {
    assert Below(regions[i], limit);
    var p := regions[i].page;
    if stock[p] == 0 { CountZero(regions, p, i); }
  }

  lemma {:induction false} TotalAtLeast(regions: seq<Region>, i: nat)
    requires i < |regions|
    ensures Total(regions) >= Size(regions[i])
  {
    var n := |regions| - 1;
    if i < n { TotalAtLeast(regions[..n], i); }
  }

  lemma MeetsMinimum(request: nat, stock: seq<nat>, left: seq<nat>, regions: seq<Region>, limit: nat)
    requires |stock| == |left| == 9 && Conserved(stock, [], left, regions) && Mapped(regions, limit)
    requires 0 < request <= Total(regions) && BigEnough(request, stock)
    ensures Total(regions) >= MIN_ENCLAVE_MEM
  {
    if request < MIN_ENCLAVE_MEM {
      assert regions != [];
      FromStock(stock, left, regions, limit, 0);
      assert Below(regions[0], limit);
      TotalAtLeast(regions, 0);
    }
  }

  /** The driver takes all the regions. */
  ghost predicate Welcome(regions: seq<Region>, maxMemRegions: nat, node: int, taskSize: nat, table: PageTable,
                          accepts: Region -> nat)
  {
    Mapped(regions, taskSize) && |regions| <= maxMemRegions && Friendly(table, accepts, node)
  }

  /** The enclave reads `file` at `offset` of the memory the device accepted. */
  ghost predicate EnclaveReads(phys: int -> byte, accepted: seq<Range>, file: seq<byte>, offset: nat) {
    && MemRegions.RangesOk(accepted)
    && var seen := Look(phys, MemRegions.Denote(accepted));
       offset + |file| <= |seen| && seen[offset..offset + |file|] == file
  }

  lemma ImageExact(regions: seq<Region>, mem: seq<seq<byte>>, file: seq<byte>)
    requires Sized(regions, mem)
    requires Flatten(mem) == FlatCopy(Flatten(Zeroes(regions)), 0, file, EIF_LOAD_OFFSET)
    ensures |Flatten(mem)| == Total(regions)
    ensures ImageAt(mem, file, EIF_LOAD_OFFSET) <==> EIF_LOAD_OFFSET + |file| <= Total(regions)
  {
    SizedTotal(regions, mem);
    if EIF_LOAD_OFFSET + |file| <= Total(regions) {
      CopyHoldsFile(Flatten(Zeroes(regions)), file, EIF_LOAD_OFFSET);
    }
  }

  /** The concatenation of the regions holds the whole file at `offset`. */
  ghost predicate ImageAt(mem: seq<seq<byte>>, file: seq<byte>, offset: nat) {
    offset + |file| <= |Flatten(mem)| && Flatten(mem)[offset..offset + |file|] == file
  }

  /** A new enclave without memory. */
  ghost predicate NoMemory(m: Memory) {
    MemRegions.MemOk(m) && m.memSize == 0 && m.accepted == [] && m.regions == []
  }

  lemma MappedAbove(regions: seq<Region>, limit: nat, limit': nat)
    requires Mapped(regions, limit) && limit <= limit'
    ensures Mapped(regions, limit')
  {
    forall i | 0 <= i < |regions| ensures Below(regions[i], limit') { assert Below(regions[i], limit); }
  }

  lemma MappedSized(regions: seq<Region>, limit: nat)
    requires Mapped(regions, limit)
    ensures Sized(regions, Zeroes(regions))
  {
    forall k | 0 <= k < |regions| ensures Size(regions[k]) > 0 { assert Below(regions[k], limit); }
  }

  datatype InitError = AllocationFailed | ShortAllocation | WriteFailed(outcome: Outcome) | DriverRefused(error: Errno)

  /** The configured vCPUs, the CPUs of the enclave and the pool in the driver; the device accepts so many vCPUs. */
  datatype CpuRequest = CpuRequest(config: CpuInit.CpuConfig, cpus: CpuSelect.EnclaveCpus, pool: CpuSelect.CpuPool,
                                   accepts: nat)

  /** The vCPUs can be added to the enclave, the device accepts them, and the enclave can be started with them. */
  ghost predicate CpusPromising(cpu: CpuRequest)
    reads cpu.cpus, cpu.pool
  {
    var r := CpuInit.AddAll(CpuInit.SharesOf(cpu.cpus, cpu.pool), cpu.cpus.nrThreadsPerCore,
                            CpuInit.Arguments(cpu.config));
    r.Some? && |CpuInit.Arguments(cpu.config)| <= cpu.accepts && CpuInit.CpusFit(r.value.0.cpu)
  }

  class EnclaveHandle {
    const allocator: ResourceAllocator
    const file: EifFile
    const driver: MemRegions.EnclaveMemory
    var memory: RegionMemory
    var allocatedMemoryMib: nat

    /** The fields of `EnclaveHandle::new` once its checks passed. */
    constructor (memoryMib: nat, file: EifFile, driver: MemRegions.EnclaveMemory)
      ensures this.file == file && this.driver == driver
      ensures fresh(allocator) && allocator.requestedMem == Requested(memoryMib) && allocator.regions == []
    {
      this.file, this.driver := file, driver;
      allocator := new ResourceAllocator(Requested(memoryMib));
      memory := new RegionMemory([]);
      allocatedMemoryMib := 0;
    }

    /** A new handle on an enclave without memory. */
    ghost predicate Ready()
      reads this, allocator, driver
    {
      && allocator.regions == [] && 0 < allocator.requestedMem < U64 && |file.data| < 0x8000_0000_0000_0000
      && NoMemory(driver.View())
    }

    /** The image sits in zeroed memory of the regions, which the device accepted in order. */
    ghost predicate Loaded(table: PageTable)
      reads this, allocator, driver, memory
    {
      && Sized(allocator.regions, memory.mem)
      && Flatten(memory.mem) == FlatCopy(Flatten(Zeroes(allocator.regions)), 0, file.data, EIF_LOAD_OFFSET)
      && Held(allocator.regions, table, driver.View())
    }

    /** The allocation and the size check of `init_memory`, which fails exactly for requests that are
        negative as an i64. */
    method AllocateMemory(pages: HugePages) returns (error: Option<InitError>)
      requires Ready() && pages.Valid()
      modifies `allocatedMemoryMib, pages, allocator
      ensures driver.View() == old(driver.View()) && pages.Valid()
      ensures error == Some(AllocationFailed) <==> Worth(old(pages.stock)) < AsI64(allocator.requestedMem)
      ensures error == Some(ShortAllocation) <==> allocator.requestedMem >= 0x8000_0000_0000_0000
      ensures error.None? || error == Some(AllocationFailed) || error == Some(ShortAllocation)
      ensures error.None? ==> allocator.requestedMem <= Total(allocator.regions)
      ensures error.None? ==> Total(allocator.regions) < allocator.requestedMem + 0x4_0000_0001
      ensures error.None? ==> Mapped(allocator.regions, pages.nextAddr)
      ensures error.None? ==> Minimal(allocator.regions, allocator.requestedMem)
      ensures pages.nextAddr <= old(pages.nextAddr) + Worth(old(pages.stock))
      ensures Conserved(old(pages.stock), [], pages.stock, allocator.regions)
    {
      var ok := allocator.Allocate(pages);
      if !ok { return Some(AllocationFailed); }
      ghost var limit := AsI64(allocator.requestedMem);
      if limit >= 0 { TotalBound(allocator.regions, limit); }
      allocatedMemoryMib := Total(allocator.regions) / 0x10_0000;
      if allocatedMemoryMib < allocator.requestedMem / 0x10_0000 { return Some(ShortAllocation); }
      error := None;
    }

    /** The image write of `init_memory`; after an allocation it cannot fail. */
    method WriteImage(ghost limit: nat) returns (error: Option<InitError>)
      requires |file.data| < 0x8000_0000_0000_0000 && Mapped(allocator.regions, limit)
      requires Total(allocator.regions) < 0x8000_0004_0000_0001
      modifies `memory, file
      ensures error.None? && fresh(memory) && Sized(allocator.regions, memory.mem)
      ensures Flatten(memory.mem) == FlatCopy(Flatten(Zeroes(allocator.regions)), 0, file.data, EIF_LOAD_OFFSET)
    {
      memory := new RegionMemory(Zeroes(allocator.regions));
      ghost var zeroes := memory.mem;
      assert Sized(allocator.regions, zeroes) by { MappedSized(allocator.regions, limit); }
      SizedTotal(allocator.regions, zeroes);
      forall k | 0 <= k < |zeroes| ensures !Overflows(zeroes, k, file.data, EIF_LOAD_OFFSET) {
        NoOverflow(zeroes, k, file.data, EIF_LOAD_OFFSET);
      }
      var outcome := memory.WriteEif(file, EIF_LOAD_OFFSET);
      error := if outcome == Written then None else Some(WriteFailed(outcome));
    }

    /** One NE_SET_USER_MEMORY_REGION for one huge page. */
    method GiveRegion(addr: nat, size: nat, node: int, taskSize: nat, gup: MemRegions.Gup, accepts: nat)
      returns (error: Option<Errno>)
      requires MemRegions.MemOk(driver.View()) && (gup.GupPage? ==> gup.page.size == size)
      modifies driver
      ensures error.None? ==> OnePageGiven(old(driver.View()), driver.View(), addr, size, gup)
      ensures Takes(old(driver.View()), node, taskSize, addr, size, gup, accepts) ==> error.None?
    {
      ghost var before := driver.View();
      error := driver.SetUserRegion(node, taskSize, addr, size, [gup], accepts);
      if error.None? {
        SuccessLists(before, driver.View(), node, taskSize, addr, size, [gup], accepts);
        OnePage(before, driver.View(), node, addr, size, gup);
      } else if Takes(before, node, taskSize, addr, size, gup, accepts) {
        PageAccepted(before, node, taskSize, addr, size, gup, accepts);
      }
    }

    /** One turn of the loop of `init_memory` that gives the regions to the driver. */
    method GiveNext(regions: seq<Region>, k: nat, node: int, taskSize: nat, table: PageTable, accepts: Region -> nat,
                    ghost limit: nat)
      returns (error: Option<Errno>)
      requires k < |regions| && Mapped(regions, limit) && HugePageBacked(table)
      requires Held(regions[..k], table, driver.View())
      modifies driver
      ensures error.None? ==> Held(regions[..k + 1], table, driver.View())
      ensures error.None? ==> driver.maxMemRegions == old(driver.maxMemRegions)
      ensures Welcome(regions, old(driver.maxMemRegions), node, taskSize, table, accepts) ==> error.None?
    {
      var r := regions[k];
      assert Below(r, limit);
      ghost var before := driver.View();
      if Welcome(regions, driver.maxMemRegions, node, taskSize, table, accepts) {
        TakesNext(before, regions, k, node, taskSize, table, accepts);
      }
      error := GiveRegion(r.addr, Size(r), node, taskSize, table(r), accepts(r));
      if error.None? {
        HeldStep(regions[..k], r, table, before, driver.View());
        assert regions[..k + 1] == regions[..k] + [r];
      }
    }

    /** The loop of `init_memory` that gives the regions to the driver. */
    method GiveRegions(node: int, taskSize: nat, table: PageTable, accepts: Region -> nat, ghost limit: nat)
      returns (error: Option<InitError>)
      requires Mapped(allocator.regions, limit) && HugePageBacked(table) && NoMemory(driver.View())
      modifies driver
      ensures error.None? ==> Held(allocator.regions, table, driver.View())
      ensures error.Some? ==> error.value.DriverRefused?
      ensures Welcome(allocator.regions, old(driver.maxMemRegions), node, taskSize, table, accepts) ==> error.None?
    {
      var regions := allocator.regions;
      for k := 0 to |regions|
        invariant Held(regions[..k], table, driver.View()) && driver.maxMemRegions == old(driver.maxMemRegions)
      {
        var e := GiveNext(regions, k, node, taskSize, table, accepts, limit);
        if e.Some? { return Some(DriverRefused(e.value)); }
      }
      assert regions[..|regions|] == regions;
      error := None;
    }

    ghost predicate Promising(pages: HugePages, node: int, taskSize: nat, table: PageTable, accepts: Region -> nat)
      reads this, pages, allocator, driver
      requires pages.Valid()
    {
      Favourable(allocator.requestedMem, pages.stock, pages.nextAddr, node, taskSize, table, accepts,
                 driver.maxMemRegions)
    }

    /** `init_memory`. Under favourable conditions it succeeds. */
    method InitMemory(pages: HugePages, node: int, taskSize: nat, table: PageTable, accepts: Region -> nat)
      returns (error: Option<InitError>)
      requires Ready() && pages.Valid() && HugePageBacked(table)
      modifies this, pages, allocator, file, driver
      ensures pages.Valid() && Conserved(old(pages.stock), [], pages.stock, allocator.regions)
      ensures error.None? ==> Loaded(table) && allocator.requestedMem <= Total(allocator.regions)
      ensures error.None? ==> Mapped(allocator.regions, pages.nextAddr)
      ensures error.None? ==> Minimal(allocator.regions, allocator.requestedMem)
      ensures error.None? ==> allocator.requestedMem < 0x8000_0000_0000_0000
      ensures error.Some? ==> !error.value.WriteFailed?
      ensures old(Promising(pages, node, taskSize, table, accepts)) ==> error.None?
    {
      ghost var favourable := Promising(pages, node, taskSize, table, accepts);
      error := AllocateMemory(pages);
      if error.Some? { return; }
      ghost var limit := pages.nextAddr;
      if favourable {
        MappedAbove(allocator.regions, limit, taskSize);
        CountBound(allocator.regions, limit);
      }
      error := WriteImage(limit);
      error := GiveRegions(node, taskSize, table, accepts, limit);
    }

    /** The enclave has at least the requested memory and the driver's minimum, in zeroed regions that hold the image
        from the load offset on. The image is there entirely exactly if there is room for it behind the offset, and
        then that is what the enclave reads at that offset of its memory. */
    ghost predicate Started(memoryMib: nat, table: PageTable)
      reads this, allocator, driver, memory
    {
      && Loaded(table) && PassesChecks(memoryMib, |file.data|) && Startable(memoryMib, Total(allocator.regions))
      && Minimal(allocator.regions, Requested(memoryMib))
      && (ImageAt(memory.mem, file.data, EIF_LOAD_OFFSET) <==>
            EIF_LOAD_OFFSET + |file.data| <= Total(allocator.regions))
      && (EIF_LOAD_OFFSET + |file.data| <= Total(allocator.regions) ==>
            forall phys :: Backs(phys, allocator.regions, table, memory.mem) ==>
              EnclaveReads(phys, driver.accepted, file.data, EIF_LOAD_OFFSET))
    }

    /** `create_enclave` up to NE_START_ENCLAVE; `startOk` is the device's reply to ENCLAVE_START. Success means that
        the enclave has its memory, its image and its vCPUs. If memory can be had, it succeeds exactly if the vCPUs can
        be added and the device starts the enclave. */
    method CreateEnclave(memoryMib: nat, pages: HugePages, node: int, taskSize: nat, table: PageTable,
                         accepts: Region -> nat, cpu: CpuRequest, startOk: bool) returns (ok: bool)
      requires Ready() && pages.Valid() && HugePageBacked(table) && CpuInit.Ready(cpu.cpus, cpu.pool)
      requires allocator.requestedMem == Requested(memoryMib) && Needed(|file.data|) <= Requested(memoryMib)
      modifies this, pages, allocator, file, driver, cpu.cpus, cpu.pool`avail
      ensures ok ==> Started(memoryMib, table) && startOk
      ensures ok ==> pages.Valid() && Mapped(allocator.regions, pages.nextAddr)
      ensures ok ==> Conserved(old(pages.stock), [], pages.stock, allocator.regions)
      ensures ok ==> old(CpusPromising(cpu)) && CpuInit.CpusFit(cpu.cpus.View())
      ensures CpuInit.Ready(cpu.cpus, cpu.pool)
      ensures old(Promising(pages, node, taskSize, table, accepts) && BigEnough(allocator.requestedMem, pages.stock))
        ==> (ok <==> old(CpusPromising(cpu)) && startOk)
    {
      var error := InitMemory(pages, node, taskSize, table, accepts);
      if error.Some? { return false; }
      var added, ids := CpuInit.InitCpus(cpu.config, cpu.cpus, cpu.pool, cpu.accepts);
      if !added { return false; }
      if BigEnough(allocator.requestedMem, old(pages.stock)) {
        MeetsMinimum(allocator.requestedMem, old(pages.stock), pages.stock, allocator.regions, pages.nextAddr);
      }
      StartErrorExact(cpu.cpus.View(), driver.View());
      if NeSystem.StartError(cpu.cpus.View(), driver.View()).Some? || !startOk { return false; }
      ok := true;
      TotalIsAligned(allocator.regions);
      ImageExact(allocator.regions, memory.mem, file.data);
      if EIF_LOAD_OFFSET + |file.data| <= Total(allocator.regions) {
        forall phys | Backs(phys, allocator.regions, table, memory.mem)
          ensures EnclaveReads(phys, driver.accepted, file.data, EIF_LOAD_OFFSET)
        {
          EnclaveSees(phys, allocator.regions, table, memory.mem, driver.accepted);
        }
      }
    }
  }

  /** A new enclave, in order with the pool. */
  ghost predicate NewCpus(cpu: CpuRequest)
    reads cpu.cpus, cpu.pool
  {
    && CpuInit.Ready(cpu.cpus, cpu.pool)
    && CpuInit.New(CpuInit.SharesOf(cpu.cpus, cpu.pool), cpu.cpus.nrThreadsPerCore)
  }

  /** The configuration fits the pool, and the device accepts all its vCPUs. */
  ghost predicate CpusGranted(cpu: CpuRequest)
    reads cpu.cpus, cpu.pool
    requires NewCpus(cpu)
  {
    && |CpuInit.Arguments(cpu.config)| <= cpu.accepts
    && CpuInit.Granted(CpuInit.SharesOf(cpu.cpus, cpu.pool), cpu.cpus.nrThreadsPerCore, cpu.config)
  }

  lemma PromisingIsGranted(cpu: CpuRequest)
    requires NewCpus(cpu) && (cpu.config.List? ==> 0 !in cpu.config.ids)
    ensures CpusPromising(cpu) <==> CpusGranted(cpu)
  {
    CpuInit.GrantedExact(CpuInit.SharesOf(cpu.cpus, cpu.pool), cpu.cpus.nrThreadsPerCore, cpu.config);
  }

  /** `EnclaveHandle::new` and `create_enclave`. Whenever a request gets past NE_START_ENCLAVE, the enclave is started
      as promised, with whole cores as its vCPUs; if the least amount of memory that can be started has room for the
      image, the enclave reads all of it. If memory can be had, the enclave starts exactly if its CPU configuration fits
      the pool and the device agrees. */
  method Launch(memoryMib: nat, file: EifFile, driver: MemRegions.EnclaveMemory, pages: HugePages, node: int,
                taskSize: nat, table: PageTable, accepts: Region -> nat, cpu: CpuRequest, startOk: bool)
    returns (handle: EnclaveHandle?)
    requires pages.Valid() && HugePageBacked(table) && |file.data| < 0x8000_0000_0000_0000
    requires NoMemory(driver.View()) && NewCpus(cpu) && (cpu.config.List? ==> 0 !in cpu.config.ids)
    modifies pages, file, driver, cpu.cpus, cpu.pool`avail
    ensures handle != null ==> fresh(handle) && handle.file == file && handle.driver == driver
    ensures handle != null ==> handle.Started(memoryMib, table) && driver.memSize >= 0x400_0000
    ensures handle != null && memoryMib < 0x1000_0000_0000 ==> driver.memSize >= memoryMib * 0x10_0000
    ensures handle != null ==> startOk && old(CpusGranted(cpu))
    ensures handle != null ==> cpu.cpus.nrVcpus > 0 && |cpu.cpus.vcpuIds| == cpu.cpus.nrVcpus
    ensures handle != null ==> forall c :: Holds(cpu.cpus.threadsPerCore, c) <==> c in cpu.cpus.vcpuIds
    ensures handle != null && 0x80_0000 + |file.data| <= LeastStartable(memoryMib) ==>
      ImageAt(handle.memory.mem, file.data, 0x80_0000)
    ensures handle != null && |file.data| < 0x4000_0000_0000_0000 ==> ImageAt(handle.memory.mem, file.data, 0x80_0000)
    ensures handle != null ==> pages.Valid() && Mapped(handle.allocator.regions, pages.nextAddr)
    ensures handle != null ==> Conserved(old(pages.stock), [], pages.stock, handle.allocator.regions)
    ensures !PassesChecks(memoryMib, |file.data|) ==> handle == null
    ensures |file.data| < 0x4000_0000_0000_0000 && memoryMib < 0x1000_0000_0000 ==>
      (4 * |file.data| > memoryMib * 0x10_0000 ==> handle == null)
    ensures PassesChecks(memoryMib, |file.data|) && BigEnough(Requested(memoryMib), old(pages.stock)) ==>
      old(Favourable(Requested(memoryMib), pages.stock, pages.nextAddr, node, taskSize, table, accepts,
                     driver.maxMemRegions))
      ==> (handle != null <==> old(CpusGranted(cpu)) && startOk)
  {
    PromisingIsGranted(cpu);
    NoWrap(memoryMib, |file.data|);
    if Needed(|file.data|) > Requested(memoryMib) || Requested(memoryMib) == 0 { return null; }
    handle := new EnclaveHandle(memoryMib, file, driver);
    var ok := handle.CreateEnclave(memoryMib, pages, node, taskSize, table, accepts, cpu, startOk);
    if !ok { return null; }
    if |file.data| < 0x4000_0000_0000_0000 { SmallImageFits(memoryMib, |file.data|); }
  }

  // ----- Where the checks do not suffice -----

  /** Enough pages of one size for a request. */
  function OneSize(page: nat, request: nat): (stock: seq<nat>)
    requires page < 9
    ensures |stock| == 9 && forall p :: 0 <= p < 9 && p != page ==> stock[p] == 0
  {
    seq(9, p => if p == page then request / PageSize(page) + 1 else 0)
  }

  lemma OneSizeWorth(page: nat, request: nat)
    requires page == 4 || page == 8
    ensures Worth(OneSize(page, request)) >= request
  {
  }

  /** Physical pages at the regions' own addresses. */
  function Identity(r: Region): MemRegions.Gup {
    MemRegions.GupPage(RawPage(r.addr - r.addr % 0x20_0000, PageSize(r.page), true, 0))
  }

  /** A device that takes every range. */
  function TakesAll(r: Region): nat { 1 }

  lemma IdentityFriendly()
    ensures HugePageBacked(Identity) && Friendly(Identity, TakesAll, 0)
  {
    forall r: Region ensures MemRegions.GoodPage(Identity(r).page, 0) { PageSizeAligned(r.page); }
  }

  /** The started memory is too small for the image. */
  lemma TooSmall(memoryMib: nat, eif: nat, page: nat, left: seq<nat>, regions: seq<Region>, limit: nat)
    requires PassesChecks(memoryMib, eif) && EIF_LOAD_OFFSET + eif > LeastStartable(memoryMib)
    requires page == (if Requested(memoryMib) >= MIN_ENCLAVE_MEM then 8 else 4) && |left| == 9
    requires Conserved(OneSize(page, Requested(memoryMib)), [], left, regions) && Mapped(regions, limit)
    requires Minimal(regions, Requested(memoryMib)) && Startable(memoryMib, Total(regions))
    ensures EIF_LOAD_OFFSET + eif > Total(regions)
  {
    if page == 8 {
      var n := |regions| - 1;
      FromStock(OneSize(8, Requested(memoryMib)), left, regions, limit, n);
      assert Below(regions[n], limit);
      LeastIsReached(memoryMib, regions);
    } else {
      if eif < 0x4000_0000_0000_0000 { SmallImageFits(memoryMib, eif); }
      TotalBound(regions, Requested(memoryMib));
    }
  }

  /** A new enclave that asks for one vCPU, and a pool with one CPU. */
  method OneCpu() returns (cpu: CpuRequest)
    ensures fresh(cpu.cpus) && fresh(cpu.pool) && NewCpus(cpu) && CpusGranted(cpu) && cpu.config == CpuInit.Count(1)
  {
    var pool := new CpuSelect.CpuPool(2);
    pool.avail, pool.nrThreadsPerCore, pool.numaNode := [{1}], 1, 0;
    var cpus := new CpuSelect.EnclaveCpus(1, 1);
    cpu := CpuRequest(CpuInit.Count(1), cpus, pool, 1);
    assert Holds(pool.avail, 1) by { assert 1 in pool.avail[0]; }
    assert Union(pool.avail) == {1};
  }

  /** The room condition is exact: for every request and image that pass the checks without room for the image in the
      least amount that can be started, there is a host on which the enclave starts without its whole image. */
  method TruncatedLaunch(memoryMib: nat, file: EifFile) returns (handle: EnclaveHandle)
    requires |file.data| < 0x8000_0000_0000_0000 && PassesChecks(memoryMib, |file.data|)
    requires EIF_LOAD_OFFSET + |file.data| > LeastStartable(memoryMib)
    modifies file
    ensures fresh(handle) && handle.file == file && handle.Started(memoryMib, Identity)
    ensures !ImageAt(handle.memory.mem, file.data, EIF_LOAD_OFFSET)
  {
    var request := Requested(memoryMib);
    var page := if request >= MIN_ENCLAVE_MEM then 8 else 4;
    var pages := new HugePages(OneSize(page, request));
    var driver := new MemRegions.EnclaveMemory(request + 0x4_0000_0001);
    OneSizeWorth(page, request);
    IdentityFriendly();
    var cpu := OneCpu();
    var taskSize := pages.nextAddr + Worth(pages.stock);
    var started := Launch(memoryMib, file, driver, pages, 0, taskSize, Identity, TakesAll, cpu, true);
    TooSmall(memoryMib, |file.data|, page, pages.stock, started.allocator.regions, pages.nextAddr);
    handle := started;
  }
}
