/** Enclave memory in the driver: page pinning, merging of physically contiguous
    pages, the NE_SET_USER_MEMORY_REGION ioctl and the release of the pages. */
module MemRegions {
  import opened NeTypes

  datatype Gup = GupError | GupPage(page: Page)

  /** A multiple of NE_MIN_MEM_REGION_SIZE, 2 MiB. */
  predicate Aligned(x: int) { x % 0x200000 == 0 }

  /** The number of 2 MiB slots in `size` bytes. */
  function MaxPagesOf(size: nat): nat { size / 0x200000 }

  function Len(r: Range): int { r.end - r.start + 1 }

  predicate PhysOk(paddr: int, size: int) { Aligned(size) && Aligned(paddr) }

  function PageError(p: Page, node: int): Option<Errno> {
    if !p.huge then Some(NotHuge)
    else if !Aligned(p.size) then Some(BadPageSize)
    else if node != p.node then Some(WrongNode)
    else None
  }

  /** The page passed the page checks and the physical checks. */
  predicate GoodPage(p: Page, node: int) {
    PageError(p, node).None? && PhysOk(p.paddr, p.size)
  }

  /** Adds `[paddr, paddr + size)` at the end, extending the last range if contiguous. */
  function Merge(ranges: seq<Range>, paddr: nat, size: nat): seq<Range> {
    var n := |ranges|;
    if n > 0 && ranges[n - 1].end + 1 == paddr then ranges[n - 1 := ranges[n - 1].(end := ranges[n - 1].end + size)]
    else ranges + [Range(paddr, paddr + size - 1)]
  }

  function MergeAll(pages: seq<Page>): seq<Range> {
    if pages == [] then []
    else
      var last := pages[|pages| - 1];
      Merge(MergeAll(pages[..|pages| - 1]), last.paddr, last.size)
  }

  lemma MergeSnoc(pages: seq<Page>, p: Page)
    ensures MergeAll(pages + [p]) == Merge(MergeAll(pages), p.paddr, p.size)
  {
    assert (pages + [p])[..|pages|] == pages;
  }

  // ----- Pinning -----

  datatype PinResult = Pinned(pages: seq<Page>) | PinFailed(error: Errno, pages: seq<Page>)

  /** The do/while loop over `get_user_pages`; the i-th call yields `gup[i]`. */
  function Pin(node: int, size: nat, gup: seq<Gup>, pages: seq<Page>, got: nat): PinResult
    requires |pages| <= MaxPagesOf(size)
    decreases MaxPagesOf(size) - |pages|
  {
    var i := |pages|;
    if i == MaxPagesOf(size) then PinFailed(MaxPages, pages)
    else if i >= |gup| || gup[i].GupError? then PinFailed(GupFailed, pages)
    else
      var p := gup[i].page;
      if !GoodPage(p, node) then
        PinFailed(if PageError(p, node).Some? then PageError(p, node).value else BadPhysRegion, pages)
      else if got + p.size < size then Pin(node, size, gup, pages + [p], got + p.size)
      else Pinned(pages + [p])
  }

  ghost predicate GoodPages(pages: seq<Page>, node: int) {
    forall i :: 0 <= i < |pages| ==> GoodPage(pages[i], node)
  }

  function TotalSize(pages: seq<Page>): (t: nat)
  {
    if pages == [] then 0 else TotalSize(pages[..|pages| - 1]) + pages[|pages| - 1].size
  }

  lemma GoodPageSize(p: Page, node: int)
    requires GoodPage(p, node)
    ensures p.size >= 0x200000
  {
  }

  lemma TotalSizeSnoc(pages: seq<Page>, p: Page)
    ensures TotalSize(pages + [p]) == TotalSize(pages) + p.size
  {
    assert (pages + [p])[..|pages|] == pages;
  }

  /** The loop only records good pages, each the answer to its own call. */
  lemma {:induction false} PinRecords(node: int, size: nat, gup: seq<Gup>, pages: seq<Page>, got: nat)
    requires |pages| <= MaxPagesOf(size) && |pages| <= |gup| && GoodPages(pages, node)
    requires forall i :: 0 <= i < |pages| ==> gup[i] == GupPage(pages[i])
    ensures var r := Pin(node, size, gup, pages, got).pages;
            && GoodPages(r, node) && |r| <= |gup| && |r| <= MaxPagesOf(size)
            && forall i :: 0 <= i < |r| ==> gup[i] == GupPage(r[i])
    decreases MaxPagesOf(size) - |pages|
  {
    var i := |pages|;
    if i != MaxPagesOf(size) && i < |gup| && gup[i].GupPage? && GoodPage(gup[i].page, node) {
      if got + gup[i].page.size < size {
        PinRecords(node, size, gup, pages + [gup[i].page], got + gup[i].page.size);
      }
    }
  }

  lemma SlotsOfAligned(size: nat)
    requires Aligned(size)
    ensures MaxPagesOf(size) * 0x200000 == size
  {
  }

  /** What the loop does with a good page. */
  lemma PinNext(node: int, size: nat, gup: seq<Gup>, pages: seq<Page>, got: nat, p: Page)
    requires |pages| < MaxPagesOf(size) && |pages| < |gup| && gup[|pages|] == GupPage(p) && GoodPage(p, node)
    ensures Pin(node, size, gup, pages, got)
         == if got + p.size < size then Pin(node, size, gup, pages + [p], got + p.size) else Pinned(pages + [p])
  {
  }

  /** The loop runs out of slots only for size 0, and on success stops at the first prefix
      of pages that covers the region. */
  lemma {:induction false} PinCovers(node: int, size: nat, gup: seq<Gup>, pages: seq<Page>, got: nat)
    requires Aligned(size) && |pages| <= MaxPagesOf(size)
    requires got == TotalSize(pages) && |pages| * 0x200000 <= got
    requires pages != [] ==> got < size
    ensures var r := Pin(node, size, gup, pages, got);
            && (r.PinFailed? && r.error == MaxPages ==> size == 0)
            && (r.Pinned? ==> r.pages != [] && TotalSize(r.pages[..|r.pages| - 1]) < size <= TotalSize(r.pages))
    decreases MaxPagesOf(size) - |pages|
  {
    SlotsOfAligned(size);
    var i := |pages|;
    if i < MaxPagesOf(size) && i < |gup| && gup[i].GupPage? && GoodPage(gup[i].page, node) {
      var p := gup[i].page;
      PinNext(node, size, gup, pages, got, p);
      GoodPageSize(p, node);
      TotalSizeSnoc(pages, p);
      if got + p.size < size {
        PinCovers(node, size, gup, pages + [p], got + p.size);
      } else {
        assert (pages + [p])[..i] == pages;
      }
    }
  }

  /** A hugetlbfs page of whole 2 MiB pieces on the node. */
  ghost predicate HugeOn(p: Page, node: int) {
    p.huge && p.size % 0x20_0000 == 0 && p.paddr % 0x20_0000 == 0 && p.node == node
  }

  /** Why page `p` is refused. */
  ghost predicate BadPage(p: Page, node: int, error: Errno) {
    match error
    case NotHuge => !p.huge
    case BadPageSize => p.huge && p.size % 0x20_0000 != 0
    case WrongNode => p.huge && p.size % 0x20_0000 == 0 && p.node != node
    case BadPhysRegion => p.huge && p.size % 0x20_0000 == 0 && p.node == node && p.paddr % 0x20_0000 != 0
    case _ => false
  }

  /** The call that would yield page `i` went wrong with `error`. */
  ghost predicate BadCall(gup: seq<Gup>, i: nat, node: int, error: Errno) {
    if i >= |gup| || gup[i].GupError? then error == GupFailed else BadPage(gup[i].page, node, error)
  }

  lemma GoodPageExact(p: Page, node: int)
    ensures GoodPage(p, node) <==> HugeOn(p, node)
    ensures !GoodPage(p, node) ==>
      BadPage(p, node, if PageError(p, node).Some? then PageError(p, node).value else BadPhysRegion)
  {
  }

  /** The loop stops at the first call that does not yield a good page, with the error of that call. */
  lemma {:induction false} PinErrors(node: int, size: nat, gup: seq<Gup>, pages: seq<Page>, got: nat)
    requires |pages| <= MaxPagesOf(size) && got == TotalSize(pages)
    ensures var r := Pin(node, size, gup, pages, got);
            r.PinFailed? && r.error != MaxPages ==>
              BadCall(gup, |r.pages|, node, r.error) && (r.pages != pages ==> TotalSize(r.pages) < size)
    decreases MaxPagesOf(size) - |pages|
  {
    var i := |pages|;
    if i < MaxPagesOf(size) && i < |gup| && gup[i].GupPage? {
      var p := gup[i].page;
      GoodPageExact(p, node);
      if GoodPage(p, node) && got + p.size < size {
        TotalSizeSnoc(pages, p);
        PinErrors(node, size, gup, pages + [p], got + p.size);
      }
    }
  }

  /** The pinning loop as the ioctl runs it, from no pages. The recorded pages are huge pages on the node, each the
      answer to its own call. It fails exactly at the first call before the region is covered that yields no such page,
      or for size 0. */
  lemma PinOutcome(node: int, size: nat, gup: seq<Gup>)
    requires Aligned(size)
    ensures var r := Pin(node, size, gup, [], 0);
            && (forall i :: 0 <= i < |r.pages| ==> HugeOn(r.pages[i], node))
            && |r.pages| <= |gup| && |r.pages| <= size / 0x20_0000
            && (forall i :: 0 <= i < |r.pages| ==> gup[i] == GupPage(r.pages[i]))
            && (r.PinFailed? && r.error == MaxPages <==> size == 0)
            && (r.PinFailed? && size > 0 ==> BadCall(gup, |r.pages|, node, r.error) && TotalSize(r.pages) < size)
            && (r.Pinned? ==> r.pages != [] && TotalSize(r.pages[..|r.pages| - 1]) < size <= TotalSize(r.pages))
  {
    PinRecords(node, size, gup, [], 0);
    PinCovers(node, size, gup, [], 0);
    PinErrors(node, size, gup, [], 0);
    var r := Pin(node, size, gup, [], 0);
    forall i | 0 <= i < |r.pages| ensures HugeOn(r.pages[i], node) { GoodPageExact(r.pages[i], node); }
  }

  // ----- What merged ranges denote -----

  function Span(start: int, len: nat): seq<int> { seq(len, i => start + i) }

  predicate RangeOk(r: Range) { Len(r) > 0 && PhysOk(r.start, Len(r)) }

  predicate RangesOk(ranges: seq<Range>) {
    forall i :: 0 <= i < |ranges| ==> RangeOk(ranges[i])
  }

  /** The physical addresses covered, in order. */
  function Denote(ranges: seq<Range>): seq<int>
    requires RangesOk(ranges)
  {
    if ranges == [] then []
    else
      var last := ranges[|ranges| - 1];
      Denote(ranges[..|ranges| - 1]) + Span(last.start, Len(last))
  }

  function Backing(pages: seq<Page>): seq<int> {
    if pages == [] then []
    else Backing(pages[..|pages| - 1]) + Span(pages[|pages| - 1].paddr, pages[|pages| - 1].size)
  }

  /** Aligned non-empty ranges of which no two neighbours are contiguous. */
  ghost predicate Coalesced(ranges: seq<Range>) {
    RangesOk(ranges) && forall i :: 0 < i < |ranges| ==> ranges[i - 1].end + 1 != ranges[i].start
  }

  lemma AlignedSum(a: int, b: int)
    requires Aligned(a) && Aligned(b)
    ensures Aligned(a + b)
  {
  }

  lemma SpanAppend(start: int, a: nat, b: nat)
    ensures Span(start, a + b) == Span(start, a) + Span(start + a, b)
  {
  }

  /** The last of the merged ranges is aligned and not empty. */
  lemma MergeLastOk(ranges: seq<Range>, paddr: nat, size: nat)
    requires RangesOk(ranges) && PhysOk(paddr, size) && size > 0
    ensures var m := Merge(ranges, paddr, size); m != [] && RangeOk(m[|m| - 1])
  {
    var m := Merge(ranges, paddr, size);
    if |m| == |ranges| {
      assert RangeOk(ranges[|m| - 1]);
      AlignedSum(Len(ranges[|m| - 1]), size);
      assert Len(m[|m| - 1]) == Len(ranges[|m| - 1]) + size;
    } else {
      assert Len(m[|m| - 1]) == size;
    }
  }

  lemma MergeCoalesced(ranges: seq<Range>, paddr: nat, size: nat)
    requires Coalesced(ranges) && PhysOk(paddr, size) && size > 0
    ensures Coalesced(Merge(ranges, paddr, size))
  {
    MergeLastOk(ranges, paddr, size);
    var m := Merge(ranges, paddr, size);
    forall i | 0 <= i < |m| ensures RangeOk(m[i]) {
      if i < |m| - 1 { assert m[i] == ranges[i]; }
    }
  }

  lemma DenoteSnoc(ranges: seq<Range>, last: Range)
    requires RangesOk(ranges) && RangeOk(last)
    ensures RangesOk(ranges + [last])
    ensures Denote(ranges + [last]) == Denote(ranges) + Span(last.start, Len(last))
  {
    assert (ranges + [last])[..|ranges|] == ranges;
  }

  /** A page that extends the last range. */
  lemma ExtendDenotes(init: seq<Range>, last: Range, size: nat)
    requires RangesOk(init) && RangeOk(last) && RangeOk(last.(end := last.end + size))
    ensures RangesOk(init + [last]) && RangesOk(init + [last.(end := last.end + size)])
    ensures Denote(init + [last.(end := last.end + size)]) == Denote(init + [last]) + Span(last.end + 1, size)
  {
    var longer := last.(end := last.end + size);
    DenoteSnoc(init, last);
    DenoteSnoc(init, longer);
    SpanAppend(last.start, Len(last), size);
    assert Len(longer) == Len(last) + size && last.start + Len(last) == last.end + 1;
  }

  /** The two ways to add a page. */
  lemma MergeCases(ranges: seq<Range>, paddr: nat, size: nat)
    ensures var n := |ranges|;
            if n > 0 && ranges[n - 1].end + 1 == paddr then
              Merge(ranges, paddr, size) == ranges[..n - 1] + [ranges[n - 1].(end := ranges[n - 1].end + size)]
            else Merge(ranges, paddr, size) == ranges + [Range(paddr, paddr + size - 1)]
  {
  }

  lemma MergeDenotes(ranges: seq<Range>, paddr: nat, size: nat)
    requires Coalesced(ranges) && PhysOk(paddr, size) && size > 0
    ensures Coalesced(Merge(ranges, paddr, size))
    ensures Denote(Merge(ranges, paddr, size)) == Denote(ranges) + Span(paddr, size)
  {
    MergeCoalesced(ranges, paddr, size);
    MergeLastOk(ranges, paddr, size);
    MergeCases(ranges, paddr, size);
    var n := |ranges|;
    if n > 0 && ranges[n - 1].end + 1 == paddr {
      var last := ranges[n - 1];
      assert ranges[..n - 1] + [last] == ranges && RangeOk(last);
      ExtendDenotes(ranges[..n - 1], last, size);
    } else {
      DenoteSnoc(ranges, Range(paddr, paddr + size - 1));
    }
  }

  function SumLen(ranges: seq<Range>): int {
    if ranges == [] then 0 else SumLen(ranges[..|ranges| - 1]) + Len(ranges[|ranges| - 1])
  }

  lemma MergeSum(ranges: seq<Range>, paddr: nat, size: nat)
    ensures SumLen(Merge(ranges, paddr, size)) == SumLen(ranges) + size
  {
    var m := Merge(ranges, paddr, size);
    assert m[..|m| - 1] == ranges[..if |m| == |ranges| then |ranges| - 1 else |ranges|];
    assert ranges[..|ranges|] == ranges;
  }

  /** The merged ranges are coalesced, denote exactly the pages' addresses in order, are
      no more than the pages, and add up to the pages' sizes. */
  lemma {:induction false} MergeAllDenotes(pages: seq<Page>, node: int)
    requires GoodPages(pages, node)
    ensures Coalesced(MergeAll(pages)) && |MergeAll(pages)| <= |pages|
    ensures Denote(MergeAll(pages)) == Backing(pages)
    ensures SumLen(MergeAll(pages)) == TotalSize(pages)
    ensures pages != [] ==> MergeAll(pages) != []
  {
    if pages != [] {
      var n := |pages|;
      MergeAllDenotes(pages[..n - 1], node);
      var before, p := MergeAll(pages[..n - 1]), pages[n - 1];
      assert GoodPage(p, node);
      MergeDenotes(before, p.paddr, p.size);
      MergeSum(before, p.paddr, p.size);
    }
  }

  lemma {:induction false} SumLenAppend(a: seq<Range>, b: seq<Range>)
    ensures SumLen(a + b) == SumLen(a) + SumLen(b)
  {
    if b == [] {
      assert a + b == a;
    } else {
      SumLenAppend(a, b[..|b| - 1]);
      assert (a + b)[..|a + b| - 1] == a + b[..|b| - 1];
    }
  }

  // ----- The ioctl -----

  /** The test made against each listed region by `ne_sanity_check_user_mem_region`. */
  predicate Overlaps(r: MemRegion, addr: nat, size: nat) {
    (r.addr <= addr && addr < r.addr + r.size) || (addr <= r.addr && addr + size > r.addr)
  }

  function UserError(regions: seq<MemRegion>, taskSize: nat, addr: nat, size: nat): Option<Errno> {
    if !Aligned(size) then Some(BadRegionSize)
    else if !Aligned(addr) then Some(UnalignedAddr)
    else if addr + size > taskSize then Some(BadAddr)
    else if exists i :: 0 <= i < |regions| && Overlaps(regions[i], addr, size) then Some(RegionUsed)
    else None
  }

  /** The device takes the ranges `taken`. */
  function Accept(m: Memory, taken: seq<Range>): Memory {
    m.(memSize := m.memSize + SumLen(taken),
       nrMemRegions := m.nrMemRegions + |taken|,
       accepted := m.accepted + taken)
  }

  function PutPages(m: Memory, pages: seq<Page>): Memory {
    m.(pinned := m.pinned + multiset(pages), put := m.put + multiset(pages))
  }

  function AddRegion(m: Memory, r: MemRegion): Memory {
    m.(regions := [r] + m.regions, pinned := m.pinned + multiset(r.pages))
  }

  /** From the end of the pinning loop on; the device takes at most the first `accepts` ranges. */
  function ListRegion(m: Memory, r: MemRegion, accepts: nat): (Memory, Option<Errno>) {
    var ranges := MergeAll(r.pages);
    if m.nrMemRegions + |ranges| > m.maxMemRegions then (PutPages(m, r.pages), Some(MaxRegions))
    else if exists i :: 0 <= i < |ranges| && !PhysOk(ranges[i].start, Len(ranges[i])) then
      (PutPages(m, r.pages), Some(BadPhysRegion))
    else if accepts < |ranges| then (Accept(AddRegion(m, r), ranges[..accepts]), Some(DeviceError))
    else (Accept(AddRegion(m, r), ranges), None)
  }

  /** NE_SET_USER_MEMORY_REGION in state INIT. */
  function SetMemory(m: Memory, node: int, taskSize: nat, addr: nat, size: nat, gup: seq<Gup>, accepts: nat)
    : (Memory, Option<Errno>)
  {
    if UserError(m.regions, taskSize, addr, size).Some? then (m, UserError(m.regions, taskSize, addr, size))
    else
      var pin := Pin(node, size, gup, [], 0);
      if pin.PinFailed? then (PutPages(m, pin.pages), Some(pin.error))
      else ListRegion(m, MemRegion(addr, size, pin.pages), accepts)
  }

  /** The pages recorded in the listed regions. */
  function AllPages(regions: seq<MemRegion>): seq<Page> {
    if regions == [] then [] else regions[0].pages + AllPages(regions[1..])
  }

  function ReleaseMemory(m: Memory): Memory {
    m.(regions := [], put := m.put + multiset(AllPages(m.regions)))
  }

  predicate Disjoint(a: MemRegion, b: MemRegion) {
    a.addr + a.size <= b.addr || b.addr + b.size <= a.addr
  }

  predicate Covers(r: MemRegion, a: nat) { r.addr <= a < r.addr + r.size }

  predicate RegionOk(r: MemRegion) { r.size > 0 && Aligned(r.size) && Aligned(r.addr) }

  /** Listed user ranges are non-empty, aligned and pairwise disjoint. */
  ghost predicate RegionsOk(regions: seq<MemRegion>) {
    && (forall i :: 0 <= i < |regions| ==> RegionOk(regions[i]))
    && (forall i, j :: 0 <= i < j < |regions| ==> Disjoint(regions[i], regions[j]))
  }

  /** The counters agree with the ranges the device accepted. */
  ghost predicate DeviceOk(m: Memory) {
    && RangesOk(m.accepted)
    && m.memSize == SumLen(m.accepted)
    && m.nrMemRegions == |m.accepted| <= m.maxMemRegions
  }

  /** The memory invariant; every recorded page is either still listed or was put once. */
  ghost predicate MemOk(m: Memory) {
    RegionsOk(m.regions) && DeviceOk(m) && m.pinned == m.put + multiset(AllPages(m.regions))
  }

  /** The overlap test refuses exactly the non-empty ranges that meet a listed one. */
  lemma OverlapExact(r: MemRegion, addr: nat, size: nat, pages: seq<Page>)
    requires r.size > 0 && size > 0
    ensures Overlaps(r, addr, size) <==> !Disjoint(r, MemRegion(addr, size, pages))
    ensures Overlaps(r, addr, size) <==>
            exists a :: Covers(r, a) && Covers(MemRegion(addr, size, pages), a)
  {
    if Overlaps(r, addr, size) {
      var a := if r.addr <= addr then addr else r.addr;
      assert Covers(r, a) && Covers(MemRegion(addr, size, pages), a);
    }
  }

  /** A listed region contains `addr` or one of the `size` addresses from there on. */
  ghost predicate Meets(regions: seq<MemRegion>, addr: nat, size: nat) {
    exists i, a: nat :: 0 <= i < |regions| && Covers(regions[i], a) && (a == addr || addr <= a < addr + size)
  }

  lemma OverlapsMeet(regions: seq<MemRegion>, i: nat, addr: nat, size: nat)
    requires i < |regions| && regions[i].size > 0 && Overlaps(regions[i], addr, size)
    ensures Meets(regions, addr, size)
  {
    assert Covers(regions[i], if regions[i].addr <= addr then addr else regions[i].addr);
  }

  /** Each refusal of a user range exactly on its condition. */
  lemma UserErrorExact(regions: seq<MemRegion>, taskSize: nat, addr: nat, size: nat)
    requires RegionsOk(regions)
    ensures UserError(regions, taskSize, addr, size)
         == if size % 0x20_0000 != 0 then Some(BadRegionSize)
            else if addr % 0x20_0000 != 0 then Some(UnalignedAddr)
            else if addr + size > taskSize then Some(BadAddr)
            else if Meets(regions, addr, size) then Some(RegionUsed)
            else None
  {
    if i :| 0 <= i < |regions| && Overlaps(regions[i], addr, size) {
      assert RegionOk(regions[i]);
      OverlapsMeet(regions, i, addr, size);
    }
    if Meets(regions, addr, size) {
      var i, a: nat :| 0 <= i < |regions| && Covers(regions[i], a) && (a == addr || addr <= a < addr + size);
      assert Overlaps(regions[i], addr, size);
    }
  }

  lemma AddRegionKeeps(m: Memory, r: MemRegion)
    requires MemOk(m) && RegionOk(r)
    requires forall i :: 0 <= i < |m.regions| ==> !Overlaps(m.regions[i], r.addr, r.size)
    ensures MemOk(AddRegion(m, r))
  {
    var regions := [r] + m.regions;
    assert regions[1..] == m.regions;
    forall j | 0 < j < |regions| ensures Disjoint(regions[0], regions[j]) {
      assert regions[j] == m.regions[j - 1] && RegionOk(m.regions[j - 1]);
      OverlapExact(m.regions[j - 1], r.addr, r.size, r.pages);
    }
  }

  lemma AcceptKeeps(m: Memory, taken: seq<Range>)
    requires MemOk(m) && RangesOk(taken) && m.nrMemRegions + |taken| <= m.maxMemRegions
    ensures MemOk(Accept(m, taken))
  {
    SumLenAppend(m.accepted, taken);
  }

  /** No list and no counter changed; what was pinned was put. */
  ghost predicate Refusal(m: Memory, m': Memory) {
    exists pages :: m' == PutPages(m, pages)
  }

  /** The region was listed, and the device took the first `taken` of its ranges. */
  ghost predicate Listing(m: Memory, m': Memory, r: MemRegion, taken: nat) {
    && taken <= |MergeAll(r.pages)|
    && m' == Accept(AddRegion(m, r), MergeAll(r.pages)[..taken])
  }

  lemma PutPagesKeeps(m: Memory, pages: seq<Page>)
    requires MemOk(m)
    ensures MemOk(PutPages(m, pages)) && Refusal(m, PutPages(m, pages))
  {
  }

  lemma TakenKeeps(m: Memory, r: MemRegion, taken: seq<Range>)
    requires MemOk(m) && RegionOk(r) && RangesOk(taken) && m.nrMemRegions + |taken| <= m.maxMemRegions
    requires forall i :: 0 <= i < |m.regions| ==> !Overlaps(m.regions[i], r.addr, r.size)
    ensures MemOk(Accept(AddRegion(m, r), taken))
  {
    AddRegionKeeps(m, r);
    AcceptKeeps(AddRegion(m, r), taken);
  }

  /** The re-check of the merged ranges never fails, so it does not show in the outcome. */
  lemma ListRegionCases(m: Memory, node: int, r: MemRegion, accepts: nat)
    requires GoodPages(r.pages, node)
    ensures var ranges := MergeAll(r.pages);
            && RangesOk(ranges)
            && ListRegion(m, r, accepts)
               == if m.nrMemRegions + |ranges| > m.maxMemRegions then (PutPages(m, r.pages), Some(MaxRegions))
                  else if accepts < |ranges| then (Accept(AddRegion(m, r), ranges[..accepts]), Some(DeviceError))
                  else (Accept(AddRegion(m, r), ranges[..|ranges|]), None)
  {
    MergeAllDenotes(r.pages, node);
    var ranges := MergeAll(r.pages);
    forall i | 0 <= i < |ranges| ensures PhysOk(ranges[i].start, Len(ranges[i])) { assert RangeOk(ranges[i]); }
    assert ranges[..|ranges|] == ranges;
  }

  lemma ListRegionKeeps(m: Memory, node: int, r: MemRegion, accepts: nat)
    requires MemOk(m) && RegionOk(r) && GoodPages(r.pages, node)
    requires forall i :: 0 <= i < |m.regions| ==> !Overlaps(m.regions[i], r.addr, r.size)
    ensures var (m', e) := ListRegion(m, r, accepts);
            && MemOk(m')
            && (if e == Some(MaxRegions) then Refusal(m, m')
                else if accepts < |MergeAll(r.pages)| then e == Some(DeviceError) && Listing(m, m', r, accepts)
                else e == None && Listing(m, m', r, |MergeAll(r.pages)|))
  {
    ListRegionCases(m, node, r, accepts);
    var ranges := MergeAll(r.pages);
    if m.nrMemRegions + |ranges| > m.maxMemRegions {
      PutPagesKeeps(m, r.pages);
    } else {
      TakenKeeps(m, r, ranges[..if accepts < |ranges| then accepts else |ranges|]);
    }
  }

  /** What the ioctl does. A refusal before the list changes no list and no counter, and puts what it pinned.
      Otherwise the region is listed with good pages covering it and the device's share is counted, all of it on
      success. */
  lemma SetMemoryOutcome(m: Memory, node: int, taskSize: nat, addr: nat, size: nat, gup: seq<Gup>, accepts: nat)
    requires MemOk(m)
    ensures var (m', e) := SetMemory(m, node, taskSize, addr, size, gup, accepts);
            var r := MemRegion(addr, size, Pin(node, size, gup, [], 0).pages);
            && MemOk(m') && m'.maxMemRegions == m.maxMemRegions
            && (match e
                case None => Listing(m, m', r, |MergeAll(r.pages)|)
                case Some(DeviceError) => Listing(m, m', r, accepts)
                case _ => Refusal(m, m'))
  {
    if UserError(m.regions, taskSize, addr, size).Some? {
      assert m == PutPages(m, []);
    } else {
      PinOutcome(node, size, gup);
      var pin := Pin(node, size, gup, [], 0);
      if pin.Pinned? {
        PinRecords(node, size, gup, [], 0);
        ListRegionKeeps(m, node, MemRegion(addr, size, pin.pages), accepts);
      } else {
        PutPagesKeeps(m, pin.pages);
        assert pin.error != DeviceError;
      }
    }
  }

  /** The user range is whole 2 MiB pieces of the user address space, none of them listed yet. */
  ghost predicate UserRangeOk(regions: seq<MemRegion>, taskSize: nat, addr: nat, size: nat) {
    && size % 0x20_0000 == 0 && addr % 0x20_0000 == 0 && addr + size <= taskSize
    && !Meets(regions, addr, size)
  }

  /** When the ioctl lists the region, when it refuses it for the region limit, and when it succeeds: the range is good,
      it was pinned, its physical ranges are within the limit, and the device takes them all. */
  lemma SetMemoryExact(m: Memory, node: int, taskSize: nat, addr: nat, size: nat, gup: seq<Gup>, accepts: nat)
    requires MemOk(m)
    ensures var (m', e) := SetMemory(m, node, taskSize, addr, size, gup, accepts);
            var pin := Pin(node, size, gup, [], 0);
            var n := |MergeAll(pin.pages)|;
            var good := UserRangeOk(m.regions, taskSize, addr, size) && pin.Pinned?;
            && (m'.regions != m.regions <==> good && m.nrMemRegions + n <= m.maxMemRegions)
            && (e == Some(MaxRegions) <==> good && m.nrMemRegions + n > m.maxMemRegions)
            && (e == Some(DeviceError) <==> good && m.nrMemRegions + n <= m.maxMemRegions && accepts < n)
            && (e == None <==> good && m.nrMemRegions + n <= m.maxMemRegions && accepts >= n)
            && (pin.PinFailed? && UserRangeOk(m.regions, taskSize, addr, size) ==> e == Some(pin.error))
  {
    UserErrorExact(m.regions, taskSize, addr, size);
    if UserRangeOk(m.regions, taskSize, addr, size) {
      PinOutcome(node, size, gup);
      PinRecords(node, size, gup, [], 0);
      var pin := Pin(node, size, gup, [], 0);
      if pin.Pinned? { ListRegionCases(m, node, MemRegion(addr, size, pin.pages), accepts); }
    }
  }

  /** The memory fields of `struct ne_enclave` with the logs of the device and of `put_page`. */
  class EnclaveMemory {
    var regions: seq<MemRegion>
    var memSize: int
    var nrMemRegions: nat
    var maxMemRegions: nat
    var accepted: seq<Range>
    var pinned: multiset<Page>
    var put: multiset<Page>

    function View(): Memory
      reads this
    {
      Memory(regions, memSize, nrMemRegions, maxMemRegions, accepted, pinned, put)
    }

    constructor (maxMemRegions: nat)
      ensures View() == Memory([], 0, 0, maxMemRegions, [], multiset{}, multiset{})
      ensures MemOk(View())
    {
      regions, memSize, nrMemRegions, this.maxMemRegions := [], 0, 0, maxMemRegions;
      accepted, pinned, put := [], multiset{}, multiset{};
    }

    method CheckUserRegion(taskSize: nat, addr: nat, size: nat) returns (error: Option<Errno>)
      ensures error == UserError(regions, taskSize, addr, size)
    {
      if !Aligned(size) { return Some(BadRegionSize); }
      if !Aligned(addr) { return Some(UnalignedAddr); }
      if addr + size > taskSize { return Some(BadAddr); }
      for i := 0 to |regions|
        invariant forall k :: 0 <= k < i ==> !Overlaps(regions[k], addr, size)
      {
        if Overlaps(regions[i], addr, size) { return Some(RegionUsed); }
      }
      error := None;
    }

    method PutAll(pages: seq<Page>)
      modifies this`put
      ensures put == old(put) + multiset(pages)
    {
      var i := 0;
      while i < |pages|
        invariant i <= |pages| && put == old(put) + multiset(pages[..i])
      {
        assert pages[..i + 1] == pages[..i] + [pages[i]];
        put := put + multiset{pages[i]};
        i := i + 1;
      }
      assert pages[..i] == pages;
    }

    /** The SLOT_ADD_MEM loop; the device takes the first `accepts` ranges. */
    method RequestAll(phys: PhysContig, accepts: nat) returns (ok: bool)
      requires phys.num <= phys.regions.Length
      modifies this`memSize, this`nrMemRegions, this`accepted
      ensures ok == (accepts >= phys.num)
      ensures View() == Accept(old(View()), if ok then phys.regions[..phys.num] else phys.regions[..accepts])
    {
      var i := 0;
      ghost var ranges := phys.regions[..phys.num];
      while i < phys.num
        invariant i <= phys.num && i <= accepts
        invariant View() == Accept(old(View()), ranges[..i])
      {
        if i == accepts {
          assert ranges[..i] == phys.regions[..accepts];
          return false;
        }
        var r := phys.regions[i];
        assert r == ranges[i];
        assert ranges[..i + 1] == ranges[..i] + [r] && ranges[..i + 1][..i] == ranges[..i];
        memSize := memSize + Len(r);
        nrMemRegions := nrMemRegions + 1;
        accepted := accepted + [r];
        i := i + 1;
      }
      assert ranges[..i] == ranges;
      ok := true;
    }

    /** The ioctl from the end of the pinning loop on. */
    method ListUserRegion(node: int, r: MemRegion, phys: PhysContig, accepts: nat) returns (error: Option<Errno>)
      requires phys.num <= phys.regions.Length && phys.regions[..phys.num] == MergeAll(r.pages)
      requires GoodPages(r.pages, node)
      modifies this
      ensures (View(), error) == ListRegion(old(View()), r, accepts)
    {
      ghost var ranges := phys.regions[..phys.num];
      ListRegionCases(View(), node, r, accepts);
      pinned := pinned + multiset(r.pages);
      if nrMemRegions + phys.num > maxMemRegions {
        PutAll(r.pages);
        return Some(MaxRegions);
      }
      CheckRanges(phys, ranges);
      regions := [r] + regions;
      var ok := RequestAll(phys, accepts);
      assert !ok ==> ranges[..accepts] == phys.regions[..accepts];
      assert ranges[..|ranges|] == ranges;
      error := if ok then None else Some(DeviceError);
    }

    /** The loop that re-checks the merged ranges; its error branch is never taken. */
    method CheckRanges(phys: PhysContig, ghost ranges: seq<Range>)
      requires phys.num <= phys.regions.Length && phys.regions[..phys.num] == ranges && RangesOk(ranges)
      ensures forall i :: 0 <= i < phys.num ==> PhysOk(phys.regions[i].start, Len(phys.regions[i]))
    {
      for i := 0 to phys.num
        invariant forall k :: 0 <= k < i ==> PhysOk(phys.regions[k].start, Len(phys.regions[k]))
      {
        assert RangeOk(ranges[i]);
        if !PhysOk(phys.regions[i].start, Len(phys.regions[i])) {
          assert false;
        }
      }
    }

    /** The body of `ne_set_user_memory_region_ioctl`. */
    method SetUserRegion(node: int, taskSize: nat, addr: nat, size: nat, gup: seq<Gup>, accepts: nat)
      returns (error: Option<Errno>)
      modifies this
      ensures (View(), error) == SetMemory(old(View()), node, taskSize, addr, size, gup, accepts)
    {
      error := CheckUserRegion(taskSize, addr, size);
      if error.Some? { return; }
      PinRecords(node, size, gup, [], 0);
      var pin, phys := PinPages(node, size, gup);
      if pin.PinFailed? {
        pinned := pinned + multiset(pin.pages);
        PutAll(pin.pages);
        return Some(pin.error);
      }
      error := ListUserRegion(node, MemRegion(addr, size, pin.pages), phys, accepts);
    }

    /** `ne_enclave_remove_all_mem_region_entries`. */
    method RemoveAll()
      modifies this`regions, this`put
      ensures View() == ReleaseMemory(old(View()))
      ensures old(MemOk(View())) ==> put == pinned
    {
      while |regions| > 0
        invariant put + multiset(AllPages(regions)) == ReleaseMemory(old(View())).put
        decreases |regions|
      {
        var r := regions[0];
        assert multiset(AllPages(regions)) == multiset(r.pages) + multiset(AllPages(regions[1..]));
        regions := regions[1..];
        PutAll(r.pages);
      }
    }
  }

  /** `struct ne_phys_contig_mem_regions`. */
  class PhysContig {
    var num: nat
    const regions: array<Range>

    constructor (capacity: nat)
      ensures num == 0 && regions.Length == capacity && fresh(regions)
    {
      num := 0;
      regions := new Range[capacity](_ => Range(0, 0));
    }

    /** `ne_merge_phys_contig_memory_regions`: the caller leaves room for one more range. */
    method Add(paddr: nat, size: nat) returns (ok: bool)
      requires num < regions.Length
      modifies this, regions
      ensures num <= regions.Length && num <= old(num) + 1
      ensures ok == PhysOk(paddr, size)
      ensures regions[..num] == if ok then Merge(old(regions[..num]), paddr, size) else old(regions[..num])
    {
      if !PhysOk(paddr, size) { return false; }
      if num > 0 && regions[num - 1].end + 1 == paddr {
        regions[num - 1] := regions[num - 1].(end := regions[num - 1].end + size);
      } else {
        regions[num] := Range(paddr, paddr + size - 1);
        num := num + 1;
      }
      ok := true;
    }
  }

  /** Checks a page and adds it to the physical ranges. */
  method CheckAndAdd(phys: PhysContig, p: Page, node: int) returns (error: Option<Errno>)
    requires phys.num < phys.regions.Length
    modifies phys, phys.regions
    ensures phys.num <= phys.regions.Length && phys.num <= old(phys.num) + 1
    ensures error.None? <==> GoodPage(p, node)
    ensures error.Some? ==> error == if PageError(p, node).Some? then PageError(p, node) else Some(BadPhysRegion)
    ensures phys.regions[..phys.num]
         == if error.None? then Merge(old(phys.regions[..phys.num]), p.paddr, p.size) else old(phys.regions[..phys.num])
  {
    error := PageError(p, node);
    if error.None? {
      var ok := phys.Add(p.paddr, p.size);
      if !ok { error := Some(BadPhysRegion); }
    }
  }

  /** One turn of the pinning loop up to the point where the page is recorded. */
  method FetchPage(node: int, size: nat, gup: seq<Gup>, pages: array<Page>, phys: PhysContig, nr: nat, ghost got: nat)
    returns (error: Option<Errno>)
    requires nr <= pages.Length == phys.regions.Length == MaxPagesOf(size) && phys.num <= nr
    modifies pages, phys, phys.regions
    ensures pages[..nr] == old(pages[..nr]) && phys.num <= phys.regions.Length
    ensures error.Some? ==> Pin(node, size, gup, pages[..nr], got) == PinFailed(error.value, pages[..nr])
    ensures error.Some? ==> phys.regions[..phys.num] == old(phys.regions[..phys.num])
    ensures error.None? ==> nr < pages.Length && nr < |gup| && gup[nr] == GupPage(pages[nr])
    ensures error.None? ==> GoodPage(pages[nr], node)
    ensures error.None? ==> phys.num <= nr + 1
    ensures error.None? ==>
      phys.regions[..phys.num] == Merge(old(phys.regions[..phys.num]), pages[nr].paddr, pages[nr].size)
  {
    if nr == pages.Length { return Some(MaxPages); }
    if nr >= |gup| || gup[nr].GupError? { return Some(GupFailed); }
    pages[nr] := gup[nr].page;
    error := CheckAndAdd(phys, pages[nr], node);
  }

  /** The pinning loop of `ne_set_user_memory_region_ioctl` with its two fixed-size buffers. */
  method PinPages(node: int, size: nat, gup: seq<Gup>) returns (pin: PinResult, phys: PhysContig)
    ensures pin == Pin(node, size, gup, [], 0)
    ensures fresh(phys) && fresh(phys.regions)
    ensures phys.num <= phys.regions.Length && phys.regions[..phys.num] == MergeAll(pin.pages)
  {
    var max := MaxPagesOf(size);
    var pages := new Page[max];
    phys := new PhysContig(max);
    var nr: nat, got: nat := 0, 0;
    ghost var result := Pin(node, size, gup, [], 0);
    while true
      invariant nr <= max && phys.num <= nr && pages.Length == phys.regions.Length == max
      invariant phys.regions[..phys.num] == MergeAll(pages[..nr])
      invariant Pin(node, size, gup, pages[..nr], got) == result
      invariant fresh(phys) && fresh(phys.regions)
      decreases max - nr
    {
      ghost var pinned := pages[..nr];
      var error := FetchPage(node, size, gup, pages, phys, nr, got);
      if error.Some? { return PinFailed(error.value, pages[..nr]), phys; }
      assert pages[..nr + 1] == pinned + [pages[nr]];
      PinNext(node, size, gup, pinned, got, pages[nr]);
      MergeSnoc(pinned, pages[nr]);
      got := got + pages[nr].size;
      nr := nr + 1;
      if got >= size { break; }
    }
    pin := Pinned(pages[..nr]);
  }
}
