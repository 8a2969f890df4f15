/** The huge-page allocator of the enclave process: `MemoryRegion::new/free` and
    `ResourceAllocator::allocate/free` of `resource_manager.rs`. */
module Allocator {
  import opened NeTypes

  /** HUGE_PAGE_MAP has nine page sizes, in bytes, largest first. */
  function PageSize(page: nat): (size: nat)
    requires page < 9
    ensures size > 0
  {
    match page
    case 0 => 0x4_0000_0000
    case 1 => 0x8000_0000
    case 2 => 0x4000_0000
    case 3 => 0x2000_0000
    case 4 => 0x1000_0000
    case 5 => 0x200_0000
    case 6 => 0x100_0000
    case 7 => 0x80_0000
    case _ => 0x20_0000
  }

  /** A mapped huge page; address 0 marks a region that was freed. */
  datatype RawRegion = RawRegion(page: nat, addr: nat)
  type Region = r: RawRegion | r.page < 9 witness RawRegion(8, 0)

  function Size(r: Region): nat { if r.addr == 0 then 0 else PageSize(r.page) }

  function Total(regions: seq<Region>): nat {
    if regions == [] then 0 else Total(regions[..|regions| - 1]) + Size(regions[|regions| - 1])
  }

  /** 1 if `r` is a live region of page size `p`. */
  function Is(r: Region, p: nat): nat { if r.addr != 0 && r.page == p then 1 else 0 }

  /** The live regions of page size `p`. */
  function Count(regions: seq<Region>, p: nat): nat {
    if regions == [] then 0 else Count(regions[..|regions| - 1], p) + Is(regions[|regions| - 1], p)
  }

  /** The bytes in `n(p)` pages of each size `p`. */
  function Worth(n: seq<nat>): nat
    requires |n| == 9
  {
    n[0] * 0x4_0000_0000 + n[1] * 0x8000_0000 + n[2] * 0x4000_0000 + n[3] * 0x2000_0000 + n[4] * 0x1000_0000
    + n[5] * 0x200_0000 + n[6] * 0x100_0000 + n[7] * 0x80_0000 + n[8] * 0x20_0000
  }

  function Counts(regions: seq<Region>): (n: seq<nat>)
    ensures |n| == 9 && forall p :: 0 <= p < 9 ==> n[p] == Count(regions, p)
  {
    [Count(regions, 0), Count(regions, 1), Count(regions, 2), Count(regions, 3), Count(regions, 4),
     Count(regions, 5), Count(regions, 6), Count(regions, 7), Count(regions, 8)]
  }

  lemma {:induction false} TotalIsWorth(regions: seq<Region>)
    ensures Total(regions) == Worth(Counts(regions))
  {
    if regions != [] { TotalIsWorth(regions[..|regions| - 1]); }
  }

  lemma Snoc(regions: seq<Region>, r: Region)
    ensures Total(regions + [r]) == Total(regions) + Size(r)
    ensures forall p :: Count(regions + [r], p) == Count(regions, p) + Is(r, p)
  {
    assert (regions + [r])[..|regions|] == regions;
  }

  lemma {:induction false} CountAppend(a: seq<Region>, b: seq<Region>, p: nat)
    ensures Count(a + b, p) == Count(a, p) + Count(b, p)
  {
    if b == [] {
      assert a + b == a;
    } else {
      CountAppend(a, b[..|b| - 1], p);
      assert (a + b)[..|a + b| - 1] == a + b[..|b| - 1];
    }
  }

  lemma {:induction false} TotalAppend(a: seq<Region>, b: seq<Region>)
    ensures Total(a + b) == Total(a) + Total(b)
  {
    if b == [] {
      assert a + b == a;
    } else {
      TotalAppend(a, b[..|b| - 1]);
      assert (a + b)[..|a + b| - 1] == a + b[..|b| - 1];
    }
  }

  // ----- Where regions lie -----

  /** The regions do not overlap in the address space. */
  predicate Apart(a: Region, b: Region) {
    a.addr + PageSize(a.page) <= b.addr || b.addr + PageSize(b.page) <= a.addr
  }

  ghost predicate ApartFrom(regions: seq<Region>, r: Region) {
    forall i :: 0 <= i < |regions| ==> Apart(regions[i], r)
  }

  /** The region is not freed, is aligned to 2 MiB and ends below `limit`. */
  predicate Below(r: Region, limit: nat) {
    r.addr > 0 && r.addr % 0x20_0000 == 0 && r.addr + PageSize(r.page) <= limit
  }

  /** Live aligned regions below `limit` of which no two overlap. */
  ghost predicate Mapped(regions: seq<Region>, limit: nat) {
    && (forall i :: 0 <= i < |regions| ==> Below(regions[i], limit))
    && (forall i, j :: 0 <= i < j < |regions| ==> Apart(regions[i], regions[j]))
  }

  lemma MappedNext(regions: seq<Region>, limit: nat, r: Region)
    requires limit > 0 && limit % 0x20_0000 == 0 && r.addr == limit
    ensures Mapped(regions, limit) ==> Mapped(regions + [r], limit + PageSize(r.page))
  {
    if Mapped(regions, limit) {
      var all := regions + [r];
      forall i | 0 <= i < |regions| ensures Apart(all[i], r) && Below(all[i], limit + PageSize(r.page)) {
        assert Below(regions[i], limit);
      }
    }
  }

  lemma PrefixMapped(regions: seq<Region>, prefix: seq<Region>, limit: nat)
    requires prefix <= regions
    ensures Mapped(regions, limit) ==> Mapped(prefix, limit)
  {
  }

  // ----- Sorting -----

  ghost predicate Descending(regions: seq<Region>) {
    forall i, j :: 0 <= i < j < |regions| ==> Size(regions[i]) >= Size(regions[j])
  }

  ghost predicate AtLeast(regions: seq<Region>, bound: nat) {
    forall i :: 0 <= i < |regions| ==> Size(regions[i]) >= bound
  }

  function Insert(regions: seq<Region>, r: Region): seq<Region> {
    if regions == [] || Size(regions[|regions| - 1]) >= Size(r) then regions + [r]
    else Insert(regions[..|regions| - 1], r) + [regions[|regions| - 1]]
  }

  /** The stable sort by descending size. */
  function Sort(regions: seq<Region>): seq<Region> {
    if regions == [] then [] else Insert(Sort(regions[..|regions| - 1]), regions[|regions| - 1])
  }

  lemma {:induction false} InsertSorts(regions: seq<Region>, r: Region, bound: nat)
    requires Descending(regions) && AtLeast(regions, bound) && Size(r) >= bound
    ensures Descending(Insert(regions, r)) && AtLeast(Insert(regions, r), bound)
  {
    if regions != [] && Size(regions[|regions| - 1]) < Size(r) {
      var rest, last := regions[..|regions| - 1], regions[|regions| - 1];
      InsertSorts(rest, r, Size(last));
    }
  }

  lemma {:induction false} InsertPermutes(regions: seq<Region>, r: Region)
    ensures multiset(Insert(regions, r)) == multiset(regions) + multiset{r}
  {
    if regions != [] && Size(regions[|regions| - 1]) < Size(r) {
      var rest, last := regions[..|regions| - 1], regions[|regions| - 1];
      InsertPermutes(rest, r);
      assert regions == rest + [last];
    }
  }

  lemma {:induction false} InsertCounts(regions: seq<Region>, r: Region, p: nat)
    ensures Count(Insert(regions, r), p) == Count(regions, p) + Is(r, p)
  {
    if regions == [] || Size(regions[|regions| - 1]) >= Size(r) {
      Snoc(regions, r);
    } else {
      var rest, last := regions[..|regions| - 1], regions[|regions| - 1];
      InsertCounts(rest, r, p);
      Snoc(Insert(rest, r), last);
    }
  }

  lemma {:induction false} InsertMapped(regions: seq<Region>, r: Region, limit: nat)
    requires Mapped(regions, limit) && Below(r, limit) && ApartFrom(regions, r)
    ensures Mapped(Insert(regions, r), limit)
    ensures forall x :: ApartFrom(regions, x) && Apart(r, x) ==> ApartFrom(Insert(regions, r), x)
  {
    if regions != [] && Size(regions[|regions| - 1]) < Size(r) {
      var rest, last := regions[..|regions| - 1], regions[|regions| - 1];
      InsertMapped(rest, r, limit);
      assert ApartFrom(rest, last) && Apart(last, r);
      assert ApartFrom(Insert(rest, r), last);
      forall x | ApartFrom(regions, x) && Apart(r, x) ensures ApartFrom(Insert(regions, r), x) {
        assert ApartFrom(rest, x) && Apart(regions[|regions| - 1], x);
      }
    }
  }

  lemma {:induction false} SortMapped(regions: seq<Region>, limit: nat)
    requires Mapped(regions, limit)
    ensures Mapped(Sort(regions), limit)
    ensures forall x :: ApartFrom(regions, x) ==> ApartFrom(Sort(regions), x)
  {
    if regions != [] {
      var rest, last := regions[..|regions| - 1], regions[|regions| - 1];
      SortMapped(rest, limit);
      assert ApartFrom(rest, last);
      InsertMapped(Sort(rest), last, limit);
      forall x | ApartFrom(regions, x) ensures ApartFrom(Sort(regions), x) {
        assert ApartFrom(rest, x) && Apart(regions[|regions| - 1], x);
      }
    }
  }

  lemma MultisetSnoc(regions: seq<Region>)
    requires regions != []
    ensures multiset(regions) == multiset(regions[..|regions| - 1]) + multiset{regions[|regions| - 1]}
  {
    assert regions == regions[..|regions| - 1] + [regions[|regions| - 1]];
  }

  /** Sorting permutes the regions... */
  lemma {:induction false} SortPermutes(regions: seq<Region>)
    ensures multiset(Sort(regions)) == multiset(regions)
  {
    if regions != [] {
      MultisetSnoc(regions);
      SortPermutes(regions[..|regions| - 1]);
      InsertPermutes(Sort(regions[..|regions| - 1]), regions[|regions| - 1]);
    }
  }

  /** ... into descending order. */
  lemma {:induction false} SortSorts(regions: seq<Region>)
    ensures Descending(Sort(regions))
  {
    if regions != [] {
      var rest, last := regions[..|regions| - 1], regions[|regions| - 1];
      SortSorts(rest);
      InsertSorts(Sort(rest), last, 0);
    }
  }

  lemma {:induction false} SortCounts(regions: seq<Region>, p: nat)
    ensures Count(Sort(regions), p) == Count(regions, p)
  {
    if regions != [] {
      SortCounts(regions[..|regions| - 1], p);
      InsertCounts(Sort(regions[..|regions| - 1]), regions[|regions| - 1], p);
    }
  }

  lemma {:induction false} CountUpdate(regions: seq<Region>, j: nat, r: Region, p: nat)
    requires j < |regions|
    ensures Count(regions[j := r], p) + Is(regions[j], p) == Count(regions, p) + Is(r, p)
  {
    var n := |regions|;
    if j == n - 1 {
      assert regions[j := r][..n - 1] == regions[..n - 1];
    } else {
      CountUpdate(regions[..n - 1], j, r, p);
      assert regions[j := r][..n - 1] == regions[..n - 1][j := r];
    }
  }

  lemma {:induction false} CountFreed(regions: seq<Region>, p: nat)
    requires forall j :: 0 <= j < |regions| ==> regions[j].addr == 0
    ensures Count(regions, p) == 0
  {
    if regions != [] { CountFreed(regions[..|regions| - 1], p); }
  }

  // ----- The page source and the allocator -----

  /** The huge pages that can still be mapped, per page size, and the next free address. */
  class HugePages {
    var stock: seq<nat>
    var nextAddr: nat

    ghost predicate Valid()
      reads this
    {
      |stock| == 9 && nextAddr > 0 && nextAddr % 0x20_0000 == 0
    }

    constructor (stock: seq<nat>)
      requires |stock| == 9
      ensures Valid() && this.stock == stock && nextAddr == 0x20_0000
    {
      this.stock, nextAddr := stock, 0x20_0000;
    }

    /** `MemoryRegion::new`: mmap of one huge page, at addresses not in use. */
    method Map(page: nat) returns (r: Option<Region>)
      requires page < 9 && Valid()
      modifies this
      ensures Valid()
      ensures r.Some? <==> old(stock)[page] > 0
      ensures r.Some? ==> r.value.page == page && r.value.addr > 0 && stock == old(stock)[page := old(stock)[page] - 1]
      ensures r.Some? ==> r.value.addr == old(nextAddr) && nextAddr == old(nextAddr) + PageSize(page)
      ensures r.None? ==> stock == old(stock) && nextAddr == old(nextAddr)
    {
      if stock[page] == 0 { return None; }
      r := Some(RawRegion(page, nextAddr));
      nextAddr := nextAddr + PageSize(page);
      stock := stock[page := stock[page] - 1];
    }

    /** `MemoryRegion::free` of a region; `ok` is the outcome of munmap. */
    method Unmap(r: Region, ok: bool) returns (freed: Region, success: bool)
      requires Valid()
      modifies this`stock
      ensures Valid()
      ensures success == (r.addr == 0 || ok)
      ensures forall p :: 0 <= p < 9 ==> stock[p] + Is(freed, p) == old(stock)[p] + Is(r, p)
      ensures success ==> freed.addr == 0
      ensures !success ==> freed == r
    {
      if r.addr == 0 { return r, true; }
      if !ok { return r, false; }
      stock := stock[r.page := stock[r.page] + 1];
      freed, success := RawRegion(r.page, 0), true;
    }
  }

  /** The value of a u64 cast to i64. */
  function AsI64(x: nat): int { if x < 0x8000_0000_0000_0000 then x else x - 0x1_0000_0000_0000_0000 }

  /** No page appears or disappears between a stock with regions and a later stock with regions. */
  ghost predicate Conserved(stock: seq<nat>, regions: seq<Region>, stock': seq<nat>, regions': seq<Region>)
    requires |stock| == |stock'| == 9
  {
    forall p :: 0 <= p < 9 ==> stock'[p] + Count(regions', p) == stock[p] + Count(regions, p)
  }

  lemma ConservedWorth(stock: seq<nat>, regions: seq<Region>, stock': seq<nat>, regions': seq<Region>)
    requires |stock| == |stock'| == 9 && Conserved(stock, regions, stock', regions')
    ensures Worth(stock') + Total(regions') == Worth(stock) + Total(regions)
  {
    TotalIsWorth(regions);
    TotalIsWorth(regions');
    var n, n' := Counts(regions), Counts(regions');
    assert forall p :: 0 <= p < 9 ==> stock'[p] + n'[p] == stock[p] + n[p];
  }

  lemma SplitConserved(stock: seq<nat>, regions: seq<Region>, stock': seq<nat>, split: nat)
    requires |stock| == |stock'| == 9 && split <= |regions|
    requires forall p :: 0 <= p < 9 ==> stock'[p] == stock[p] + Count(regions[split..], p)
    ensures Conserved(stock, regions, stock', regions[..split])
  {
    forall p | 0 <= p < 9
      ensures stock'[p] + Count(regions[..split], p) == stock[p] + Count(regions, p)
    {
      CountAppend(regions[..split], regions[split..], p);
      assert regions == regions[..split] + regions[split..];
    }
  }

  lemma SortKeeps(stock: seq<nat>, regions: seq<Region>)
    requires |stock| == 9
    ensures Conserved(stock, regions, stock, Sort(regions))
    ensures Descending(Sort(regions)) && Total(Sort(regions)) == Total(regions)
  {
    forall p ensures Count(Sort(regions), p) == Count(regions, p) { SortCounts(regions, p); }
    SortSorts(regions);
    ConservedWorth(stock, regions, stock, Sort(regions));
  }

  lemma EmptyIsWorthless(stock: seq<nat>)
    requires |stock| == 9
    ensures (forall p :: 0 <= p < 9 ==> stock[p] == 0) ==> Worth(stock) == 0
  {
  }

  /** Pages only went from the stock to the regions, at fresh addresses. */
  ghost predicate Taken(stock: seq<nat>, nextAddr: nat, regions: seq<Region>,
                        stock': seq<nat>, nextAddr': nat, regions': seq<Region>)
    requires |stock| == |stock'| == 9
  {
    && Conserved(stock, regions, stock', regions') && (forall p :: 0 <= p < 9 ==> stock'[p] <= stock[p])
    && nextAddr' + Total(regions) == nextAddr + Total(regions')
    && (Mapped(regions, nextAddr) ==> Mapped(regions', nextAddr'))
  }

  lemma TakenOne(s0: seq<nat>, a0: nat, r0: seq<Region>, s: seq<nat>, a: nat, rs: seq<Region>, page: nat)
    requires |s0| == |s| == 9 && Taken(s0, a0, r0, s, a, rs)
    requires page < 9 && s[page] > 0 && a > 0 && a % 0x20_0000 == 0
    ensures var r := RawRegion(page, a);
            && Taken(s0, a0, r0, s[page := s[page] - 1], a + PageSize(page), rs + [r])
            && Total(rs + [r]) == Total(rs) + PageSize(page)
  {
    var r := RawRegion(page, a);
    Snoc(rs, r);
    MappedNext(rs, a, r);
  }

  // ----- The greedy choice -----

  /** Page size `q` is the greedy choice while `needed` bytes are missing: the largest in stock that fits or, if none in
      stock fits, the smallest in stock. */
  ghost predicate Greedy(stock: seq<int>, needed: int, q: nat)
    requires |stock| == 9 && q < 9
  {
    && needed > 0 && stock[q] > 0
    && if PageSize(q) <= needed then forall p :: 0 <= p < q && PageSize(p) <= needed ==> stock[p] == 0
       else && (forall p :: 0 <= p < 9 && PageSize(p) <= needed ==> stock[p] == 0)
            && (forall p :: q < p < 9 ==> stock[p] == 0)
  }

  /** What is left of the stock once pages were taken for the regions. */
  function Rest(stock: seq<nat>, taken: seq<Region>): (rest: seq<int>)
    requires |stock| == 9
    ensures |rest| == 9
  {
    seq(9, p requires 0 <= p < 9 => stock[p] - Count(taken, p))
  }

  /** Every one of the pages was the greedy choice when it was taken. */
  ghost predicate GreedyRun(stock: seq<nat>, request: int, taken: seq<Region>)
    requires |stock| == 9
  {
    taken == [] ||
    (var init, last := taken[..|taken| - 1], taken[|taken| - 1];
     GreedyRun(stock, request, init) && Greedy(Rest(stock, init), request - Total(init), last.page))
  }

  /** Greedy choices led to this stock, with `needed` bytes still missing. */
  ghost predicate Progress(stock0: seq<nat>, request: int, taken: seq<Region>, stock: seq<nat>, needed: int)
    requires |stock0| == 9
  {
    stock == Rest(stock0, taken) && needed == request - Total(taken) && GreedyRun(stock0, request, taken)
  }

  /** None of the first `n` page sizes is in stock and fits. */
  ghost predicate NoneFits(stock: seq<nat>, needed: int, n: nat)
    requires |stock| == 9 && n <= 9
  {
    forall p :: 0 <= p < n && PageSize(p) <= needed ==> stock[p] == 0
  }

  /** Page size `page` and the smaller ones are out of stock. */
  ghost predicate OutFrom(stock: seq<nat>, page: nat)
    requires |stock| == 9
  {
    forall p :: page <= p < 9 ==> stock[p] == 0
  }

  lemma StillOut(stock: seq<nat>, stock': seq<nat>, page: nat)
    requires |stock| == |stock'| == 9 && OutFrom(stock, page + 1) && page < 9 && stock'[page] == 0
    requires forall p :: 0 <= p < 9 ==> stock'[p] <= stock[p]
    ensures OutFrom(stock', page)
  {
  }

  /** It is the turn of page size `page`: larger ones in stock do not fit, and if one is taken that does not fit either,
      then nothing in stock does and smaller ones are out of stock. */
  ghost predicate Turn(stock: seq<nat>, needed: int, page: nat, limit: nat)
    requires |stock| == 9 && page < 9
  {
    && NoneFits(stock, needed, page)
    && (limit == PageSize(page) || (NoneFits(stock, needed, 9) && OutFrom(stock, page + 1)))
  }

  lemma TurnTakes(stock: seq<nat>, needed: int, page: nat, limit: nat)
    requires |stock| == 9 && page < 9 && Turn(stock, needed, page, limit) && stock[page] > 0 && needed >= limit > 0
    ensures Greedy(stock, needed, page)
    ensures Turn(stock[page := stock[page] - 1], needed - PageSize(page), page, limit)
  {
  }

  lemma StillNoneFits(stock: seq<nat>, needed: int, stock': seq<nat>, needed': int, n: nat)
    requires |stock| == |stock'| == 9 && n <= 9 && NoneFits(stock, needed, n) && needed' <= needed
    requires forall p :: 0 <= p < 9 ==> stock'[p] <= stock[p]
    ensures NoneFits(stock', needed', n)
  {
  }

  lemma ProgressOne(stock0: seq<nat>, request: int, taken: seq<Region>, stock: seq<nat>, needed: int, r: Region)
    requires |stock0| == |stock| == 9 && Progress(stock0, request, taken, stock, needed)
    requires Greedy(stock, needed, r.page) && r.addr > 0
    ensures Progress(stock0, request, taken + [r], stock[r.page := stock[r.page] - 1], needed - PageSize(r.page))
  {
    Snoc(taken, r);
    assert (taken + [r])[..|taken|] == taken;
    assert Rest(stock0, taken + [r]) == stock[r.page := stock[r.page] - 1];
  }

  /** Where an allocation started. */
  datatype Origin = Origin(stock: seq<nat>, nextAddr: nat, regions: seq<Region>, request: int)

  /** Since then greedy choices moved pages from the stock to new regions at fresh addresses. */
  ghost predicate Got(o: Origin, taken: seq<Region>, stock: seq<nat>, nextAddr: nat, regions: seq<Region>,
                      needed: int)
  {
    && |o.stock| == |stock| == 9 && Taken(o.stock, o.nextAddr, o.regions, stock, nextAddr, regions)
    && Progress(o.stock, o.request, taken, stock, needed) && regions == o.regions + taken
  }

  lemma GotOne(o: Origin, taken: seq<Region>, s: seq<nat>, a: nat, rs: seq<Region>, needed: int, page: nat)
    requires Got(o, taken, s, a, rs, needed) && page < 9 && Greedy(s, needed, page) && a > 0 && a % 0x20_0000 == 0
    ensures var r := RawRegion(page, a);
            Got(o, taken + [r], s[page := s[page] - 1], a + PageSize(page), rs + [r], needed - PageSize(page))
  {
    TakenOne(o.stock, o.nextAddr, o.regions, s, a, rs, page);
    ProgressOne(o.stock, o.request, taken, s, needed, RawRegion(page, a));
    assert o.regions + (taken + [RawRegion(page, a)]) == rs + [RawRegion(page, a)];
  }

  /** The regions are leading ones in the sorted order of the earlier regions and greedily taken pages that cover the
      request. */
  ghost predicate FromGreedy(stock: seq<nat>, request: int, before: seq<Region>, regions: seq<Region>)
    requires |stock| == 9
  {
    exists taken :: GreedyRun(stock, request, taken) && Total(taken) >= request && regions <= Sort(before + taken)
  }

  class ResourceAllocator {
    const requestedMem: nat
    var regions: seq<Region>

    constructor (requestedMem: nat)
      ensures this.requestedMem == requestedMem && regions == []
    {
      this.requestedMem, regions := requestedMem, [];
    }

    /** Maps one page and records its region, if the source has one. */
    method TakeOne(pages: HugePages, page: nat) returns (got: bool)
      requires page < 9 && pages.Valid()
      modifies pages, this`regions
      ensures pages.Valid() && got == (old(pages.stock)[page] > 0)
      ensures !got ==> pages.stock == old(pages.stock) && pages.nextAddr == old(pages.nextAddr)
      ensures !got ==> regions == old(regions)
      ensures got ==> pages.stock == old(pages.stock)[page := old(pages.stock)[page] - 1]
      ensures got ==> pages.nextAddr == old(pages.nextAddr) + PageSize(page)
      ensures got ==> regions == old(regions) + [RawRegion(page, old(pages.nextAddr))]
    {
      var r := pages.Map(page);
      got := r.Some?;
      if got { regions := regions + [r.value]; }
    }

    /** One turn of either loop. */
    method TakeNext(pages: HugePages, page: nat, limit: nat, needed: int, ghost o: Origin, ghost taken: seq<Region>)
      returns (got: bool, ghost taken': seq<Region>)
      requires page < 9 && pages.Valid() && Got(o, taken, pages.stock, pages.nextAddr, regions, needed)
      requires needed >= limit > 0 && Turn(pages.stock, needed, page, limit)
      modifies pages, this`regions
      ensures pages.Valid() && got == (old(pages.stock)[page] > 0)
      ensures Got(o, taken', pages.stock, pages.nextAddr, regions, if got then needed - PageSize(page) else needed)
      ensures got ==> Turn(pages.stock, needed - PageSize(page), page, limit)
      ensures pages.stock == if got then old(pages.stock)[page := old(pages.stock)[page] - 1] else old(pages.stock)
    {
      ghost var s, a, rs := pages.stock, pages.nextAddr, regions;
      got := TakeOne(pages, page);
      taken' := taken;
      if got {
        TurnTakes(s, needed, page, limit);
        GotOne(o, taken, s, a, rs, needed, page);
        taken' := taken + [RawRegion(page, a)];
      }
    }

    /** Maps pages of one size while `needed` is at least `limit` and the source has one. */
    method Take(pages: HugePages, page: nat, limit: nat, needed0: int, ghost o: Origin, ghost taken0: seq<Region>)
      returns (needed: int, ghost taken: seq<Region>)
      requires page < 9 && pages.Valid() && limit > 0
      requires Got(o, taken0, pages.stock, pages.nextAddr, regions, needed0)
      requires needed0 >= limit ==> Turn(pages.stock, needed0, page, limit)
      modifies pages, this`regions
      ensures pages.Valid() && Got(o, taken, pages.stock, pages.nextAddr, regions, needed)
      ensures needed <= needed0 && (needed < limit || pages.stock[page] == 0)
      ensures forall p :: 0 <= p < 9 ==> pages.stock[p] <= old(pages.stock)[p]
    {
      needed, taken := needed0, taken0;
      while needed >= limit
        invariant pages.Valid() && Got(o, taken, pages.stock, pages.nextAddr, regions, needed) && needed <= needed0
        invariant needed >= limit ==> Turn(pages.stock, needed, page, limit)
        invariant forall p :: 0 <= p < 9 ==> pages.stock[p] <= old(pages.stock)[p]
        decreases pages.stock[page]
      {
        var got;
        got, taken := TakeNext(pages, page, limit, needed, o, taken);
        if !got { break; }
        needed := needed - PageSize(page);
      }
    }

    /** The first pass: pages that fit, from the largest down. */
    method TakeLarge(pages: HugePages, needed0: int, ghost o: Origin) returns (needed: int, ghost taken: seq<Region>)
      requires pages.Valid() && Got(o, [], pages.stock, pages.nextAddr, regions, needed0)
      modifies pages, this`regions
      ensures pages.Valid() && Got(o, taken, pages.stock, pages.nextAddr, regions, needed)
      ensures NoneFits(pages.stock, needed, 9)
    {
      needed, taken := needed0, [];
      for page := 0 to 9
        invariant pages.Valid() && Got(o, taken, pages.stock, pages.nextAddr, regions, needed)
        invariant NoneFits(pages.stock, needed, page)
      {
        ghost var s, n := pages.stock, needed;
        needed, taken := Take(pages, page, PageSize(page), needed, o, taken);
        StillNoneFits(s, n, pages.stock, needed, page);
      }
    }

    /** The second pass: pages from the smallest up. */
    method TakeSmall(pages: HugePages, needed0: int, ghost o: Origin, ghost taken0: seq<Region>)
      returns (needed: int, ghost taken: seq<Region>)
      requires pages.Valid() && Got(o, taken0, pages.stock, pages.nextAddr, regions, needed0)
      requires NoneFits(pages.stock, needed0, 9)
      modifies pages, this`regions
      ensures pages.Valid() && Got(o, taken, pages.stock, pages.nextAddr, regions, needed)
      ensures needed > 0 ==> OutFrom(pages.stock, 0)
    {
      needed, taken := needed0, taken0;
      for page := 9 downto 0
        invariant pages.Valid() && Got(o, taken, pages.stock, pages.nextAddr, regions, needed)
        invariant NoneFits(pages.stock, needed, 9)
        invariant needed > 0 ==> OutFrom(pages.stock, page)
      {
        ghost var s, n := pages.stock, needed;
        needed, taken := Take(pages, page, 1, needed, o, taken);
        StillNoneFits(s, n, pages.stock, needed, 9);
        if needed > 0 { StillOut(s, pages.stock, page); }
      }
    }

    /** The two passes. Every page taken is the largest in stock that fits what is still needed or, if none fits, the
        smallest in stock. */
    method Gather(pages: HugePages) returns (needed: int, ghost taken: seq<Region>)
      requires pages.Valid()
      modifies pages, this`regions
      ensures pages.Valid()
      ensures Taken(old(pages.stock), old(pages.nextAddr), old(regions), pages.stock, pages.nextAddr, regions)
      ensures GreedyRun(old(pages.stock), AsI64(requestedMem), taken) && regions == old(regions) + taken
      ensures needed == AsI64(requestedMem) - Total(taken)
      ensures needed > 0 ==> forall p :: 0 <= p < 9 ==> pages.stock[p] == 0
    {
      needed := AsI64(requestedMem);
      ghost var o := Origin(pages.stock, pages.nextAddr, regions, needed);
      needed, taken := TakeLarge(pages, needed, o);
      if needed > 0 {
        needed, taken := TakeSmall(pages, needed, o, taken);
      }
    }

    /** The number of leading regions needed to cover the request. */
    method SplitIndex() returns (split: nat)
      ensures split <= |regions|
      ensures split == |regions| || Total(regions[..split]) >= AsI64(requestedMem)
      ensures split > 0 ==> Total(regions[..split - 1]) < AsI64(requestedMem)
    {
      var needed := AsI64(requestedMem);
      split := 0;
      while split < |regions|
        invariant split <= |regions| && needed == AsI64(requestedMem) - Total(regions[..split])
        invariant split > 0 ==> Total(regions[..split - 1]) < AsI64(requestedMem)
      {
        if needed <= 0 { break; }
        assert regions[..split + 1] == regions[..split] + [regions[split]];
        Snoc(regions[..split], regions[split]);
        needed := needed - Size(regions[split]);
        split := split + 1;
      }
    }

    /** Keeps the leading regions that cover the request and releases the rest. */
    method Trim(pages: HugePages)
      requires pages.Valid() && Descending(regions) && Total(regions) >= AsI64(requestedMem)
      modifies pages`stock, this`regions
      ensures pages.Valid() && Conserved(old(pages.stock), old(regions), pages.stock, regions)
      ensures regions <= old(regions) && Total(regions) >= AsI64(requestedMem)
      ensures regions != [] ==> Total(regions[..|regions| - 1]) < AsI64(requestedMem)
    {
      var split := SplitIndex();
      var kept, drained := regions[..split], regions[split..];
      assert split > 0 ==> kept[..|kept| - 1] == regions[..split - 1];
      assert split == |regions| ==> kept == regions;
      ghost var before := pages.stock;
      Drain(pages, drained);
      assert Conserved(before, regions, pages.stock, kept) by { SplitConserved(before, regions, pages.stock, split); }
      regions := kept;
    }

    /** Dropping the drained regions unmaps them. */
    method Drain(pages: HugePages, drained: seq<Region>)
      requires pages.Valid()
      modifies pages`stock
      ensures pages.Valid()
      ensures forall p :: 0 <= p < 9 ==> pages.stock[p] == old(pages.stock)[p] + Count(drained, p)
    {
      for j := 0 to |drained|
        invariant pages.Valid()
        invariant forall p :: 0 <= p < 9 ==> pages.stock[p] == old(pages.stock)[p] + Count(drained[..j], p)
      {
        assert drained[..j + 1] == drained[..j] + [drained[j]];
        Snoc(drained[..j], drained[j]);
        var _, _ := pages.Unmap(drained[j], true);
      }
      assert drained[..|drained|] == drained;
    }

    /** Sorts the regions and keeps the leading ones that cover the request. */
    method SortAndTrim(pages: HugePages)
      requires pages.Valid() && Total(regions) >= AsI64(requestedMem)
      modifies pages`stock, this`regions
      ensures pages.Valid() && Conserved(old(pages.stock), old(regions), pages.stock, regions)
      ensures Descending(regions) && Total(regions) >= AsI64(requestedMem)
      ensures regions != [] ==> Total(regions[..|regions| - 1]) < AsI64(requestedMem)
      ensures regions <= Sort(old(regions))
      ensures old(Mapped(regions, pages.nextAddr)) ==> Mapped(regions, pages.nextAddr)
    {
      SortKeeps(pages.stock, regions);
      ghost var sorted, limit := Sort(regions), pages.nextAddr;
      if Mapped(regions, limit) { SortMapped(regions, limit); }
      regions := Sort(regions);
      Trim(pages);
      PrefixMapped(sorted, regions, limit);
    }

    /** `ResourceAllocator::allocate`. It fails exactly when the stock cannot cover the request. On success
        the regions are sorted by descending size, cover the request, and no longer do so without the last.
        Regions that did not overlap still do not. No page is lost. A request of 2^63 bytes or more is negative as an
        i64 and gets no region. */
    method Allocate(pages: HugePages) returns (ok: bool)
      requires pages.Valid()
      modifies pages, this`regions
      ensures pages.Valid() && Conserved(old(pages.stock), old(regions), pages.stock, regions)
      ensures ok <==> Worth(old(pages.stock)) >= AsI64(requestedMem)
      ensures ok ==> Descending(regions) && Total(regions) >= AsI64(requestedMem)
      ensures ok && regions != [] ==> Total(regions[..|regions| - 1]) < AsI64(requestedMem)
      ensures ok ==> FromGreedy(old(pages.stock), AsI64(requestedMem), old(regions), regions)
      ensures !ok ==> forall p :: 0 <= p < 9 ==> pages.stock[p] == 0
      ensures old(Mapped(regions, pages.nextAddr)) ==> Mapped(regions, pages.nextAddr)
      ensures pages.nextAddr <= old(pages.nextAddr) + Worth(old(pages.stock))
    {
      var needed;
      ghost var taken;
      needed, taken := Gather(pages);
      TotalAppend(old(regions), taken);
      ConservedWorth(old(pages.stock), old(regions), pages.stock, regions);
      ok := needed <= 0;
      EmptyIsWorthless(pages.stock);
      if ok { SortAndTrim(pages); }
    }

    /** `ResourceAllocator::free`; the munmap of region `j` succeeds when `j < unmaps`. No page is lost, a
        region is unmapped at most once even when a failed call is repeated, and success gives all pages back. */
    method Free(pages: HugePages, unmaps: nat) returns (ok: bool)
      requires pages.Valid()
      modifies pages`stock, this`regions
      ensures pages.Valid() && Conserved(old(pages.stock), old(regions), pages.stock, regions)
      ensures ok <==> forall j :: unmaps <= j < |old(regions)| ==> old(regions)[j].addr == 0
      ensures ok ==> regions == []
    {
      for j := 0 to |regions|
        invariant pages.Valid() && Conserved(old(pages.stock), old(regions), pages.stock, regions)
        invariant |regions| == |old(regions)|
        invariant forall i :: 0 <= i < j ==> regions[i].addr == 0 && (i >= unmaps ==> old(regions)[i].addr == 0)
        invariant forall i :: j <= i < |regions| ==> regions[i] == old(regions)[i]
      {
        var freed, success := pages.Unmap(regions[j], j < unmaps);
        forall p ensures Count(regions[j := freed], p) + Is(regions[j], p) == Count(regions, p) + Is(freed, p) {
          CountUpdate(regions, j, freed, p);
        }
        regions := regions[j := freed];
        if !success { return false; }
      }
      forall p ensures Count(regions, p) == 0 { CountFreed(regions, p); }
      regions := [];
      ok := true;
    }
  }
}
