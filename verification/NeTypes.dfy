/** Data shared by the models: bytes, CPU masks, pages and the per-enclave and per-pool records of
    `ne_misc_dev.c`. */
module NeTypes {
  type byte = b: int | 0 <= b < 256 witness 0

  /** A cpumask. */
  type CpuSet = set<nat>

  const MIN_ENCLAVE_MEM: nat := 0x4000000 // 64 MiB
  const EIF_LOAD_OFFSET: nat := 0x800000 // 8 MiB

  datatype Option<+T> = None | Some(value: T)

  datatype EnclaveState = Init | Running | Stopped

  /** The errors returned by the driver's ioctls. */
  datatype Errno =
    | AlreadyUsed | NotInPool | InvalidCore | NotInit | InvalidVcpu | NoCpusAvail
    | BadRegionSize | UnalignedAddr | BadAddr | RegionUsed
    | NotHuge | BadPageSize | WrongNode | MaxRegions | MaxPages | GupFailed | BadPhysRegion
    | NoMemRegions | MemTooSmall | NoVcpus | FullCoresNotUsed | DeviceError

  /** A page as `get_user_pages` returns it: physical address, size, hugetlbfs flag, NUMA node. */
  datatype RawPage = RawPage(paddr: nat, size: nat, huge: bool, node: int)

  /** `PAGE_SIZE << order` is never zero. */
  type Page = p: RawPage | 0 < p.size witness RawPage(0, 4096, false, 0)

  /** A physical range with an inclusive end, as `struct range`. */
  datatype Range = Range(start: nat, end: int)

  /** An entry of `mem_regions_list`. */
  datatype MemRegion = MemRegion(addr: nat, size: nat, pages: seq<Page>)

  /** The CPU half of `struct ne_enclave`; `cores` is `threads_per_core`. */
  datatype Cpus = Cpus(cores: seq<CpuSet>, vcpuIds: CpuSet, nrVcpus: nat)

  /** The memory half of `struct ne_enclave`. `accepted` logs the ranges the device
      took, `pinned` and `put` log the recorded pages and the pages released. */
  datatype Memory = Memory(regions: seq<MemRegion>, memSize: int, nrMemRegions: nat, maxMemRegions: nat,
                           accepted: seq<Range>, pinned: multiset<Page>, put: multiset<Page>)

  /** Thread `c` is in one of the masks. */
  predicate Holds(masks: seq<CpuSet>, c: nat) {
    exists i {:trigger c in masks[i]} :: 0 <= i < |masks| && c in masks[i]
  }

  /** No thread is in two masks. */
  ghost predicate Separate(masks: seq<CpuSet>) {
    forall i, j, c {:trigger c in masks[i], c in masks[j]} ::
      0 <= i < |masks| && 0 <= j < |masks| && c in masks[i] && c in masks[j] ==> i == j
  }

  /** The masks are whole cores of `k` threads, or empty, and share no thread. */
  ghost predicate LayoutOk(masks: seq<CpuSet>, k: nat) {
    && (forall i :: 0 <= i < |masks| ==> masks[i] == {} || |masks[i]| == k)
    && Separate(masks)
  }

  /** A layout that pool setup can leave: whole cores of CPUs that were online. */
  ghost predicate SetupOk(layout: seq<CpuSet>, k: nat, online: CpuSet) {
    layout != [] && k > 0 && LayoutOk(layout, k) && forall c :: Holds(layout, c) ==> c in online
  }

  lemma HoldsSnoc(masks: seq<CpuSet>, i: nat)
    requires i < |masks|
    ensures forall c :: Holds(masks[..i + 1], c) <==> Holds(masks[..i], c) || c in masks[i]
  {
    forall c ensures Holds(masks[..i + 1], c) <==> Holds(masks[..i], c) || c in masks[i] {
      if Holds(masks[..i], c) {
        var j :| 0 <= j < i && c in masks[..i][j];
        assert c in masks[..i + 1][j];
      }
      if c in masks[i] { assert c in masks[..i + 1][i]; }
      if Holds(masks[..i + 1], c) && c !in masks[i] {
        var j :| 0 <= j < i + 1 && c in masks[..i + 1][j];
        assert c in masks[..i][j];
      }
    }
  }

  /** All threads of the masks. */
  function Union(masks: seq<CpuSet>): (all: CpuSet)
    ensures forall c :: c in all <==> Holds(masks, c)
  {
    if masks == [] then {}
    else
      var n := |masks| - 1;
      HoldsSnoc(masks, n);
      assert masks[..n + 1] == masks;
      Union(masks[..n]) + masks[n]
  }

  ghost predicate Distinct<T>(s: seq<T>) {
    forall i, j :: 0 <= i < j < |s| ==> s[i] != s[j]
  }

  ghost predicate IsMin(s: CpuSet, m: nat) { m in s && forall c :: c in s ==> m <= c }

  function Min(s: CpuSet): (m: nat)
    requires s != {}
    ensures m in s && forall c :: c in s ==> m <= c
  {
    MinExists(s);
    var m :| m in s && forall c :: c in s ==> m <= c;
    m
  }

  lemma MinExists(s: CpuSet)
    requires s != {}
    ensures exists m :: m in s && forall c :: c in s ==> m <= c
  {
    var x :| x in s;
    var m := MinBelow(s, x);
  }

  lemma {:induction false} MinBelow(s: CpuSet, x: nat) returns (m: nat)
    requires x in s
    ensures IsMin(s, m)
  {
    if y :| y in s && y < x {
      m := MinBelow(s, y);
    } else {
      m := x;
    }
  }
}
