/** Setting up and tearing down the CPU pool: `ne_setup_cpu_pool`,
    `ne_teardown_cpu_pool` and `ne_set_kernel_param`. */
module PoolSetup {
  import opened NeTypes
  import opened CpuSelect

  /** Sibling masks and NUMA nodes of the CPUs 0..nr_cpu_ids. */
  datatype Topology = Topology(siblings: seq<CpuSet>, nodes: seq<int>)

  lemma {:induction false} BelowCard(s: CpuSet, n: nat)
    requires forall c :: c in s ==> c < n
    ensures |s| <= n
  {
    if n > 0 {
      var rest := s - {n - 1};
      BelowCard(rest, n - 1);
      assert s <= rest + {n - 1};
      assert n - 1 in s ==> s == rest + {n - 1};
      assert n - 1 !in s ==> s == rest;
    } else {
      assert s == {};
    }
  }

  /** `mask` is a whole sibling class. */
  ghost predicate IsClass(t: Topology, mask: CpuSet) {
    mask != {} && forall c {:trigger c in mask} :: c in mask ==> c < |t.siblings| && t.siblings[c] == mask
  }

  /** Sibling sets are the classes of an equivalence relation, all of `k` threads. */
  ghost predicate Uniform(t: Topology, k: nat) {
    && k > 0 && |t.siblings| == |t.nodes| > 0
    && forall c :: 0 <= c < |t.siblings| ==> c in t.siblings[c] && |t.siblings[c]| == k && IsClass(t, t.siblings[c])
  }

  /** The checks on the requested CPUs. */
  ghost predicate Acceptable(t: Topology, req: CpuSet, online: CpuSet)
    requires |t.siblings| == |t.nodes| > 0 && forall c :: c in req ==> c < |t.siblings|
  {
    && req != {}
    && req <= online
    && (forall c, d :: c in req && d in req ==> t.nodes[c] == t.nodes[d] >= 0)
    && 0 !in req && req !! t.siblings[0]
    && (forall c :: c in req ==> t.siblings[c] <= req)
  }

  /** `masks[..cores]` are distinct sibling classes making up `req`, the other slots are empty. */
  ghost predicate Split(t: Topology, req: CpuSet, masks: seq<CpuSet>, cores: nat) {
    && cores <= |masks|
    && (forall i :: 0 <= i < cores ==> IsClass(t, masks[i]))
    && (forall i :: cores <= i < |masks| ==> masks[i] == {})
    && Separate(masks)
    && (forall c :: c in req <==> Holds(masks, c))
  }

  /** The CPUs Linux considers online. */
  class Host {
    var online: CpuSet
  }

  method AllOnline(req: CpuSet, online: CpuSet, n: nat) returns (ok: bool)
    requires forall c :: c in req ==> c < n
    ensures ok <==> req <= online
  {
    for cpu := 0 to n
      invariant forall c :: c in req && c < cpu ==> c in online
    {
      if cpu in req && cpu !in online { return false; }
    }
    ok := true;
  }

  method OneNode(req: CpuSet, nodes: seq<int>) returns (ok: bool, node: int)
    requires forall c :: c in req ==> c < |nodes|
    ensures ok <==> forall c, d :: c in req && d in req ==> nodes[c] == nodes[d] >= 0
    ensures ok ==> forall c :: c in req ==> nodes[c] == node
  {
    node := -1;
    for cpu := 0 to |nodes|
      invariant node < 0 ==> forall c :: c in req ==> c >= cpu
      invariant forall c :: c in req && c < cpu ==> nodes[c] == node
      invariant node >= 0 ==> exists c :: c in req && nodes[c] == node
    {
      if cpu in req {
        if node < 0 {
          node := nodes[cpu];
          if node < 0 { return false, node; }
        } else if node != nodes[cpu] {
          return false, node;
        }
      }
    }
    ok := true;
  }

  method NoneOf(mask: CpuSet, req: CpuSet, n: nat) returns (ok: bool)
    requires forall c :: c in mask ==> c < n
    ensures ok <==> mask !! req
  {
    for cpu := 0 to n
      invariant forall c :: c in mask && c < cpu ==> c !in req
    {
      if cpu in mask && cpu in req { return false; }
    }
    ok := true;
  }

  method SiblingsIncluded(t: Topology, req: CpuSet, ghost k: nat) returns (ok: bool)
    requires Uniform(t, k) && forall c :: c in req ==> c < |t.siblings|
    ensures ok <==> forall c :: c in req ==> t.siblings[c] <= req
  {
    for cpu := 0 to |t.siblings|
      invariant forall c :: c in req && c < cpu ==> t.siblings[c] <= req
    {
      if cpu in req {
        for s := 0 to |t.siblings|
          invariant forall c :: c in req && c < cpu ==> t.siblings[c] <= req
          invariant forall d :: d in t.siblings[cpu] && d < s ==> d in req
        {
          if s in t.siblings[cpu] && s !in req { return false; }
        }
      }
    }
    ok := true;
  }

  method CountThreads(mask: CpuSet, n: nat) returns (k: nat)
    requires forall c :: c in mask ==> c < n
    ensures k == |mask|
  {
    k := 0;
    ghost var seen: CpuSet := {};
    for cpu := 0 to n
      invariant k == |seen| && seen == set c | c in mask && c < cpu
    {
      if cpu in mask {
        k := k + 1;
        seen := seen + {cpu};
      }
    }
    assert seen == mask;
  }

  /** The threads of a number of whole cores. */
  function Threads(cores: nat, k: nat): nat {
    if cores == 0 then 0 else Threads(cores - 1, k) + k
  }

  /** How many cores of `k` threads fit in `n` CPUs, the size of the pool's array. */
  function Slots(n: nat, k: nat): nat
    requires k > 0
  {
    if n < k then 0 else Slots(n - k, k) + 1
  }

  lemma {:induction false} SlotsIsDivision(n: nat, k: nat)
    requires k > 0
    ensures Slots(n, k) == n / k
  {
    if n >= k {
      SlotsIsDivision(n - k, k);
      DivStep(n, k);
    }
  }

  lemma DivStep(n: nat, k: nat)
    requires 0 < k <= n
    ensures n / k == (n - k) / k + 1
  {
    var e := n / k - (n - k) / k - 1;
    assert e * k == (n - k) % k - n % k;
    assert (-e) * k == -(e * k);
    if e > 0 { AtLeastOne(e, k); }
    if e < 0 { AtLeastOne(-e, k); }
  }

  lemma {:induction false} AtLeastOne(e: nat, k: nat)
    requires e > 0
    ensures e * k >= k
  {
    if e > 1 {
      AtLeastOne(e - 1, k);
      assert e * k == (e - 1) * k + k;
    }
  }

  lemma {:induction false} ThreadsFit(cores: nat, k: nat, n: nat)
    requires k > 0 && Threads(cores, k) <= n
    ensures cores <= Slots(n, k)
  {
    if cores > 0 { ThreadsFit(cores - 1, k, n - k); }
  }

  /** One more class still fits in the array of masks. */
  lemma RoomForCore(k: nat, n: nat, added: CpuSet, cores: nat, mask: CpuSet)
    requires k > 0 && |mask| == k && |added| == Threads(cores, k) && added !! mask
    requires forall d :: d in added + mask ==> d < n
    ensures cores < Slots(n, k) && |added + mask| == Threads(cores + 1, k)
  {
    BelowCard(added + mask, n);
    ThreadsFit(cores + 1, k, n);
  }

  lemma {:induction false} ThreadsIs(cores: nat, k: nat)
    ensures Threads(cores, k) == cores * k
  {
    if cores > 0 { ThreadsIs(cores - 1, k); }
  }

  lemma ClassDisjoint(t: Topology, added: CpuSet, masks: seq<CpuSet>, cores: nat, cpu: nat, mask: CpuSet)
    requires Split(t, added, masks, cores) && IsClass(t, mask) && cpu in mask && cpu !in added
    ensures added !! mask
  {
    forall d | d in added ensures d !in mask {
      var i :| 0 <= i < |masks| && d in masks[i];
      assert IsClass(t, masks[i]) && (cpu in masks[i] ==> Holds(masks, cpu));
    }
  }

  lemma SplitStep(t: Topology, added: CpuSet, masks: seq<CpuSet>, cores: nat, mask: CpuSet)
    requires Split(t, added, masks, cores) && cores < |masks| && IsClass(t, mask) && added !! mask
    ensures Split(t, added + mask, masks[cores := mask], cores + 1)
  {
    var masks' := masks[cores := mask];
    forall c ensures Holds(masks', c) <==> c in added + mask {
      if c in mask { assert c in masks'[cores]; }
      if c in added {
        var i :| 0 <= i < |masks| && c in masks[i];
        assert c in masks'[i];
      }
      if Holds(masks', c) && c !in mask {
        var i :| 0 <= i < |masks'| && c in masks'[i];
        assert c in masks[i] && Holds(masks, c);
      }
    }
    assert Separate(masks') by {
      forall i, c | 0 <= i < |masks| && c in masks[i] ensures c !in mask { assert Holds(masks, c); }
    }
  }

  /** The inner loop: every sibling is marked as added and set in its core's mask. */
  method MarkSiblings(siblings: CpuSet, n: nat, added: CpuSet, core: CpuSet) returns (added': CpuSet, core': CpuSet)
    requires forall c :: c in siblings ==> c < n
    ensures added' == added + siblings && core' == core + siblings
  {
    added', core' := added, core;
    for sibling := 0 to n
      invariant forall c :: c in added' <==> c in added || (c in siblings && c < sibling)
      invariant forall c :: c in core' <==> c in core || (c in siblings && c < sibling)
    {
      if sibling in siblings {
        added' := added' + {sibling};
        core' := core' + {sibling};
      }
    }
  }

  /** The CPUs `added` so far are split over the first `cores` slots. */
  ghost predicate SplitSoFar(t: Topology, k: nat, added: CpuSet, masks: seq<CpuSet>, cores: nat) {
    && k > 0 && |masks| == Slots(|t.siblings|, k) && Split(t, added, masks, cores) && |added| == Threads(cores, k)
    && forall c :: c in added ==> c < |t.siblings|
  }

  lemma SplitsOn(t: Topology, k: nat, added: CpuSet, masks: seq<CpuSet>, cores: nat, siblings: CpuSet, cpu: nat)
    requires SplitSoFar(t, k, added, masks, cores)
    requires IsClass(t, siblings) && |siblings| == k && cpu in siblings && cpu !in added
    ensures cores < |masks| && masks[cores] == {}
    ensures SplitSoFar(t, k, added + siblings, masks[cores := siblings], cores + 1)
  {
    ClassDisjoint(t, added, masks, cores, cpu, siblings);
    RoomForCore(k, |t.siblings|, added, cores, siblings);
    SplitStep(t, added, masks, cores, siblings);
  }

  /** One turn of the splitting loop, for a CPU whose core was not seen yet: the next slot exists. */
  method AddCore(t: Topology, k: nat, siblings: CpuSet, ghost cpu: nat, masks: seq<CpuSet>, cores: nat, added: CpuSet)
    returns (masks': seq<CpuSet>, added': CpuSet)
    requires SplitSoFar(t, k, added, masks, cores)
    requires IsClass(t, siblings) && |siblings| == k && cpu in siblings && cpu !in added
    ensures added' == added + siblings && SplitSoFar(t, k, added', masks', cores + 1)
  {
    SplitsOn(t, k, added, masks, cores, siblings, cpu);
    var core;
    added', core := MarkSiblings(siblings, |t.siblings|, added, masks[cores]);
    assert core == siblings;
    masks' := masks[cores := core];
  }

  /** CPU `c` is in the request with its whole core of `k` threads. */
  ghost predicate WholeCore(t: Topology, k: nat, req: CpuSet, c: nat) {
    && c < |t.siblings| && c in t.siblings[c] && |t.siblings[c]| == k
    && IsClass(t, t.siblings[c]) && t.siblings[c] <= req
  }

  /** One turn of the splitting loop. */
  method SplitCpu(t: Topology, k: nat, req: CpuSet, cpu: nat, masks: seq<CpuSet>, cores: nat, added: CpuSet)
    returns (masks': seq<CpuSet>, cores': nat, added': CpuSet)
    requires SplitSoFar(t, k, added, masks, cores) && added <= req && (cpu in req ==> WholeCore(t, k, req, cpu))
    ensures SplitSoFar(t, k, added', masks', cores')
    ensures added <= added' <= req && (cpu in req ==> cpu in added')
  {
    if cpu in req && cpu !in added {
      masks', added' := AddCore(t, k, t.siblings[cpu], cpu, masks, cores, added);
      cores' := cores + 1;
    } else {
      masks', cores', added' := masks, cores, added;
    }
  }

  /** No core is set yet, in an array with room for all cores of the host. */
  lemma SplitNothing(t: Topology, k: nat, masks: seq<CpuSet>)
    requires k > 0 && |masks| == Slots(|t.siblings|, k) && forall i :: 0 <= i < |masks| ==> masks[i] == {}
    ensures SplitSoFar(t, k, {}, masks, 0)
  {
  }

  /** The loop that splits the requested CPUs in threads per core. */
  method SplitCores(t: Topology, k: nat, req: CpuSet) returns (masks: seq<CpuSet>, cores: nat)
    requires k > 0 && forall c :: c in req ==> WholeCore(t, k, req, c)
    ensures SplitSoFar(t, k, req, masks, cores)
  {
    var empty: CpuSet := {};
    masks, cores := seq(Slots(|t.siblings|, k), _ => empty), 0;
    var added: CpuSet := {};
    SplitNothing(t, k, masks);
    for cpu := 0 to |t.siblings|
      invariant SplitSoFar(t, k, added, masks, cores)
      invariant added <= req && forall c :: c in req && c < cpu ==> c in added
    {
      assert cpu in req ==> WholeCore(t, k, req, cpu);
      masks, cores, added := SplitCpu(t, k, req, cpu, masks, cores, added);
    }
    assert forall c :: c in req ==> c < |t.siblings|;
    assert added == req;
  }

  ghost predicate TornDown(pool: CpuPool)
    reads pool
  {
    pool.avail == [] && pool.nrThreadsPerCore == 0 && pool.numaNode == -1
  }

  method CheckRequest(t: Topology, ghost k: nat, req: CpuSet, online: CpuSet) returns (ok: bool, node: int)
    requires Uniform(t, k) && forall c :: c in req ==> c < |t.siblings|
    ensures ok <==> Acceptable(t, req, online)
    ensures ok ==> forall c :: c in req ==> t.nodes[c] == node
  {
    var n := |t.siblings|;
    node := -1;
    if req == {} { return false, node; }
    ok := AllOnline(req, online, n);
    if !ok { return; }
    ok, node := OneNode(req, t.nodes);
    if !ok { return; }
    if 0 in req { return false, node; }
    ok := NoneOf(t.siblings[0], req, n);
    if !ok { return; }
    ok := SiblingsIncluded(t, req, k);
  }

  /** Takes the CPUs offline, or puts all of them back online at the first failure. */
  method Offline(host: Host, req: CpuSet, n: nat, stuck: CpuSet) returns (ok: bool)
    requires req <= host.online && forall c :: c in req ==> c < n
    modifies host
    ensures ok <==> req !! stuck
    ensures host.online == if ok then old(host.online) - req else old(host.online)
  {
    for cpu := 0 to n
      invariant forall c :: c in host.online <==> c in old(host.online) && !(c in req && c < cpu)
      invariant forall c :: c in req && c < cpu ==> c !in stuck
    {
      if cpu in req {
        if cpu in stuck {
          for c := 0 to n
            invariant host.online <= old(host.online)
            invariant forall d :: d in old(host.online) && (d !in req || d < c) ==> d in host.online
          {
            if c in req { host.online := host.online + {c}; }
          }
          return false;
        }
        host.online := host.online - {cpu};
      }
    }
    ok := true;
  }

  /** The masks are the request split into its `cores`, all on `node`. */
  ghost predicate Prepared(t: Topology, k: nat, req: CpuSet, masks: seq<CpuSet>, cores: nat, node: int)
    requires k > 0 && |t.siblings| == |t.nodes|
  {
    && |masks| == Slots(|t.siblings|, k) && Bounded(masks, |t.siblings|)
    && Split(t, req, masks, cores) && |req| == Threads(cores, k)
    && forall c :: c in req ==> c < |t.nodes| && t.nodes[c] == node
  }

  /** The pool has as many CPUs as its cores have threads, in no more cores than the host has. */
  lemma PoolSize(t: Topology, k: nat, req: CpuSet, masks: seq<CpuSet>, cores: nat, node: int)
    requires k > 0 && |t.siblings| == |t.nodes| && Prepared(t, k, req, masks, cores, node)
    ensures |req| == cores * k && cores <= |t.siblings| / k
  {
    ThreadsIs(cores, k);
    SlotsIsDivision(|t.siblings|, k);
  }

  /** The checks and the split of `ne_setup_cpu_pool`, before any CPU is taken offline. */
  method Prepare(t: Topology, ghost k: nat, req: CpuSet, online: CpuSet)
    returns (ok: bool, masks: seq<CpuSet>, cores: nat, threads: nat, node: int)
    requires Uniform(t, k) && forall c :: c in req ==> c < |t.siblings|
    ensures ok <==> Acceptable(t, req, online)
    ensures ok ==> threads == k && Prepared(t, k, req, masks, cores, node)
  {
    masks, cores, threads := [], 0, 0;
    ok, node := CheckRequest(t, k, req, online);
    if !ok { return; }
    var cpu := Min(req);
    assert WholeCore(t, k, req, cpu);
    threads := CountThreads(t.siblings[cpu], |t.siblings|);
    masks, cores := SplitCores(t, threads, req);
    SplitLayout(t, k, req, masks, cores);
  }

  /** `ne_setup_cpu_pool`: `list` is the parsed CPU list (None on a parse error) and `stuck` the CPUs
      that cannot be taken offline. */
  method Setup(pool: CpuPool, host: Host, t: Topology, ghost k: nat, list: Option<CpuSet>, stuck: CpuSet)
    returns (ok: bool, ghost cores: nat)
    requires Uniform(t, k) && pool.nrCpuIds == |t.siblings| && TornDown(pool)
    requires list.Some? ==> forall c :: c in list.value ==> c < |t.siblings|
    modifies pool, host
    ensures ok <==> list.Some? && Acceptable(t, list.value, old(host.online)) && list.value !! stuck
    ensures !ok ==> TornDown(pool) && host.online == old(host.online)
    ensures ok ==> pool.nrThreadsPerCore == k && pool.Valid()
    ensures ok ==> Prepared(t, k, list.value, pool.avail, cores, pool.numaNode)
    ensures ok ==> host.online == old(host.online) - list.value
  {
    if list.None? { return false, 0; }
    var masks, number, threads, node;
    ok, masks, number, threads, node := Prepare(t, k, list.value, host.online);
    cores := number;
    if !ok { return; }
    ok := Offline(host, list.value, |t.siblings|, stuck);
    if ok {
      pool.avail, pool.nrThreadsPerCore, pool.numaNode := masks, threads, node;
    }
  }

  lemma SplitLayout(t: Topology, k: nat, req: CpuSet, masks: seq<CpuSet>, cores: nat)
    requires Uniform(t, k) && Split(t, req, masks, cores)
    ensures LayoutOk(masks, k) && Bounded(masks, |t.siblings|)
  {
    forall i | 0 <= i < |masks|
      ensures masks[i] == {} || |masks[i]| == k
    {
      if i < cores {
        assert IsClass(t, masks[i]);
        var c :| c in masks[i];
      }
    }
  }

  /** `ne_teardown_cpu_pool`, with every `add_cpu` succeeding. */
  method Teardown(pool: CpuPool, host: Host)
    requires pool.Valid() && (pool.avail == [] ==> TornDown(pool))
    modifies pool, host
    ensures TornDown(pool)
    ensures host.online == old(host.online) + Union(old(pool.avail))
  {
    if |pool.avail| == 0 { return; }
    var i := 0;
    var masks := pool.avail;
    while i < |masks|
      invariant 0 <= i <= |masks|
      invariant forall c :: c in host.online <==> c in old(host.online) || Holds(masks[..i], c)
    {
      ghost var before := host.online;
      for cpu := 0 to pool.nrCpuIds
        invariant forall c :: c in host.online <==> c in before || (c in masks[i] && c < cpu)
      {
        if cpu in masks[i] { host.online := host.online + {cpu}; }
      }
      HoldsSnoc(masks, i);
      i := i + 1;
    }
    assert masks[..i] == masks;
    pool.avail, pool.nrThreadsPerCore, pool.numaNode := [], 0, -1;
  }

  /** What setup leaves in the pool: whole cores of CPUs that were online, which are the request. */
  lemma PreparedSetupOk(t: Topology, k: nat, req: CpuSet, masks: seq<CpuSet>, cores: nat, node: int, online: CpuSet)
    requires Uniform(t, k) && Prepared(t, k, req, masks, cores, node) && req != {} && req <= online
    ensures SetupOk(masks, k, online) && Union(masks) == req && online - req + req == online
  {
    SplitLayout(t, k, req, masks, cores);
    var c :| c in req;
    assert Holds(masks, c);
  }

  /** `ne_set_kernel_param` once no enclave exists; `copyOk` is the outcome of storing the new value and `back` the
      CPUs online after the old pool is torn down. It succeeds exactly if the new list is acceptable for these, can be
      taken offline and is stored. The old pool is then back online except for the new pool, which is whole
      cores of CPUs that were online. */
  method SetKernelParam(pool: CpuPool, host: Host, t: Topology, ghost k: nat, list: Option<CpuSet>, stuck: CpuSet,
                        copyOk: bool)
    returns (ok: bool, ghost back: CpuSet)
    requires Uniform(t, k) && pool.nrCpuIds == |t.siblings|
    requires pool.Valid() && (pool.avail == [] ==> TornDown(pool))
    requires list.Some? ==> forall c :: c in list.value ==> c < |t.siblings|
    modifies pool, host
    ensures back == old(host.online) + Union(old(pool.avail))
    ensures ok <==> copyOk && list.Some? && Acceptable(t, list.value, back) && list.value !! stuck
    ensures ok ==> pool.nrThreadsPerCore == k && SetupOk(pool.avail, k, back) && Union(pool.avail) == list.value
    ensures ok ==> host.online == back - Union(pool.avail)
    ensures !ok ==> TornDown(pool) && host.online == back
  {
    Teardown(pool, host);
    back := host.online;
    ghost var cores;
    ok, cores := Setup(pool, host, t, k, list, stuck);
    if ok {
      PreparedSetupOk(t, k, list.value, pool.avail, cores, pool.numaNode, back);
      if !copyOk {
        Teardown(pool, host);
        ok := false;
      }
    }
  }
}
