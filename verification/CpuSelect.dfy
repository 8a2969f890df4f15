/** Choosing a vCPU for an enclave: `ne_get_cpu_from_cpu_pool`,
    `ne_check_cpu_in_cpu_pool`, `ne_set_enclave_threads_per_core` and the vCPU
    part of `ne_enclave_ioctl`. */
module CpuSelect {
  import opened NeTypes

  datatype Outcome = Chosen(vcpu: nat) | Refused(error: Errno)

  /** The pool masks, the enclave's masks and the outcome after a selection. */
  datatype Selection = Selection(avail: seq<CpuSet>, cores: seq<CpuSet>, outcome: Outcome)

  /** The least index whose mask satisfies `p`, or -1. */
  function FirstIndex(masks: seq<CpuSet>, p: CpuSet -> bool): (i: int)
    ensures i == -1 ==> forall k :: 0 <= k < |masks| ==> !p(masks[k])
    ensures i != -1 ==> 0 <= i < |masks| && p(masks[i]) && forall k :: 0 <= k < i ==> !p(masks[k])
  {
    if masks == [] then -1
    else if p(masks[0]) then 0
    else
      var r := FirstIndex(masks[1..], p);
      if r == -1 then -1 else r + 1
  }

  function FirstFree(masks: seq<CpuSet>): int { FirstIndex(masks, m => m != {}) }
  function FirstWith(masks: seq<CpuSet>, v: nat): int { FirstIndex(masks, m => v in m) }
  function FirstPartial(masks: seq<CpuSet>, used: CpuSet): int { FirstIndex(masks, m => m - used != {}) }

  /** Moves core `core` from the pool to the enclave. */
  function Assign(avail: seq<CpuSet>, cores: seq<CpuSet>, core: int, v: nat, chosen: nat): Selection
    requires -1 <= core < |avail|
  {
    if core < 0 && v == 0 then Selection(avail, cores, Refused(NoCpusAvail))
    else if core < 0 then Selection(avail, cores, Refused(NotInPool))
    else if core >= |cores| then Selection(avail, cores, Refused(InvalidCore))
    else Selection(avail[core := {}], cores[core := cores[core] + avail[core]], Chosen(chosen))
  }

  function ChooseAuto(avail: seq<CpuSet>, cpu: Cpus): Selection {
    var i := FirstPartial(cpu.cores, cpu.vcpuIds);
    if i >= 0 then Selection(avail, cpu.cores, Chosen(Min(cpu.cores[i] - cpu.vcpuIds)))
    else
      var core := FirstFree(avail);
      var chosen := if 0 <= core < |cpu.cores| then Min(cpu.cores[core] + avail[core]) else 0;
      Assign(avail, cpu.cores, core, 0, chosen)
  }

  function ChooseGiven(avail: seq<CpuSet>, cpu: Cpus, v: nat): Selection {
    if v in cpu.vcpuIds then Selection(avail, cpu.cores, Refused(AlreadyUsed))
    else if FirstWith(cpu.cores, v) >= 0 then Selection(avail, cpu.cores, Chosen(v))
    else Assign(avail, cpu.cores, FirstWith(avail, v), v, v)
  }

  /** The vCPU selection of the NE_ADD_VCPU ioctl, in state INIT. */
  function Reserve(avail: seq<CpuSet>, cpu: Cpus, threadsPerCore: nat, v: nat): Selection {
    if v >= |cpu.cores| * threadsPerCore then Selection(avail, cpu.cores, Refused(InvalidVcpu))
    else if v == 0 then ChooseAuto(avail, cpu)
    else ChooseGiven(avail, cpu, v)
  }

  /** The whole core in slot `i` of the pool moved to the enclave. */
  ghost predicate TookCore(avail: seq<CpuSet>, cores: seq<CpuSet>, s: Selection, i: int) {
    && 0 <= i < |avail| && i < |cores| && avail[i] != {}
    && s.avail == avail[i := {}] && s.cores == cores[i := cores[i] + avail[i]]
  }

  /** One of the first `n` slots holds `v`. */
  ghost predicate InSlots(masks: seq<CpuSet>, n: nat, v: nat) {
    exists i {:trigger v in masks[i]} :: 0 <= i < |masks| && i < n && v in masks[i]
  }

  ghost predicate Untouched(avail: seq<CpuSet>, cores: seq<CpuSet>, s: Selection) {
    s.avail == avail && s.cores == cores
  }

  /** A caller who names a vCPU gets that one, or each refusal exactly on its condition. The pool changes exactly if no
      held core has the vCPU, and then exactly its core moves. */
  lemma GivenExact(avail: seq<CpuSet>, cpu: Cpus, k: nat, v: nat)
    requires v > 0
    ensures var s := Reserve(avail, cpu, k, v);
            var valid := v < |cpu.cores| * k && v !in cpu.vcpuIds;
            && (s.outcome == Refused(InvalidVcpu) <==> v >= |cpu.cores| * k)
            && (s.outcome == Refused(AlreadyUsed) <==> v < |cpu.cores| * k && v in cpu.vcpuIds)
            && (s.outcome == Refused(NotInPool) <==> valid && !Holds(cpu.cores, v) && !Holds(avail, v))
            && (s.outcome == Chosen(v) <==> valid && (Holds(cpu.cores, v) || InSlots(avail, |cpu.cores|, v)))
            && (s.outcome.Chosen? ==> s.outcome.vcpu == v)
            && (if s.outcome.Chosen? && !Holds(cpu.cores, v) then
                  exists i :: TookCore(avail, cpu.cores, s, i) && v in avail[i]
                              && forall j :: 0 <= j < i ==> v !in avail[j]
                else Untouched(avail, cpu.cores, s))
  {
    var s := Reserve(avail, cpu, k, v);
    var i := FirstWith(avail, v);
    assert Holds(cpu.cores, v) <==> FirstWith(cpu.cores, v) >= 0;
    assert Holds(avail, v) <==> i >= 0;
    assert InSlots(avail, |cpu.cores|, v) <==> 0 <= i < |cpu.cores|;
    if s.outcome.Chosen? && !Holds(cpu.cores, v) { assert TookCore(avail, cpu.cores, s, i); }
  }

  /** A caller who leaves the choice to the driver gets the least free thread of the first held core that has one;
      without one, the first free core of the pool moves, and the least thread in its slot is chosen. */
  lemma AutoExact(avail: seq<CpuSet>, cpu: Cpus, k: nat)
    requires cpu.cores != [] && k > 0
    ensures var s := Reserve(avail, cpu, k, 0);
            if exists c :: Holds(cpu.cores, c) && c !in cpu.vcpuIds then
              && Untouched(avail, cpu.cores, s) && s.outcome.Chosen?
              && exists i :: 0 <= i < |cpu.cores| && IsMin(cpu.cores[i] - cpu.vcpuIds, s.outcome.vcpu)
                             && forall j :: 0 <= j < i ==> cpu.cores[j] <= cpu.vcpuIds
            else if s.outcome.Chosen? then
              exists i :: TookCore(avail, cpu.cores, s, i) && IsMin(s.cores[i], s.outcome.vcpu)
                          && forall j :: 0 <= j < i ==> avail[j] == {}
            else
              && Untouched(avail, cpu.cores, s)
              && (s.outcome == Refused(NoCpusAvail) <==> forall c :: !Holds(avail, c))
              && (s.outcome != Refused(NoCpusAvail) ==> s.outcome == Refused(InvalidCore))
              && forall i, c :: 0 <= i < |avail| && i < |cpu.cores| ==> c !in avail[i]
  {
    var s := Reserve(avail, cpu, k, 0);
    assert |cpu.cores| * k > 0;
    var i := FirstPartial(cpu.cores, cpu.vcpuIds);
    assert (exists c :: Holds(cpu.cores, c) && c !in cpu.vcpuIds) <==> i >= 0 by {
      if c :| Holds(cpu.cores, c) && c !in cpu.vcpuIds {
        var j :| 0 <= j < |cpu.cores| && c in cpu.cores[j];
        assert c in cpu.cores[j] - cpu.vcpuIds;
      }
      if i >= 0 { assert Holds(cpu.cores, Min(cpu.cores[i] - cpu.vcpuIds)); }
    }
    if i >= 0 {
      assert IsMin(cpu.cores[i] - cpu.vcpuIds, s.outcome.vcpu);
      forall j | 0 <= j < i ensures cpu.cores[j] <= cpu.vcpuIds {
        forall c | c in cpu.cores[j] ensures c in cpu.vcpuIds { assert c !in cpu.cores[j] - cpu.vcpuIds; }
      }
    } else if s.outcome.Chosen? {
      assert TookCore(avail, cpu.cores, s, FirstFree(avail));
    } else {
      var f := FirstFree(avail);
      if f >= 0 {
        var c :| c in avail[f];
        assert Holds(avail, c);
      }
    }
  }

  /** Recording a vCPU the device accepted. */
  function Record(cpu: Cpus, v: nat): Cpus {
    cpu.(vcpuIds := cpu.vcpuIds + {v}, nrVcpus := cpu.nrVcpus + 1)
  }

  /** The full-core test of NE_START_ENCLAVE. */
  predicate FullCores(cpu: Cpus) {
    forall i, c :: 0 <= i < |cpu.cores| && c in cpu.cores[i] ==> c in cpu.vcpuIds
  }

  lemma FullCoresExact(cpu: Cpus)
    ensures FullCores(cpu) <==> forall c :: Holds(cpu.cores, c) ==> c in cpu.vcpuIds
  {
    forall c | FullCores(cpu) && Holds(cpu.cores, c) ensures c in cpu.vcpuIds {
      var i :| 0 <= i < |cpu.cores| && c in cpu.cores[i];
    }
    forall i, c | 0 <= i < |cpu.cores| && c in cpu.cores[i] ensures Holds(cpu.cores, c) { }
  }

  /** The pool after an enclave gave its cores back. */
  function ReturnCores(avail: seq<CpuSet>, cores: seq<CpuSet>): seq<CpuSet> {
    seq(|avail|, i requires 0 <= i < |avail| => if i < |cores| then avail[i] + cores[i] else avail[i])
  }

  ghost predicate Bounded(masks: seq<CpuSet>, n: nat) {
    forall i, c :: 0 <= i < |masks| && c in masks[i] ==> c < n
  }

  /** `struct ne_cpu_pool`; `nr_parent_vm_cores` is the length of `avail`. */
  class CpuPool {
    const nrCpuIds: nat
    var avail: seq<CpuSet>
    var nrThreadsPerCore: nat
    var numaNode: int

    ghost predicate Valid()
      reads this
    {
      Bounded(avail, nrCpuIds)
    }

    constructor (nrCpuIds: nat)
      ensures this.nrCpuIds == nrCpuIds && avail == [] && nrThreadsPerCore == 0 && numaNode == -1
    {
      this.nrCpuIds, avail, nrThreadsPerCore, numaNode := nrCpuIds, [], 0, -1;
    }

    method GetUnusedCore() returns (core: int)
      ensures core == FirstFree(avail)
    {
      core := -1;
      var i := 0;
      while i < |avail|
        invariant 0 <= i <= |avail|
        invariant forall k :: 0 <= k < i ==> avail[k] == {}
      {
        if avail[i] != {} {
          return i;
        }
        i := i + 1;
      }
    }

    method GetVcpuCore(v: nat) returns (core: int)
      ensures core == FirstWith(avail, v)
    {
      core := -1;
      var i := 0;
      while i < |avail|
        invariant 0 <= i <= |avail|
        invariant forall k :: 0 <= k < i ==> v !in avail[k]
      {
        if v in avail[i] {
          return i;
        }
        i := i + 1;
      }
    }
  }

  /** The least thread of `mask` outside `used`, scanning upwards like `for_each_cpu`. */
  method FirstUndonated(mask: CpuSet, used: CpuSet, n: nat) returns (found: bool, cpu: nat)
    requires forall c :: c in mask ==> c < n
    ensures found <==> mask - used != {}
    ensures found ==> cpu == Min(mask - used)
  {
    found, cpu := false, 0;
    while cpu < n
      invariant 0 <= cpu <= n
      invariant forall c :: c in mask && c < cpu ==> c in used
    {
      if cpu in mask && cpu !in used {
        assert cpu in mask - used;
        found := true;
        return;
      }
      cpu := cpu + 1;
    }
  }

  /** The CPU fields of `struct ne_enclave`. */
  class EnclaveCpus {
    var threadsPerCore: seq<CpuSet>
    var vcpuIds: CpuSet
    var nrVcpus: nat
    var nrThreadsPerCore: nat

    /** The CPU fields of a new enclave, as `ne_create_vm_ioctl` takes them from the pool. */
    constructor (slots: nat, nrThreadsPerCore: nat)
      ensures |threadsPerCore| == slots && forall i :: 0 <= i < slots ==> threadsPerCore[i] == {}
      ensures vcpuIds == {} && nrVcpus == 0 && this.nrThreadsPerCore == nrThreadsPerCore
    {
      var none: CpuSet := {};
      threadsPerCore, vcpuIds, nrVcpus := seq(slots, _ => none), {}, 0;
      this.nrThreadsPerCore := nrThreadsPerCore;
    }

    function View(): Cpus
      reads this
    {
      Cpus(threadsPerCore, vcpuIds, nrVcpus)
    }

    ghost predicate Valid(n: nat)
      reads this
    {
      Bounded(threadsPerCore, n)
    }

    method SetThreadsPerCore(pool: CpuPool, core: int, v: nat) returns (error: Option<Errno>)
      requires -1 <= core < |pool.avail| && pool.Valid()
      modifies this`threadsPerCore, pool`avail
      ensures var s := old(Assign(pool.avail, threadsPerCore, core, v, v));
              && pool.avail == s.avail && threadsPerCore == s.cores
              && error == (if s.outcome.Refused? then Some(s.outcome.error) else None)
    {
      if core < 0 && v == 0 { return Some(NoCpusAvail); }
      if core < 0 { return Some(NotInPool); }
      if core >= |threadsPerCore| { return Some(InvalidCore); }
      var mask := pool.avail[core];
      var cpu := 0;
      while cpu < pool.nrCpuIds
        invariant 0 <= cpu <= pool.nrCpuIds
        invariant |threadsPerCore| == old(|threadsPerCore|) && pool.avail == old(pool.avail)
        invariant threadsPerCore[core] == old(threadsPerCore)[core] + set c | c in mask && c < cpu
        invariant forall k :: 0 <= k < |threadsPerCore| && k != core ==> threadsPerCore[k] == old(threadsPerCore)[k]
      {
        if cpu in mask {
          threadsPerCore := threadsPerCore[core := threadsPerCore[core] + {cpu}];
        }
        cpu := cpu + 1;
      }
      assert (set c | c in mask && c < cpu) == mask;
      pool.avail := pool.avail[core := {}];
      error := None;
    }

    method GetCpuFromPool(pool: CpuPool) returns (out: Outcome)
      requires pool.Valid() && Valid(pool.nrCpuIds)
      modifies this`threadsPerCore, pool`avail
      ensures Selection(pool.avail, threadsPerCore, out) == old(ChooseAuto(pool.avail, View()))
    {
      var i := 0;
      while i < |threadsPerCore|
        invariant 0 <= i <= |threadsPerCore|
        invariant forall k :: 0 <= k < i ==> threadsPerCore[k] - vcpuIds == {}
        invariant threadsPerCore == old(threadsPerCore) && pool.avail == old(pool.avail)
      {
        var found, cpu := FirstUndonated(threadsPerCore[i], vcpuIds, pool.nrCpuIds);
        if found {
          return Chosen(cpu);
        }
        i := i + 1;
      }
      var core := pool.GetUnusedCore();
      var error := SetThreadsPerCore(pool, core, 0);
      if error.Some? { return Refused(error.value); }
      out := Chosen(Min(threadsPerCore[core]));
    }

    method CheckCpuInPool(pool: CpuPool, v: nat) returns (out: Outcome)
      requires pool.Valid() && Valid(pool.nrCpuIds)
      modifies this`threadsPerCore, pool`avail
      ensures Selection(pool.avail, threadsPerCore, out) == old(ChooseGiven(pool.avail, View(), v))
      ensures out.Chosen? ==> out.vcpu == v
    {
      if v in vcpuIds { return Refused(AlreadyUsed); }
      var i := 0;
      while i < |threadsPerCore|
        invariant 0 <= i <= |threadsPerCore|
        invariant forall k :: 0 <= k < i ==> v !in threadsPerCore[k]
        invariant threadsPerCore == old(threadsPerCore) && pool.avail == old(pool.avail)
      {
        if v in threadsPerCore[i] {
          return Chosen(v);
        }
        i := i + 1;
      }
      var core := pool.GetVcpuCore(v);
      var error := SetThreadsPerCore(pool, core, v);
      out := if error.Some? then Refused(error.value) else Chosen(v);
    }

    /** The NE_ADD_VCPU ioctl in state INIT; `deviceOk` is the reply to SLOT_ADD_VCPU. */
    method AddVcpu(pool: CpuPool, v: nat, deviceOk: bool) returns (out: Outcome)
      requires pool.Valid() && Valid(pool.nrCpuIds)
      modifies this, pool`avail
      ensures var s := old(Reserve(pool.avail, View(), nrThreadsPerCore, v));
              && pool.avail == s.avail
              && View() == (var c := old(View()).(cores := s.cores);
                            if s.outcome.Chosen? && deviceOk then Record(c, s.outcome.vcpu) else c)
              && out == (if s.outcome.Refused? || deviceOk then s.outcome else Refused(DeviceError))
              && nrThreadsPerCore == old(nrThreadsPerCore)
      ensures v > 0 && out.Chosen? ==> out.vcpu == v
    {
      if v >= |threadsPerCore| * nrThreadsPerCore { return Refused(InvalidVcpu); }
      if v == 0 {
        out := GetCpuFromPool(pool);
      } else {
        out := CheckCpuInPool(pool, v);
      }
      if out.Refused? { return; }
      if !deviceOk { return Refused(DeviceError); }
      vcpuIds := vcpuIds + {out.vcpu};
      nrVcpus := nrVcpus + 1;
    }

    /** The nested loop over the cores in `ne_start_enclave_ioctl`. */
    method FullCoresUsed(n: nat) returns (ok: bool)
      requires Valid(n)
      ensures ok <==> FullCores(View())
    {
      for i := 0 to |threadsPerCore|
        invariant forall k, c :: 0 <= k < i && c in threadsPerCore[k] ==> c in vcpuIds
      {
        var found, cpu := FirstUndonated(threadsPerCore[i], vcpuIds, n);
        if found {
          assert cpu in threadsPerCore[i] && cpu !in vcpuIds;
          return false;
        }
        forall c | c in threadsPerCore[i] ensures c in vcpuIds { assert c !in threadsPerCore[i] - vcpuIds; }
      }
      ok := true;
    }

    /** The inner loop of `ne_enclave_remove_all_vcpu_id_entries`, for a slot of the pool. */
    method ReturnCore(pool: CpuPool, i: nat)
      requires Valid(pool.nrCpuIds) && i < |threadsPerCore| && i < |pool.avail|
      modifies pool`avail
      ensures pool.avail == old(pool.avail)[i := old(pool.avail)[i] + threadsPerCore[i]]
    {
      for cpu := 0 to pool.nrCpuIds
        invariant |pool.avail| == |old(pool.avail)|
        invariant forall k :: 0 <= k < |pool.avail| && k != i ==> pool.avail[k] == old(pool.avail)[k]
        invariant forall c :: c in pool.avail[i] <==> c in old(pool.avail)[i] || (c in threadsPerCore[i] && c < cpu)
      {
        if cpu in threadsPerCore[i] {
          pool.avail := pool.avail[i := pool.avail[i] + {cpu}];
        }
      }
      assert pool.avail[i] == old(pool.avail)[i] + threadsPerCore[i];
    }

    /** `ne_enclave_remove_all_vcpu_id_entries`. It writes only to slots that the pool has exactly when no core beyond
        them is held; it gives up at the first write that would not. */
    method RemoveAllVcpus(pool: CpuPool) returns (inBounds: bool)
      requires Valid(pool.nrCpuIds)
      modifies pool`avail
      ensures inBounds <==> forall i :: |old(pool.avail)| <= i < |threadsPerCore| ==> threadsPerCore[i] == {}
      ensures inBounds ==> pool.avail == ReturnCores(old(pool.avail), threadsPerCore)
    {
      for i := 0 to |threadsPerCore|
        invariant |pool.avail| == |old(pool.avail)|
        invariant forall k :: |pool.avail| <= k < i ==> threadsPerCore[k] == {}
        invariant forall k :: 0 <= k < |pool.avail| ==>
                    pool.avail[k] == if k < i then old(pool.avail)[k] + threadsPerCore[k] else old(pool.avail)[k]
      {
        if i < |pool.avail| {
          ReturnCore(pool, i);
        } else if threadsPerCore[i] != {} {
          return false;
        }
      }
      inBounds := true;
    }
  }
}
