/** When each step of the driver takes effect, and what it then changes. */
module NeSteps {
  import opened NeTypes
  import opened CpuSelect
  import opened MemRegions
  import opened NeSystem

  // ----- The pool -----

  /** The check passes exactly if there is no enclave and nobody is creating one. A teardown puts exactly the CPUs of
      the pool online; without a check before it, it does nothing. */
  lemma ReconfExact(s: Sys)
    ensures Next(s, ReconfCheck) == s.(reconf := s.reconf || (!s.creating && s.enclaves == map[]))
    ensures Next(s, ReconfEnd) == s.(reconf := false)
    ensures var s' := Next(s, TearDown);
            if s.reconf then
              && s'.avail == s'.layout == [] && s'.threadsPerCore == 0 && s'.node == -1
              && (forall c :: c in s'.online <==> c in s.online || Holds(s.avail, c))
              && s'.enclaves == s.enclaves && s'.released == s.released && s'.creating == s.creating && s'.reconf
            else s' == s
  {
  }

  /** A setup takes effect exactly after a teardown and with whole cores of CPUs that are online, which it takes
      offline. */
  lemma SetUpStepExact(s: Sys, layout: seq<CpuSet>, k: nat, node: int)
    ensures var s' := Next(s, SetUp(layout, k, node));
            if s.reconf && s.avail == [] && SetupOk(layout, k, s.online) then
              && s'.avail == s'.layout == layout && s'.threadsPerCore == k && s'.node == node
              && (forall c :: c in s'.online <==> c in s.online && !Holds(layout, c))
              && s'.enclaves == s.enclaves && s'.released == s.released && s'.creating == s.creating && s'.reconf
            else s' == s
  {
  }

  // ----- Creation and release -----

  /** A creation begins exactly if the pool has a thread and no other creation is under way. */
  lemma CreateCheckExact(s: Sys)
    ensures Next(s, CreateCheck) == s.(creating := s.creating || exists c :: Holds(s.avail, c))
  {
    var f := FirstFree(s.avail);
    if f >= 0 {
      var c :| c in s.avail[f];
      assert Holds(s.avail, c);
    }
  }

  /** It ends with a new enclave exactly if the device gives a new slot: in INIT, with the pool's slots, threads per
      core and node, without CPUs and memory. Everything else stays. */
  lemma CreateExact(s: Sys, u: nat, max: nat, ok: bool)
    ensures var s' := Next(s, CreateAlloc(u, max, ok));
            && (u in s'.enclaves <==> u in s.enclaves || (s.creating && ok && u != 0))
            && s' == s.(creating := false, enclaves := s'.enclaves)
            && s'.enclaves.Keys == s.enclaves.Keys + (if u in s'.enclaves then {u} else {})
            && (forall w :: w in s.enclaves ==> s'.enclaves[w] == s.enclaves[w])
            && (u in s'.enclaves && u !in s.enclaves ==>
                  var e := s'.enclaves[u];
                  && |e.cpu.cores| == |s.avail| && (forall c :: !Holds(e.cpu.cores, c)) && e.cpu.vcpuIds == {}
                  && e.cpu.nrVcpus == 0 && e.threadsPerCore == s.threadsPerCore && e.node == s.node
                  && e.mem == Memory([], 0, 0, max, [], multiset{}, multiset{})
                  && e.state == Init && !e.hasEvent && e.pending.None?)
  {
  }

  /** An enclave is gone exactly if the device freed its slot while nothing else had its mutex or the list. Its threads
      are then back in their slots and its pages put; nothing else changes. */
  lemma ReleaseExact(s: Sys, u: nat, ok: bool)
    requires u in s.enclaves
    ensures var s', e := Next(s, Release(u, ok)), s.enclaves[u];
            && (u !in s'.enclaves <==> ok && e.pending.None? && !s.creating)
            && (u in s'.enclaves ==> s' == s)
            && (u !in s'.enclaves ==>
                  && s' == s.(avail := s'.avail, enclaves := s.enclaves - {u}, released := s'.released)
                  && |s'.avail| == |s.avail|
                  && (forall i, c :: 0 <= i < |s.avail| ==>
                        (c in s'.avail[i] <==> c in s.avail[i] || (i < |e.cpu.cores| && c in e.cpu.cores[i])))
                  && |s'.released| == |s.released| + 1 && s'.released[..|s.released|] == s.released
                  && s'.released[|s.released|].put == e.mem.put + multiset(AllPages(e.mem.regions)))
  {
  }

  // ----- One enclave -----

  /** The step changed nothing but enclave `u`. */
  ghost predicate OnlyEnclave(s: Sys, s': Sys, u: nat)
    requires u in s.enclaves
  {
    u in s'.enclaves && s' == s.(enclaves := s.enclaves[u := s'.enclaves[u]])
  }

  /** NE_START_ENCLAVE in INIT starts the enclave exactly if it has memory, 64 MiB of it, and vCPUs, all threads of its
      cores are among them, and the device agrees. */
  lemma StartExact(s: Sys, u: nat, ok: bool)
    requires Idle(s, u) && s.enclaves[u].state == Init
    ensures var s', e := Next(s, Start(u, ok)), s.enclaves[u];
            && OnlyEnclave(s, s', u)
            && (s'.enclaves[u].state == Running <==>
                  && ok && e.mem.nrMemRegions > 0 && e.mem.memSize >= 0x400_0000 && e.cpu.nrVcpus > 0
                  && forall c :: Holds(e.cpu.cores, c) ==> c in e.cpu.vcpuIds)
            && s'.enclaves[u] == e.(state := if s'.enclaves[u].state == Running then Running else Init)
  {
    FullCoresExact(s.enclaves[u].cpu);
  }

  /** Outside INIT, or while an NE_ADD_VCPU waits for the device, no resource is added and nothing is started. */
  lemma OnlyInInit(s: Sys, step: Step)
    requires step.ReserveVcpu? || step.SetMem? || step.Start?
    requires !Idle(s, step.uid) || s.enclaves[step.uid].state != Init
    ensures Next(s, step) == s
  {
  }

  /** NE_ADD_VCPU with a vCPU of the caller's choice reserves exactly that one, if it is below the limit, not donated,
      and held or in a slot of the pool that the enclave has. */
  lemma ReserveExact(s: Sys, u: nat, v: nat)
    requires Idle(s, u) && s.enclaves[u].state == Init && v > 0
    ensures var s', e := Next(s, ReserveVcpu(u, v)), s.enclaves[u];
            && OnlyEnclave(s, s'.(avail := s.avail), u)
            && (s'.enclaves[u].pending == Some(v) <==>
                  && v < |e.cpu.cores| * e.threadsPerCore && v !in e.cpu.vcpuIds
                  && (Holds(e.cpu.cores, v) || InSlots(s.avail, |e.cpu.cores|, v)))
            && (s'.enclaves[u].pending != Some(v) ==> s' == s)
            && (Holds(e.cpu.cores, v) ==> s'.avail == s.avail)
            && s'.enclaves[u] == e.(pending := s'.enclaves[u].pending, cpu := e.cpu.(cores := s'.enclaves[u].cpu.cores))
  {
    var e := s.enclaves[u];
    GivenExact(s.avail, e.cpu, e.threadsPerCore, v);
  }

  /** A waiting vCPU becomes one of the enclave's exactly if the device accepts it; either way it no longer waits. */
  lemma RecordExact(s: Sys, u: nat, ok: bool)
    requires u in s.enclaves && s.enclaves[u].pending.Some?
    ensures var s', e := Next(s, RecordVcpu(u, ok)), s.enclaves[u];
            && OnlyEnclave(s, s', u) && s'.enclaves[u].pending.None?
            && s'.enclaves[u] == e.(pending := None, cpu := s'.enclaves[u].cpu)
            && s'.enclaves[u].cpu.cores == e.cpu.cores
            && (forall c :: c in s'.enclaves[u].cpu.vcpuIds <==> c in e.cpu.vcpuIds || (ok && c == e.pending.value))
            && s'.enclaves[u].cpu.nrVcpus == e.cpu.nrVcpus + (if ok then 1 else 0)
  {
  }

  /** NE_SET_USER_MEMORY_REGION in INIT changes the memory of the enclave on its node, and nothing else. */
  lemma SetMemExact(s: Sys, u: nat, taskSize: nat, addr: nat, size: nat, gup: seq<Gup>, accepts: nat)
    requires Idle(s, u) && s.enclaves[u].state == Init
    ensures var s', e := Next(s, SetMem(u, taskSize, addr, size, gup, accepts)), s.enclaves[u];
            && OnlyEnclave(s, s', u) && s'.enclaves[u] == e.(mem := s'.enclaves[u].mem)
            && s'.enclaves[u].mem == SetMemory(e.mem, e.node, taskSize, addr, size, gup, accepts).0
  {
  }

  /** A running enclave takes over a state other than RUNNING that the device reports, and its poll flag goes up; any
      other enclave ignores events. */
  lemma EventExact(s: Sys, u: nat, reply: EnclaveState)
    requires u in s.enclaves
    ensures var s', e := Next(s, Event(u, reply)), s.enclaves[u];
            if !s.creating && e.pending.None? && e.state == Running && reply != Running then
              OnlyEnclave(s, s', u) && s'.enclaves[u] == e.(state := reply, hasEvent := true)
            else s' == s
  {
  }
}
