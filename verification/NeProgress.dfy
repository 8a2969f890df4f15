/** What users of the driver can count on: a free core is enough to start an enclave, and releasing it gives everything
    back. */
module NeProgress {
  import opened NeTypes
  import opened CpuSelect
  import opened MemRegions
  import opened NeSystem
  import opened NeTheorems
  import opened NeSteps
  import EndToEnd

  // ----- Donating a free core thread by thread -----

  /** A new enclave, out of state `s`, that holds the core of slot `f` and has donated `used`. */
  function Donor(s: Sys, f: nat, used: CpuSet): Enclave
    requires f < |s.avail|
  {
    var e := NewEnclave(s, 1);
    e.(cpu := Cpus(e.cpu.cores[f := s.avail[f]], used, |used|))
  }

  /** State `s` with that enclave. */
  function Donating(s: Sys, u: nat, f: nat, used: CpuSet): Sys
    requires f < |s.avail|
  {
    Put(s, u, Donor(s, f, used)).(avail := s.avail[f := {}])
  }

  function AddOne(u: nat): seq<Step> { [ReserveVcpu(u, 0), RecordVcpu(u, true)] }

  /** There is a pool with a free core. */
  predicate HasFree(s: Sys) { s.threadsPerCore > 0 && FirstFree(s.avail) >= 0 }

  lemma AddedOne(s: Sys, u: nat, sel: Selection, v: nat)
    requires Idle(s, u) && s.enclaves[u].state == Init
    requires sel == Reserve(s.avail, s.enclaves[u].cpu, s.enclaves[u].threadsPerCore, 0) && sel.outcome == Chosen(v)
    ensures var e := s.enclaves[u];
            Run(s, AddOne(u)) ==
              Put(s, u, e.(cpu := Cpus(sel.cores, e.cpu.vcpuIds + {v}, e.cpu.nrVcpus + 1))).(avail := sel.avail)
  {
    Run2(s, ReserveVcpu(u, 0), RecordVcpu(u, true));
  }

  /** The first addition takes the core. */
  lemma FirstAdded(s: Sys, u: nat)
    requires HasFree(s)
    ensures var f := FirstFree(s.avail);
            s.avail[f] != {} && Run(Put(s, u, NewEnclave(s, 1)), AddOne(u)) == Donating(s, u, f, {Min(s.avail[f])})
  {
    var f, e := FirstFree(s.avail), NewEnclave(s, 1);
    FullTakesCore(s.avail, e.cpu, s.threadsPerCore);
    assert e.cpu.cores[f] + s.avail[f] == s.avail[f];
    AddedOne(Put(s, u, e), u, Reserve(s.avail, e.cpu, s.threadsPerCore, 0), Min(s.avail[f]));
  }

  /** The next thread that is donated. */
  lemma NextChoice(s: Sys, f: nat, used: CpuSet)
    requires s.threadsPerCore > 0 && f < |s.avail| && s.avail[f] - used != {}
    ensures var cpu := Donor(s, f, used).cpu;
            Reserve(s.avail[f := {}], cpu, s.threadsPerCore, 0) ==
              Selection(s.avail[f := {}], cpu.cores, Chosen(Min(s.avail[f] - used)))
  {
    var cpu := Donor(s, f, used).cpu;
    assert |cpu.cores| * s.threadsPerCore > 0;
    assert cpu.cores[f] - used == s.avail[f] - used;
    assert forall j :: 0 <= j < f ==> cpu.cores[j] - used == {};
    assert FirstPartial(cpu.cores, used) == f;
  }

  lemma OneMoreUsed(used: CpuSet, v: nat)
    requires v !in used
    ensures |used + {v}| == |used| + 1
  {
  }

  lemma Replaced(s: Sys, u: nat, f: nat, used: CpuSet, more: CpuSet)
    requires f < |s.avail|
    ensures Put(Donating(s, u, f, used), u, Donor(s, f, more)).(avail := s.avail[f := {}]) == Donating(s, u, f, more)
  {
    assert s.enclaves[u := Donor(s, f, used)][u := Donor(s, f, more)] == s.enclaves[u := Donor(s, f, more)];
  }

  lemma NextAdded(s: Sys, u: nat, f: nat, used: CpuSet)
    requires s.threadsPerCore > 0 && f < |s.avail| && s.avail[f] - used != {}
    ensures Run(Donating(s, u, f, used), AddOne(u)) == Donating(s, u, f, used + {Min(s.avail[f] - used)})
  {
    var s1, v := Donating(s, u, f, used), Min(s.avail[f] - used);
    NextChoice(s, f, used);
    AddedOne(s1, u, Selection(s1.avail, s1.enclaves[u].cpu.cores, Chosen(v)), v);
    OneMoreUsed(used, v);
    Replaced(s, u, f, used, used + {v});
  }

  /** The additions that donate the rest of the core. */
  lemma {:induction false} AddRest(s: Sys, u: nat, f: nat, used: CpuSet) returns (steps: seq<Step>)
    requires s.threadsPerCore > 0 && f < |s.avail| && used <= s.avail[f]
    ensures Run(Donating(s, u, f, used), steps) == Donating(s, u, f, s.avail[f])
    decreases |s.avail[f] - used|
  {
    if s.avail[f] - used == {} {
      forall c | c in s.avail[f] ensures c in used { assert c !in s.avail[f] - used; }
      assert used == s.avail[f];
      steps := [];
    } else {
      var v := Min(s.avail[f] - used);
      assert s.avail[f] - (used + {v}) == (s.avail[f] - used) - {v};
      NextAdded(s, u, f, used);
      var rest := AddRest(s, u, f, used + {v});
      RunAppend(Donating(s, u, f, used), AddOne(u), rest);
      steps := AddOne(u) + rest;
    }
  }

  // ----- Memory and the start -----

  /** One page of 64 MiB at the start of the address space. */
  function GiveMemory(u: nat, node: int): Step {
    SetMem(u, 0x400_0000, 0, 0x400_0000, [GupPage(RawPage(0, 0x400_0000, true, node))], 1)
  }

  lemma MemoryGiven(m: Memory, node: int)
    requires m == Memory([], 0, 0, 1, [], multiset{}, multiset{})
    ensures var m' := SetMemory(m, node, 0x400_0000, 0, 0x400_0000, [GupPage(RawPage(0, 0x400_0000, true, node))], 1).0;
            m'.memSize == 0x400_0000 && m'.nrMemRegions == 1
  {
    var gup := GupPage(RawPage(0, 0x400_0000, true, node));
    EndToEnd.PageAccepted(m, node, 0x400_0000, 0, 0x400_0000, gup, 1);
    var m' := SetMemory(m, node, 0x400_0000, 0, 0x400_0000, [gup], 1).0;
    EndToEnd.SuccessLists(m, m', node, 0x400_0000, 0, 0x400_0000, [gup], 1);
    EndToEnd.OnePage(m, m', node, 0, 0x400_0000, gup);
  }

  /** The enclave started, and nothing else changed. */
  ghost predicate StartedIn(s: Sys, s': Sys, u: nat) {
    && u in s.enclaves && OnlyEnclave(s, s', u)
    && s'.enclaves[u].state == Running && s'.enclaves[u].cpu == s.enclaves[u].cpu && s'.enclaves[u].pending.None?
  }

  lemma OnlyTwice(s: Sys, s1: Sys, s2: Sys, u: nat)
    requires u in s.enclaves && OnlyEnclave(s, s1, u) && OnlyEnclave(s1, s2, u)
    ensures OnlyEnclave(s, s2, u)
  {
    assert s1.enclaves[u := s2.enclaves[u]] == s.enclaves[u := s2.enclaves[u]];
  }

  /** An enclave in INIT with vCPUs and full cores. */
  ghost predicate CpusReady(s: Sys, u: nat) {
    && Idle(s, u) && s.enclaves[u].state == Init && s.enclaves[u].cpu.nrVcpus > 0
    && forall c :: Holds(s.enclaves[u].cpu.cores, c) ==> c in s.enclaves[u].cpu.vcpuIds
  }

  lemma Given(s: Sys, u: nat)
    requires CpusReady(s, u) && s.enclaves[u].mem == Memory([], 0, 0, 1, [], multiset{}, multiset{})
    ensures var s' := Next(s, GiveMemory(u, s.enclaves[u].node));
            && OnlyEnclave(s, s', u) && CpusReady(s', u) && s'.enclaves[u].cpu == s.enclaves[u].cpu
            && s'.enclaves[u].mem.memSize == 0x400_0000 && s'.enclaves[u].mem.nrMemRegions == 1
  {
    var e, give := s.enclaves[u], GiveMemory(u, s.enclaves[u].node);
    MemoryGiven(e.mem, e.node);
    SetMemExact(s, u, give.taskSize, give.addr, give.size, give.gup, give.accepts);
  }

  lemma Starts(s: Sys, u: nat)
    requires CpusReady(s, u) && s.enclaves[u].mem == Memory([], 0, 0, 1, [], multiset{}, multiset{})
    ensures StartedIn(s, Run(s, [GiveMemory(u, s.enclaves[u].node), Start(u, true)]), u)
  {
    var give := GiveMemory(u, s.enclaves[u].node);
    Run2(s, give, Start(u, true));
    Given(s, u);
    StartExact(Next(s, give), u, true);
    OnlyTwice(s, Next(s, give), Next(Next(s, give), Start(u, true)), u);
  }

  /** All threads of the core are donated. */
  lemma DonorIsFull(s: Sys, f: nat, c: nat)
    requires f < |s.avail| && Holds(Donor(s, f, s.avail[f]).cpu.cores, c)
    ensures c in s.avail[f]
  {
  }

  /** The steps of a creation that succeeds. */
  lemma Created(s: Sys, u: nat)
    requires FirstFree(s.avail) >= 0 && !s.creating && u != 0 && u !in s.enclaves
    ensures Run(s, [CreateCheck, CreateAlloc(u, 1, true)]) == Put(s, u, NewEnclave(s, 1))
  {
    Run2(s, CreateCheck, CreateAlloc(u, 1, true));
    assert Next(s, CreateCheck) == s.(creating := true);
    assert NewEnclave(s.(creating := true), 1) == NewEnclave(s, 1);
  }

  /** With a free core a new enclave can be created, given that core and memory, and started: it then has the threads of
      the core as its vCPUs, and the rest of the pool and all other enclaves are as before. */
  lemma CanStart(s: Sys, u: nat) returns (steps: seq<Step>)
    requires HasFree(s) && !s.creating && u != 0 && u !in s.enclaves
    ensures var f := FirstFree(s.avail);
            && s.avail[f] != {} && StartedIn(Donating(s, u, f, s.avail[f]), Run(s, steps), u)
  {
    var f := FirstFree(s.avail);
    var create := [CreateCheck, CreateAlloc(u, 1, true)];
    Created(s, u);
    FirstAdded(s, u);
    var rest := AddRest(s, u, f, {Min(s.avail[f])});
    var full := Donating(s, u, f, s.avail[f]);
    var start := [GiveMemory(u, s.node), Start(u, true)];
    forall c | Holds(full.enclaves[u].cpu.cores, c) ensures c in s.avail[f] { DonorIsFull(s, f, c); }
    Starts(full, u);
    RunAppend(s, create, AddOne(u));
    RunAppend(s, create + AddOne(u), rest);
    RunAppend(s, create + AddOne(u) + rest, start);
    steps := create + AddOne(u) + rest + start;
  }

  /** Releasing the enclave gives the core back. */
  lemma ReleasedAgain(s: Sys, s': Sys, u: nat, f: nat)
    requires f < |s.avail| && !s.creating && u !in s.enclaves && StartedIn(Donating(s, u, f, s.avail[f]), s', u)
    ensures var s'' := Next(s', Release(u, true)); s''.avail == s.avail && s''.enclaves == s.enclaves
  {
    var s'' := Next(s', Release(u, true));
    assert s'.enclaves - {u} == s.enclaves;
    forall i | 0 <= i < |s.avail| ensures s''.avail[i] == s.avail[i] { }
  }

  // ----- Every run -----

  predicate PoolOk(s: Sys) { s.avail != [] ==> s.threadsPerCore > 0 }

  lemma {:induction false} RunPoolOk(s: Sys, steps: seq<Step>)
    requires PoolOk(s)
    ensures PoolOk(Run(s, steps))
    decreases |steps|
  {
    if steps != [] {
      StepPoolOk(s, steps[0]);
      RunPoolOk(Next(s, steps[0]), steps[1..]);
    }
  }

  lemma StepPoolOk(s: Sys, step: Step)
    requires PoolOk(s)
    ensures PoolOk(Next(s, step))
  {
    if step.ReserveVcpu? && Idle(s, step.uid) {
      var e := s.enclaves[step.uid];
      ReserveShape(s.avail, e.cpu, e.threadsPerCore, step.vcpu);
    }
  }

  /** The enclave is running on the core of slot `f` of the pool, nothing else changed, and a release undoes it all. */
  ghost predicate StartedOn(s: Sys, s': Sys, u: nat, f: nat) {
    && f < |s.avail| && s.avail[f] != {} && s'.avail == s.avail[f := {}]
    && u in s'.enclaves && s'.enclaves - {u} == s.enclaves
    && s'.enclaves[u].state == Running && s'.enclaves[u].cpu.vcpuIds == s.avail[f]
    && Next(s', Release(u, true)).avail == s.avail && Next(s', Release(u, true)).enclaves == s.enclaves
  }

  lemma StartsFrom(s: Sys, u: nat) returns (steps: seq<Step>)
    requires HasFree(s) && !s.creating && u != 0 && u !in s.enclaves
    ensures StartedOn(s, Run(s, steps), u, FirstFree(s.avail))
  {
    var f := FirstFree(s.avail);
    steps := CanStart(s, u);
    ReleasedAgain(s, Run(s, steps), u, f);
    assert Run(s, steps).enclaves - {u} == s.enclaves;
  }

  /** A creation under way can be given up. */
  lemma GiveUp(s: Sys) returns (steps: seq<Step>)
    ensures Run(s, steps) == s.(creating := false)
  {
    steps := if s.creating then [CreateAlloc(0, 0, false)] else [];
  }

  lemma HoldsIsFree(s: Sys, c: nat)
    requires PoolOk(s) && Holds(s.avail, c)
    ensures HasFree(s)
  {
    var i :| 0 <= i < |s.avail| && c in s.avail[i];
  }

  /** After every run, raced or not, a thread in the pool is enough: some further steps start a new enclave that has
      exactly the threads of a core of the pool as its vCPUs. They leave the rest of the pool and all other enclaves
      alone, and a release of the enclave restores the pool. */
  lemma FreeCoreStarts(online: CpuSet, before: seq<Step>, u: nat) returns (steps: seq<Step>, f: nat)
    requires var s := Run(Boot(online), before); u != 0 && u !in s.enclaves && exists c :: Holds(s.avail, c)
    ensures StartedOn(Run(Boot(online), before), Run(Boot(online), before + steps), u, f)
  {
    var s := Run(Boot(online), before);
    RunPoolOk(Boot(online), before);
    var c :| Holds(s.avail, c);
    HoldsIsFree(s, c);
    f := FirstFree(s.avail);
    var giveUp := GiveUp(s);
    var rest := StartsFrom(s.(creating := false), u);
    steps := giveUp + rest;
    RunAppend(s, giveUp, rest);
    RunAppend(Boot(online), before, steps);
  }

  /** From boot: once a pool with a thread is set up, an enclave can be started on it. */
  lemma StartsFromBoot(online: CpuSet, layout: seq<CpuSet>, k: nat, node: int, u: nat) returns (steps: seq<Step>)
    requires SetupOk(layout, k, online) && u != 0 && exists c :: Holds(layout, c)
    ensures var s := Run(Boot(online), [ReconfCheck, SetUp(layout, k, node)] + steps);
            u in s.enclaves && s.enclaves[u].state == Running && s.enclaves[u].cpu.vcpuIds in layout
  {
    var before := [ReconfCheck, SetUp(layout, k, node)];
    Run2(Boot(online), ReconfCheck, SetUp(layout, k, node));
    var f;
    steps, f := FreeCoreStarts(online, before, u);
  }
}
