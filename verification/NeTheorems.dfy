/** What the driver guarantees over whole runs of the transition system. */
module NeTheorems {
  import opened NeTypes
  import opened CpuSelect
  import opened MemRegions
  import opened NeSystem
  import opened NeBase

  /** Slot `i` is whole in the pool, or whole in enclave `u` and empty everywhere else. */
  ghost predicate OnlyInPool(s: Sys, i: nat)
    requires i < |s.avail| && i < |s.layout|
  {
    s.avail[i] == s.layout[i] && forall u :: u in s.enclaves ==> EmptySlot(s, u, i)
  }

  ghost predicate OnlyIn(s: Sys, u: nat, i: nat)
    requires i < |s.avail| && i < |s.layout|
  {
    && s.avail[i] == {} && u in s.enclaves
    && i < |s.enclaves[u].cpu.cores| && s.enclaves[u].cpu.cores[i] == s.layout[i]
    && forall w :: w in s.enclaves && w != u ==> EmptySlot(s, w, i)
  }

  predicate EmptySlot(s: Sys, u: nat, i: nat) {
    u in s.enclaves && i < |s.enclaves[u].cpu.cores| && s.enclaves[u].cpu.cores[i] == {}
  }

  /** Every core of the pool lies whole in exactly one place. */
  lemma ExactlyOnePlace(online: CpuSet, steps: seq<Step>, i: nat)
    requires Harmless(Boot(online), steps) && i < |Run(Boot(online), steps).layout|
    ensures var s := Run(Boot(online), steps);
            && |s.avail| == |s.layout|
            && (OnlyInPool(s, i) || exists u :: OnlyIn(s, u, i))
  {
    BootInv(online);
    RunKeeps(Boot(online), steps);
    var s := Run(Boot(online), steps);
    var owner: seq<Place> :| Placed(s, owner);
    forall w | w in s.enclaves && owner[i] != Owner(w) ensures EmptySlot(s, w, i) {
      assert HasShare(s.enclaves[w].cpu.cores, s.layout, owner, w);
    }
    if owner[i].Owner? {
      var u := owner[i].uid;
      assert HasShare(s.enclaves[u].cpu.cores, s.layout, owner, u);
      assert OnlyIn(s, u, i);
    }
  }

  ghost predicate HeldSomewhere(s: Sys, c: nat) {
    Holds(s.avail, c) || exists u :: u in s.enclaves && Holds(s.enclaves[u].cpu.cores, c)
  }

  lemma LayoutIsHeld(s: Sys, owner: seq<Place>, c: nat)
    requires Placed(s, owner) && Holds(s.layout, c)
    ensures HeldSomewhere(s, c)
  {
    var i :| 0 <= i < |s.layout| && c in s.layout[i];
    if owner[i].Owner? {
      var u := owner[i].uid;
      assert HasShare(s.enclaves[u].cpu.cores, s.layout, owner, u);
      assert c in s.enclaves[u].cpu.cores[i];
    } else {
      assert c in s.avail[i];
    }
  }

  lemma HeldIsLayout(s: Sys, owner: seq<Place>, c: nat)
    requires Placed(s, owner) && HeldSomewhere(s, c)
    ensures Holds(s.layout, c)
  {
    if Holds(s.avail, c) {
      var i :| 0 <= i < |s.avail| && c in s.avail[i];
      assert c in s.layout[i];
    } else {
      var u :| u in s.enclaves && Holds(s.enclaves[u].cpu.cores, c);
      assert HasShare(s.enclaves[u].cpu.cores, s.layout, owner, u);
      var i :| 0 <= i < |s.layout| && c in s.enclaves[u].cpu.cores[i];
      assert c in s.layout[i];
    }
  }

  /** The places together hold exactly the threads of the pool as it was set up. */
  lemma NothingLost(online: CpuSet, steps: seq<Step>, c: nat)
    requires Harmless(Boot(online), steps)
    ensures var s := Run(Boot(online), steps); Holds(s.layout, c) <==> HeldSomewhere(s, c)
  {
    BootInv(online);
    RunKeeps(Boot(online), steps);
    var s := Run(Boot(online), steps);
    var owner: seq<Place> :| Placed(s, owner);
    if Holds(s.layout, c) { LayoutIsHeld(s, owner, c); }
    if HeldSomewhere(s, c) { HeldIsLayout(s, owner, c); }
  }

  /** In every run no thread is in two places and none that is in use is online. */
  lemma NoSharing(online: CpuSet, steps: seq<Step>)
    ensures Exclusive(Run(Boot(online), steps)) && Offline(Run(Boot(online), steps))
  {
    BootInv(online);
    RunKeepsBase(Boot(online), steps);
  }

  /** In every run an enclave's vCPUs are threads of its own cores. */
  lemma VcpusAreHeld(online: CpuSet, steps: seq<Step>, u: nat)
    requires u in Run(Boot(online), steps).enclaves
    ensures var cpu := Run(Boot(online), steps).enclaves[u].cpu;
            forall c :: c in cpu.vcpuIds ==> Holds(cpu.cores, c)
  {
    BootInv(online);
    RunKeepsBase(Boot(online), steps);
    assert OwnCpus(Run(Boot(online), steps).enclaves[u]);
  }

  /** In a harmless run they are also counted right, and the next NE_ADD_VCPU never meets the invalid-core error. */
  lemma VcpusAreCounted(online: CpuSet, steps: seq<Step>, u: nat, v: nat)
    requires Harmless(Boot(online), steps) && u in Run(Boot(online), steps).enclaves
    ensures var s := Run(Boot(online), steps);
            var cpu := s.enclaves[u].cpu;
            && cpu.nrVcpus == |cpu.vcpuIds|
            && Reserve(s.avail, cpu, s.enclaves[u].threadsPerCore, v).outcome != Refused(InvalidCore)
  {
    BootInv(online);
    RunKeeps(Boot(online), steps);
    var s := Run(Boot(online), steps);
    var owner: seq<Place> :| Placed(s, owner);
    assert EnclaveOk(s, s.enclaves[u]) && HasShare(s.enclaves[u].cpu.cores, s.layout, owner, u);
    ReserveShape(s.avail, s.enclaves[u].cpu, s.enclaves[u].threadsPerCore, v);
  }

  /** In every run a started enclave owns cores, all of their threads are its vCPUs, neither the pool nor another
      enclave holds any of them, none is online, and it has 64 MiB in at least one region. */
  lemma StartedOwnsItsCpus(online: CpuSet, steps: seq<Step>, u: nat)
    requires u in Run(Boot(online), steps).enclaves && Run(Boot(online), steps).enclaves[u].state != Init
    ensures var s := Run(Boot(online), steps);
            var e := s.enclaves[u];
            && (exists c :: Holds(e.cpu.cores, c))
            && (forall c :: c in e.cpu.vcpuIds <==> Holds(e.cpu.cores, c))
            && (forall c :: Holds(e.cpu.cores, c) ==> !Holds(s.avail, c) && c !in s.online)
            && (forall w, c {:trigger Holds(s.enclaves[w].cpu.cores, c)} ::
                  w in s.enclaves && w != u && Holds(s.enclaves[w].cpu.cores, c) ==> !Holds(e.cpu.cores, c))
            && e.mem.memSize >= 0x400_0000 && e.mem.nrMemRegions >= 1
            && SumLen(e.mem.accepted) == e.mem.memSize
  {
    BootInv(online);
    RunKeepsBase(Boot(online), steps);
    RunKeepsMem(Boot(online), steps);
    var s := Run(Boot(online), steps);
    var e := s.enclaves[u];
    assert OwnCpus(e) && MemOk(e.mem);
    StartedHolds(e);
  }

  /** In a harmless run its cores are whole cores of the pool as it was set up. */
  lemma StartedOwnsWholeCores(online: CpuSet, steps: seq<Step>, u: nat)
    requires Harmless(Boot(online), steps)
    requires u in Run(Boot(online), steps).enclaves && Run(Boot(online), steps).enclaves[u].state != Init
    ensures WholeIn(Run(Boot(online), steps), Run(Boot(online), steps).enclaves[u].cpu.cores)
  {
    BootInv(online);
    RunKeeps(Boot(online), steps);
    RunKeepsBase(Boot(online), steps);
    StartedHolds(Run(Boot(online), steps).enclaves[u]);
    WholeInPool(Run(Boot(online), steps), u);
  }

  /** The masks have the slots of the pool, each empty or with the whole core of that slot. */
  ghost predicate WholeIn(s: Sys, cores: seq<CpuSet>) {
    && |cores| == |s.layout|
    && forall i :: 0 <= i < |cores| ==>
         cores[i] == {} || (cores[i] == s.layout[i] && |cores[i]| == s.threadsPerCore)
  }

  lemma WholeInPool(s: Sys, u: nat)
    requires Inv(s) && u in s.enclaves && exists c :: Holds(s.enclaves[u].cpu.cores, c)
    ensures WholeIn(s, s.enclaves[u].cpu.cores)
  {
    var owner: seq<Place> :| Placed(s, owner);
    ShareIsWhole(s, s.enclaves[u].cpu.cores, owner, u);
  }

  lemma ShareIsWhole(s: Sys, cores: seq<CpuSet>, owner: seq<Place>, u: nat)
    requires LayoutOk(s.layout, s.threadsPerCore) && |owner| == |s.layout| && HasShare(cores, s.layout, owner, u)
    requires exists c :: Holds(cores, c)
    ensures WholeIn(s, cores)
  {
    var c :| Holds(cores, c);
    var i :| 0 <= i < |cores| && c in cores[i];
    assert s.layout != [];
  }

  lemma StartedHolds(e: Enclave)
    requires OwnCpus(e) && e.state != Init
    ensures exists c :: Holds(e.cpu.cores, c)
    ensures forall c :: c in e.cpu.vcpuIds <==> Holds(e.cpu.cores, c)
  {
    assert e.cpu.vcpuIds != {};
    var c :| c in e.cpu.vcpuIds;
    assert Holds(e.cpu.cores, c);
    forall c | Holds(e.cpu.cores, c) ensures c in e.cpu.vcpuIds {
      var i :| 0 <= i < |e.cpu.cores| && c in e.cpu.cores[i];
    }
  }

  /** In a harmless run, while there is a pool, every page listed for an enclave is a huge page of whole 2 MiB
      pieces on its node. */
  lemma PagesOnPoolNode(online: CpuSet, steps: seq<Step>, u: nat, i: nat, j: nat)
    requires Harmless(Boot(online), steps) && u in Run(Boot(online), steps).enclaves
    requires Run(Boot(online), steps).layout != []
    requires i < |Run(Boot(online), steps).enclaves[u].mem.regions|
    requires j < |Run(Boot(online), steps).enclaves[u].mem.regions[i].pages|
    ensures var s := Run(Boot(online), steps);
            var p := s.enclaves[u].mem.regions[i].pages[j];
            p.huge && p.size % 0x20_0000 == 0 && p.paddr % 0x20_0000 == 0 && p.node == s.node
  {
    BootInv(online);
    RunKeeps(Boot(online), steps);
    RunKeepsMem(Boot(online), steps);
    var s := Run(Boot(online), steps);
    var e := s.enclaves[u];
    assert EnclaveOk(s, e) && PagesOk(e.mem, e.node);
    GoodPageExact(e.mem.regions[i].pages[j], e.node);
  }

  /** In every run, raced or not, an enclave that was released has put each recorded page once. */
  lemma ReleasedPagesPut(online: CpuSet, steps: seq<Step>, i: nat)
    requires i < |Run(Boot(online), steps).released|
    ensures AllPut(Run(Boot(online), steps).released[i])
  {
    BootInv(online);
    RunKeepsMem(Boot(online), steps);
  }

  /** In a harmless run a release writes only to slots that the pool has. */
  lemma ReleaseInBounds(online: CpuSet, steps: seq<Step>, u: nat)
    requires Harmless(Boot(online), steps) && u in Run(Boot(online), steps).enclaves
    ensures var s := Run(Boot(online), steps);
            var cores := s.enclaves[u].cpu.cores;
            forall i :: |s.avail| <= i < |cores| ==> cores[i] == {}
  {
    BootInv(online);
    RunKeeps(Boot(online), steps);
    var s := Run(Boot(online), steps);
    var owner: seq<Place> :| Placed(s, owner);
    assert HasShare(s.enclaves[u].cpu.cores, s.layout, owner, u);
  }

  // ----- Resources of a started enclave -----

  /** Enclave `u` exists throughout the run. */
  ghost predicate Present(s: Sys, steps: seq<Step>, u: nat)
    decreases |steps|
  {
    u in s.enclaves && (steps == [] || Present(Next(s, steps[0]), steps[1..], u))
  }

  /** Every SLOT_INFO reply about enclave `u` reports RUNNING or STOPPED. */
  predicate GoodReplies(steps: seq<Step>, u: nat) {
    forall i :: 0 <= i < |steps| && steps[i].Event? && steps[i].uid == u ==> steps[i].reply != Init
  }

  /** The step hands enclave `u` a reply of INIT that takes effect. */
  predicate Thaws(s: Sys, step: Step, u: nat) {
    && step == Event(u, Init) && !s.creating
    && Idle(s, u) && s.enclaves[u].state == Running
  }

  /** Somewhere in the run enclave `u` gets a reply of INIT that takes effect. */
  ghost predicate EverThaws(s: Sys, steps: seq<Step>, u: nat)
    decreases |steps|
  {
    steps != [] && (Thaws(s, steps[0], u) || EverThaws(Next(s, steps[0]), steps[1..], u))
  }

  /** Enclave `u` is past INIT in every state of the run. */
  ghost predicate AlwaysStarted(s: Sys, steps: seq<Step>, u: nat)
    decreases |steps|
  {
    && u in s.enclaves && s.enclaves[u].state != Init
    && (steps == [] || AlwaysStarted(Next(s, steps[0]), steps[1..], u))
  }

  /** What a started enclave keeps. */
  predicate SameResources(e: Enclave, e': Enclave) {
    e'.cpu == e.cpu && e'.mem == e.mem && e'.pending.None? && (e.state == Stopped ==> e'.state == Stopped)
  }

  lemma LocalStarted(e: Enclave, step: Step)
    requires IsLocal(step) && e.state != Init && e.pending.None?
    ensures SameResources(e, Local(e, step))
    ensures Local(e, step).state == Init <==> step.Event? && step.reply == Init && e.state == Running
  {
  }

  /** Only a reply of INIT takes a started enclave back to INIT; any other step leaves its resources alone. */
  lemma StartedStep(s: Sys, step: Step, u: nat)
    requires u in s.enclaves && s.enclaves[u].state != Init && s.enclaves[u].pending.None?
    requires u in Next(s, step).enclaves
    ensures SameResources(s.enclaves[u], Next(s, step).enclaves[u])
    ensures Next(s, step).enclaves[u].state == Init <==> Thaws(s, step, u)
  {
    if IsLocal(step) { LocalStarted(s.enclaves[u], step); }
  }

  /** A started enclave stays started up to its release exactly when no reply of INIT about it takes effect, and then
      it keeps exactly its CPUs, its memory and its counters. */
  lemma {:induction false} FrozenExact(s: Sys, steps: seq<Step>, u: nat)
    requires Present(s, steps, u) && s.enclaves[u].state != Init && s.enclaves[u].pending.None?
    ensures AlwaysStarted(s, steps, u) <==> !EverThaws(s, steps, u)
    ensures u in Run(s, steps).enclaves
    ensures AlwaysStarted(s, steps, u) ==>
      Run(s, steps).enclaves[u].state != Init && SameResources(s.enclaves[u], Run(s, steps).enclaves[u])
    decreases |steps|
  {
    if steps != [] {
      var s' := Next(s, steps[0]);
      assert u in s'.enclaves;
      StartedStep(s, steps[0], u);
      if s'.enclaves[u].state != Init {
        FrozenExact(s', steps[1..], u);
      } else {
        PresentAtEnd(s', steps[1..], u);
      }
    }
  }

  lemma {:induction false} PresentAtEnd(s: Sys, steps: seq<Step>, u: nat)
    requires Present(s, steps, u)
    ensures u in Run(s, steps).enclaves
    decreases |steps|
  {
    if steps != [] { PresentAtEnd(Next(s, steps[0]), steps[1..], u); }
  }

  lemma {:induction false} GoodRepliesNeverThaw(s: Sys, steps: seq<Step>, u: nat)
    requires GoodReplies(steps, u)
    ensures !EverThaws(s, steps, u)
    decreases |steps|
  {
    if steps != [] {
      assert GoodReplies(steps[1..], u);
      GoodRepliesNeverThaw(Next(s, steps[0]), steps[1..], u);
    }
  }

  /** A started enclave keeps exactly its CPUs, its memory and its counters until it is released, if the replies
      about it are good; those about other enclaves do not matter. */
  lemma StartedKeepsResources(s: Sys, steps: seq<Step>, u: nat)
    requires Present(s, steps, u) && GoodReplies(steps, u)
    requires s.enclaves[u].state != Init && s.enclaves[u].pending.None?
    ensures u in Run(s, steps).enclaves && Run(s, steps).enclaves[u].state != Init
    ensures SameResources(s.enclaves[u], Run(s, steps).enclaves[u])
  {
    GoodRepliesNeverThaw(s, steps, u);
    FrozenExact(s, steps, u);
  }

  /** If enclave `u` exists, its poll flag is up exactly if it stopped by itself. */
  predicate FlagOk(s: Sys, u: nat) {
    u in s.enclaves ==> (s.enclaves[u].hasEvent <==> s.enclaves[u].state == Stopped)
  }

  ghost predicate AlwaysFlagOk(s: Sys, steps: seq<Step>, u: nat)
    decreases |steps|
  {
    FlagOk(s, u) && (steps == [] || AlwaysFlagOk(Next(s, steps[0]), steps[1..], u))
  }

  lemma StepFlag(s: Sys, step: Step, u: nat)
    requires FlagOk(s, u)
    ensures FlagOk(Next(s, step), u) <==> !Thaws(s, step, u)
  {
    if IsLocal(step) && u in s.enclaves { LocalFlag(s.enclaves[u], step); }
  }

  lemma LocalFlag(e: Enclave, step: Step)
    requires IsLocal(step) && (e.hasEvent <==> e.state == Stopped)
    ensures var e' := Local(e, step);
            (e'.hasEvent <==> e'.state == Stopped) <==>
            !(step.Event? && step.reply == Init && e.pending.None? && e.state == Running)
  {
  }

  /** The poll flag tells the truth in every state of a run exactly when no reply of INIT about the enclave takes
      effect. */
  lemma {:induction false} EventFlags(s: Sys, steps: seq<Step>, u: nat)
    requires FlagOk(s, u)
    ensures AlwaysFlagOk(s, steps, u) <==> !EverThaws(s, steps, u)
    decreases |steps|
  {
    if steps != [] {
      StepFlag(s, steps[0], u);
      if FlagOk(Next(s, steps[0]), u) {
        EventFlags(Next(s, steps[0]), steps[1..], u);
      } else {
        assert !AlwaysFlagOk(Next(s, steps[0]), steps[1..], u);
      }
    }
  }

  /** With every held thread donated, an automatic choice takes the first free core. */
  lemma FullTakesCore(avail: seq<CpuSet>, cpu: Cpus, k: nat)
    requires FullCores(cpu) && k > 0 && 0 <= FirstFree(avail) < |cpu.cores|
    ensures var f := FirstFree(avail);
            && avail[f] != {}
            && Reserve(avail, cpu, k, 0) ==
               Selection(avail[f := {}], cpu.cores[f := cpu.cores[f] + avail[f]], Chosen(Min(cpu.cores[f] + avail[f])))
  {
    forall i | 0 <= i < |cpu.cores| ensures cpu.cores[i] - cpu.vcpuIds == {} {
      assert forall c :: c in cpu.cores[i] ==> c in cpu.vcpuIds;
    }
    assert |cpu.cores| * k > 0;
  }

  lemma Run3(s: Sys, a: Step, b: Step, c: Step)
    ensures Run(s, [a, b, c]) == Next(Next(Next(s, a), b), c)
  {
    assert [a, b, c][1..] == [b, c] && [b, c][1..] == [c] && [c][1..] == [];
    assert Run(Next(Next(s, a), b), [c]) == Next(Next(Next(s, a), b), c);
  }

  /** What the three steps do when nothing holds them up. */
  lemma EventStep(s: Sys, u: nat)
    requires Idle(s, u) && s.enclaves[u].state == Running && !s.creating
    ensures Next(s, Event(u, Init)) == Put(s, u, s.enclaves[u].(state := Init, hasEvent := true))
  {
  }

  lemma ReserveStep(s: Sys, u: nat, v: nat)
    requires Idle(s, u) && s.enclaves[u].state == Init
    ensures Next(s, ReserveVcpu(u, v)) == NextReserve(s, u, v)
  {
  }

  lemma RecordStep(s: Sys, u: nat)
    requires u in s.enclaves && s.enclaves[u].pending.Some?
    ensures Next(s, RecordVcpu(u, true)) == Put(s, u, Recorded(s.enclaves[u], true))
  {
  }

  lemma AddAfterInitReply(s: Sys, u: nat, sel: Selection)
    requires u in s.enclaves && s.enclaves[u].state == Running && s.enclaves[u].pending.None? && !s.creating
    requires sel == Reserve(s.avail, s.enclaves[u].cpu, s.enclaves[u].threadsPerCore, 0) && sel.outcome.Chosen?
    ensures var s' := Run(s, [Event(u, Init), ReserveVcpu(u, 0), RecordVcpu(u, true)]);
            u in s'.enclaves && s'.enclaves[u].cpu.vcpuIds == s.enclaves[u].cpu.vcpuIds + {sel.outcome.vcpu}
  {
    Run3(s, Event(u, Init), ReserveVcpu(u, 0), RecordVcpu(u, true));
    EventStep(s, u);
    var s1 := Put(s, u, s.enclaves[u].(state := Init, hasEvent := true));
    ReserveStep(s1, u, 0);
    var s2 := ApplySelection(s1, u, sel);
    assert NextReserve(s1, u, 0) == s2;
    RecordStep(s2, u);
  }

  /** A free core lies whole in the pool, and its slot is empty in every enclave. */
  lemma FreeSlot(s: Sys, owner: seq<Place>, u: nat, f: nat)
    requires Placed(s, owner) && u in s.enclaves && f < |s.avail| && s.avail[f] != {}
    ensures s.layout != [] && f < |s.enclaves[u].cpu.cores| == |s.layout|
    ensures s.enclaves[u].cpu.cores[f] == {} && s.avail[f] == s.layout[f]
  {
    assert HasShare(s.enclaves[u].cpu.cores, s.layout, owner, u);
  }

  lemma TakesNew(avail: seq<CpuSet>, cpu: Cpus, k: nat)
    requires FullCores(cpu) && k > 0 && 0 <= FirstFree(avail) < |cpu.cores| && cpu.cores[FirstFree(avail)] == {}
    requires avail[FirstFree(avail)] !! cpu.vcpuIds
    ensures var out := Reserve(avail, cpu, k, 0).outcome; out.Chosen? && out.vcpu !in cpu.vcpuIds
  {
    FullTakesCore(avail, cpu, k);
    assert Min(cpu.cores[FirstFree(avail)] + avail[FirstFree(avail)]) in avail[FirstFree(avail)];
  }

  /** A free core has no donated thread. */
  lemma FreeIsUndonated(s: Sys, owner: seq<Place>, u: nat, f: nat)
    requires Placed(s, owner) && Separate(s.layout) && u in s.enclaves && CpuOk(s.enclaves[u])
    requires f < |s.avail| && s.avail[f] != {}
    ensures s.avail[f] !! s.enclaves[u].cpu.vcpuIds
  {
    FreeSlot(s, owner, u, f);
    forall v | v in s.avail[f] ensures v !in s.enclaves[u].cpu.vcpuIds { MovedIsNew(s, u, owner, f, v); }
  }

  /** With every thread donated, a free core of the pool brings a new vCPU. */
  lemma FreeCoreIsNew(s: Sys, owner: seq<Place>, u: nat)
    requires Placed(s, owner) && Separate(s.layout) && u in s.enclaves && FirstFree(s.avail) >= 0
    requires CpuOk(s.enclaves[u]) && FullCores(s.enclaves[u].cpu) && s.enclaves[u].threadsPerCore > 0
    ensures var out := Reserve(s.avail, s.enclaves[u].cpu, s.enclaves[u].threadsPerCore, 0).outcome;
            out.Chosen? && out.vcpu !in s.enclaves[u].cpu.vcpuIds
  {
    FreeSlot(s, owner, u, FirstFree(s.avail));
    FreeIsUndonated(s, owner, u, FirstFree(s.avail));
    TakesNew(s.avail, s.enclaves[u].cpu, s.enclaves[u].threadsPerCore);
  }

  lemma StartedFacts(s: Sys, u: nat) returns (owner: seq<Place>)
    requires Inv(s) && u in s.enclaves && s.enclaves[u].state != Init && s.layout != []
    ensures Placed(s, owner) && Separate(s.layout) && s.enclaves[u].pending.None?
    ensures CpuOk(s.enclaves[u]) && FullCores(s.enclaves[u].cpu) && s.enclaves[u].threadsPerCore > 0
  {
    owner :| Placed(s, owner);
    assert EnclaveOk(s, s.enclaves[u]);
  }

  /** With an INIT reply (a failed SLOT_INFO leaves a zeroed reply) a running enclave accepts
      resources again: here it takes another core. */
  lemma InitReplyUnfreezes(s: Sys, u: nat)
    requires Inv(s) && u in s.enclaves && s.enclaves[u].state == Running && !s.creating && FirstFree(s.avail) >= 0
    ensures var s' := Run(s, [Event(u, Init), ReserveVcpu(u, 0), RecordVcpu(u, true)]);
            u in s'.enclaves && s.enclaves[u].cpu.vcpuIds < s'.enclaves[u].cpu.vcpuIds
  {
    assert s.layout != [];
    var owner := StartedFacts(s, u);
    FreeCoreIsNew(s, owner, u);
    AddAfterInitReply(s, u, Reserve(s.avail, s.enclaves[u].cpu, s.enclaves[u].threadsPerCore, 0));
  }

  // ----- Reconfiguration -----

  /** After the check, an enclave is created and takes a core. */
  function RaceSteps(u: nat, max: nat): seq<Step> {
    [ReconfCheck, CreateCheck, CreateAlloc(u, max, true), ReserveVcpu(u, 0)]
  }

  /** The state the race leads to: the new enclave holds the first free core. */
  lemma AfterRace(s: Sys, u: nat, max: nat)
    requires s.enclaves == map[] && !s.creating && FirstFree(s.avail) >= 0 && u != 0 && s.threadsPerCore > 0
    ensures var f, s' := FirstFree(s.avail), Run(s, RaceSteps(u, max));
            && s'.reconf && s'.enclaves.Keys == {u} && |s'.enclaves[u].cpu.cores| == |s.avail|
            && s.avail[f] != {} && s'.enclaves[u].cpu.cores[f] == s.avail[f]
            && forall i :: 0 <= i < |s.avail| && i != f ==> s'.enclaves[u].cpu.cores[i] == {}
  {
    var p := RaceSteps(u, max);
    var s1 := s.(reconf := true);
    var e := NewEnclave(s, max);
    var s3 := Put(s1, u, e);
    assert Next(s, p[0]) == s1 && Next(s1, p[1]) == s1.(creating := true);
    assert Next(s1.(creating := true), p[2]) == s3;
    Run3(s1, p[1], p[2], p[3]);
    assert p[1..] == [p[1], p[2], p[3]];
    FullTakesCore(s.avail, e.cpu, s.threadsPerCore);
    ReserveStep(s3, u, 0);
    assert NextReserve(s3, u, 0) == ApplySelection(s3, u, Reserve(s.avail, e.cpu, s.threadsPerCore, 0));
  }

  /** Without the no-race condition the invariant fails: from any good state with a free core and no enclave, a
      creation before the pool is torn down breaks it. */
  lemma RaceBreaksInvariant(s: Sys, u: nat, max: nat)
    requires Inv(s) && s.enclaves == map[] && !s.creating && FirstFree(s.avail) >= 0 && u != 0
    ensures !Inv(Next(Run(s, RaceSteps(u, max)), TearDown))
  {
    ReleaseOutOfBounds(s, u, max);
    var s' := Next(Run(s, RaceSteps(u, max)), TearDown);
    var cores := s'.enclaves[u].cpu.cores;
    var i :| |s'.avail| <= i < |cores| && cores[i] != {};
    forall owner: seq<Place> | |owner| == 0 ensures !HasShare(cores, [], owner, u) {
      assert cores[i] != {};
    }
  }

  /** Then the enclave holds a core in a slot that the pool no longer has, so that its release indexes beyond the
      pool's array. */
  lemma ReleaseOutOfBounds(s: Sys, u: nat, max: nat)
    requires Inv(s) && s.enclaves == map[] && !s.creating && FirstFree(s.avail) >= 0 && u != 0
    ensures var s' := Next(Run(s, RaceSteps(u, max)), TearDown);
            && u in s'.enclaves && s'.layout == []
            && exists i :: |s'.avail| <= i < |s'.enclaves[u].cpu.cores| && s'.enclaves[u].cpu.cores[i] != {}
  {
    AfterRace(s, u, max);
    var f, s' := FirstFree(s.avail), Next(Run(s, RaceSteps(u, max)), TearDown);
    assert s'.avail == [] && s'.enclaves[u].cpu.cores[f] != {};
  }

  // ----- Counting a vCPU twice -----

  /** With every held thread donated, the automatic choice repeats a vCPU exactly when it merges a core into a slot
      in which the enclave holds a smaller thread. */
  lemma AutoRepeatsIff(avail: seq<CpuSet>, cpu: Cpus, k: nat)
    requires FullCores(cpu) && k > 0 && 0 <= FirstFree(avail) < |cpu.cores|
    requires forall c :: c in cpu.vcpuIds ==> !Holds(avail, c)
    ensures var f := FirstFree(avail);
            var sel := Reserve(avail, cpu, k, 0);
            && sel.outcome.Chosen? && avail[f] != {}
            && (sel.outcome.vcpu in cpu.vcpuIds <==> cpu.cores[f] != {} && Min(cpu.cores[f]) < Min(avail[f]))
  {
    FullTakesCore(avail, cpu, k);
    var f := FirstFree(avail);
    var v := Min(cpu.cores[f] + avail[f]);
    if v in avail[f] { assert Holds(avail, v); }
  }

  /** A run that does so. CPU 1 is the pool; an enclave created while it is being changed takes it; CPU 2 becomes
      the pool; and the next automatic choice is CPU 1 again. */
  function PoolSteps(): seq<Step> { [ReconfCheck, SetUp([{1}], 1, 0)] }
  function CreateSteps(): seq<Step> { [CreateCheck, CreateAlloc(1, 1, true)] }
  function AddSteps(): seq<Step> { [ReserveVcpu(1, 0), RecordVcpu(1, true)] }
  function SwapSteps(): seq<Step> { [TearDown, SetUp([{2}], 1, 0)] }

  lemma {:induction false} RunAppend(s: Sys, a: seq<Step>, b: seq<Step>)
    ensures Run(s, a + b) == Run(Run(s, a), b)
    decreases |a|
  {
    if a == [] {
      assert a + b == b;
    } else {
      RunAppend(Next(s, a[0]), a[1..], b);
      assert (a + b)[1..] == a[1..] + b;
    }
  }

  lemma OneCpuSetUp(c: nat, online: CpuSet)
    requires c in online
    ensures SetupOk([{c}], 1, online)
  {
  }

  /** The only enclave holds the threads `core` in its one slot and has donated `used`. */
  ghost predicate OneSlot(s: Sys, core: CpuSet, used: CpuSet, nr: nat, pending: Option<nat>) {
    && s.reconf && !s.creating && s.enclaves.Keys == {1}
    && var e := s.enclaves[1];
       e.cpu == Cpus([core], used, nr) && e.threadsPerCore == 1 && e.state == Init && e.pending == pending
  }

  lemma Run2(s: Sys, a: Step, b: Step)
    ensures Run(s, [a, b]) == Next(Next(s, a), b)
  {
    assert [a, b][1..] == [b] && [b][1..] == [];
    assert Run(Next(s, a), [b]) == Next(Next(s, a), b);
  }

  /** An automatic addition to that enclave, from a pool of one CPU. */
  lemma AfterAdd(s: Sys, core: CpuSet, used: CpuSet, nr: nat, c: nat)
    requires OneSlot(s, core, used, nr, None) && core <= used && s.avail == [{c}]
    ensures var s' := Run(s, AddSteps());
            OneSlot(s', core + {c}, used + {Min(core + {c})}, nr + 1, None) && s'.online == s.online
  {
    FullTakesCore(s.avail, s.enclaves[1].cpu, 1);
    Run2(s, ReserveVcpu(1, 0), RecordVcpu(1, true));
    assert OneSlot(Next(s, ReserveVcpu(1, 0)), core + {c}, used, nr, Some(Min(core + {c})));
  }

  lemma AfterPool()
    ensures var s := Run(Boot({0, 1, 2}), PoolSteps());
            && s.avail == [{1}] && s.threadsPerCore == 1 && 2 in s.online
            && s.reconf && !s.creating && s.enclaves == map[]
  {
    OneCpuSetUp(1, {0, 1, 2});
    Run2(Boot({0, 1, 2}), ReconfCheck, SetUp([{1}], 1, 0));
  }

  lemma AfterCreate(s: Sys)
    requires s.avail == [{1}] && s.threadsPerCore == 1 && s.reconf && !s.creating && s.enclaves == map[]
    ensures var s' := Run(s, CreateSteps());
            OneSlot(s', {}, {}, 0, None) && s'.avail == [{1}] && s'.online == s.online
  {
    Run2(s, CreateCheck, CreateAlloc(1, 1, true));
  }

  lemma AfterSwap(s: Sys)
    requires OneSlot(s, {1}, {1}, 1, None) && 2 in s.online
    ensures var s' := Run(s, SwapSteps()); OneSlot(s', {1}, {1}, 1, None) && s'.avail == [{2}]
  {
    Run2(s, TearDown, SetUp([{2}], 1, 0));
    OneCpuSetUp(2, Next(s, TearDown).online);
  }

  /** Then the enclave has one vCPU and counts two. */
  lemma CountedTwice()
    ensures var s := Run(Boot({0, 1, 2}), PoolSteps() + CreateSteps() + AddSteps() + SwapSteps() + AddSteps());
            OneSlot(s, {1, 2}, {1}, 2, None)
  {
    var s0, pool, create, add, swap := Boot({0, 1, 2}), PoolSteps(), CreateSteps(), AddSteps(), SwapSteps();
    RunAppend(s0, pool + create + add + swap, add);
    RunAppend(s0, pool + create + add, swap);
    RunAppend(s0, pool + create, add);
    RunAppend(s0, pool, create);
    AfterPool();
    AfterCreate(Run(s0, pool));
    AfterBoth(Run(Run(s0, pool), create));
  }

  lemma AfterBoth(s: Sys)
    requires OneSlot(s, {}, {}, 0, None) && s.avail == [{1}] && 2 in s.online
    ensures OneSlot(Run(Run(Run(s, AddSteps()), SwapSteps()), AddSteps()), {1, 2}, {1}, 2, None)
  {
    AfterAdd(s, {}, {}, 0, 1);
    assert {} + {1} == {1} && Min({1}) == 1;
    AfterSwap(Run(s, AddSteps()));
    AfterAdd(Run(Run(s, AddSteps()), SwapSteps()), {1}, {1}, 1, 2);
    assert {1} + {2} == {1, 2} && Min({1, 2}) == 1 && {1} + {1} == {1};
  }
}
