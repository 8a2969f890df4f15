/** What every run of the driver keeps, also one in which an enclave is created while the pool is being changed: no
    thread has two places, and no CPU of the pool or of an enclave is online. */
module NeBase {
  import opened NeTypes
  import opened CpuSelect
  import opened NeSystem

  // ----- Masks -----

  /** Emptying slot `i`. */
  lemma HoldsWithout(masks: seq<CpuSet>, i: nat, c: nat)
    requires i < |masks| && Separate(masks)
    ensures Holds(masks[i := {}], c) <==> Holds(masks, c) && c !in masks[i]
  {
    var masks' := masks[i := {}];
    if Holds(masks', c) {
      var j :| 0 <= j < |masks'| && c in masks'[j];
      assert c in masks[j] && j != i;
    }
    if Holds(masks, c) && c !in masks[i] {
      var j :| 0 <= j < |masks| && c in masks[j];
      assert c in masks'[j];
    }
  }

  /** Adding a core to slot `i`. */
  lemma HoldsWith(masks: seq<CpuSet>, i: nat, core: CpuSet, c: nat)
    requires i < |masks|
    ensures Holds(masks[i := masks[i] + core], c) <==> Holds(masks, c) || c in core
  {
    var masks' := masks[i := masks[i] + core];
    if Holds(masks', c) && c !in core {
      var j :| 0 <= j < |masks'| && c in masks'[j];
      assert c in masks[j];
    }
    if Holds(masks, c) {
      var j :| 0 <= j < |masks| && c in masks[j];
      assert c in masks'[j];
    }
    if c in core { assert c in masks'[i]; }
  }

  lemma SeparateWith(masks: seq<CpuSet>, i: nat, core: CpuSet)
    requires i < |masks| && Separate(masks) && forall c :: c in core ==> !Holds(masks, c)
    ensures Separate(masks[i := masks[i] + core])
  {
    var masks' := masks[i := masks[i] + core];
    forall j, c | 0 <= j < |masks'| && c in masks'[j]
      ensures (c in core && j == i) || (c !in core && c in masks[j])
    {
      if c in core && j != i { assert Holds(masks, c); }
      if c in core && j == i && c in masks[j] { assert Holds(masks, c); }
    }
  }

  lemma ReturnHolds(avail: seq<CpuSet>, cores: seq<CpuSet>, c: nat)
    requires Holds(ReturnCores(avail, cores), c)
    ensures Holds(avail, c) || Holds(cores, c)
  {
    var after := ReturnCores(avail, cores);
    var i :| 0 <= i < |after| && c in after[i];
    assert c in avail[i] || (i < |cores| && c in cores[i]);
  }

  lemma ReturnSeparate(avail: seq<CpuSet>, cores: seq<CpuSet>)
    requires Separate(avail) && Separate(cores) && forall c :: Holds(cores, c) ==> !Holds(avail, c)
    ensures Separate(ReturnCores(avail, cores))
  {
    var after := ReturnCores(avail, cores);
    forall i, c | 0 <= i < |after| && c in after[i]
      ensures (c in avail[i] && !Holds(cores, c)) || (i < |cores| && c in cores[i] && !Holds(avail, c))
    {
      if c in avail[i] { assert Holds(avail, c); } else { assert c in cores[i] && Holds(cores, c); }
    }
    forall i, j, c | 0 <= i < |after| && 0 <= j < |after| && c in after[i] && c in after[j] ensures i == j {
      if c in avail[i] { assert Holds(avail, c); } else { assert Holds(cores, c); }
    }
  }

  // ----- Changing one enclave -----

  /** Enclave `u` gets threads that were in the pool, and the pool keeps none of them. */
  lemma TransferKeeps(s: Sys, u: nat, e: Enclave, avail: seq<CpuSet>)
    requires Exclusive(s) && Offline(s) && u in s.enclaves
    requires Separate(avail) && Separate(e.cpu.cores)
    requires forall c :: Holds(avail, c) ==> Holds(s.avail, c) && !Holds(e.cpu.cores, c)
    requires forall c :: Holds(e.cpu.cores, c) ==> Holds(s.enclaves[u].cpu.cores, c) || Holds(s.avail, c)
    ensures Exclusive(Put(s, u, e).(avail := avail)) && Offline(Put(s, u, e).(avail := avail))
  {
    var s' := Put(s, u, e).(avail := avail);
    forall w, c | w in s'.enclaves && Holds(s'.enclaves[w].cpu.cores, c)
      ensures !Holds(avail, c) && c !in s'.online
    {
      if w != u { assert Holds(s.enclaves[w].cpu.cores, c); }
    }
    forall w, x, c | w in s'.enclaves && x in s'.enclaves
                     && Holds(s'.enclaves[w].cpu.cores, c) && Holds(s'.enclaves[x].cpu.cores, c)
      ensures w == x
    {
      if w != u { assert Holds(s.enclaves[w].cpu.cores, c); }
      if x != u { assert Holds(s.enclaves[x].cpu.cores, c); }
    }
  }

  /** An update that leaves the enclave's cores alone. */
  lemma UpdateKeepsBase(s: Sys, u: nat, e: Enclave)
    requires Base(s) && u in s.enclaves && e.cpu.cores == s.enclaves[u].cpu.cores && OwnCpus(e)
    ensures Base(Put(s, u, e))
  {
    TransferKeeps(s, u, e, s.avail);
    assert Put(s, u, e).(avail := s.avail) == Put(s, u, e);
  }

  lemma MoveKeepsBase(s: Sys, u: nat, sel: Selection, i: nat)
    requires Base(s) && Idle(s, u) && s.enclaves[u].state == Init && sel.outcome.Chosen?
    requires Moved(s.avail, s.enclaves[u].cpu, sel, i)
    ensures Base(ApplySelection(s, u, sel))
  {
    var cores, core := s.enclaves[u].cpu.cores, s.avail[i];
    forall c ensures Holds(sel.avail, c) <==> Holds(s.avail, c) && c !in core { HoldsWithout(s.avail, i, c); }
    forall c ensures Holds(sel.cores, c) <==> Holds(cores, c) || c in core { HoldsWith(cores, i, core, c); }
    forall c | c in core ensures !Holds(cores, c) && Holds(s.avail, c) { assert Holds(s.avail, c); }
    SeparateWith(cores, i, core);
    var e := ApplySelection(s, u, sel).enclaves[u];
    assert Holds(sel.cores, sel.outcome.vcpu) by { assert sel.outcome.vcpu in sel.cores[i]; }
    assert OwnCpus(e) by { assert OwnCpus(s.enclaves[u]); }
    TransferKeeps(s, u, e, sel.avail);
  }

  lemma ReserveKeepsBase(s: Sys, u: nat, v: nat)
    requires Base(s) && Idle(s, u) && s.enclaves[u].state == Init
    ensures Base(NextReserve(s, u, v))
  {
    var e := s.enclaves[u];
    var sel := Reserve(s.avail, e.cpu, e.threadsPerCore, v);
    ReserveShape(s.avail, e.cpu, e.threadsPerCore, v);
    if i :| sel.outcome.Chosen? && Moved(s.avail, e.cpu, sel, i) {
      MoveKeepsBase(s, u, sel, i);
    } else {
      assert OwnCpus(e);
      UpdateKeepsBase(s, u, ApplySelection(s, u, sel).enclaves[u]);
    }
  }

  lemma LocalOwn(e: Enclave, step: Step)
    requires IsLocal(step) && OwnCpus(e)
    ensures OwnCpus(Local(e, step)) && Local(e, step).cpu.cores == e.cpu.cores
  {
    if step.RecordVcpu? && e.pending.Some? { RecordOwn(e, step.ok); }
  }

  lemma RecordOwn(e: Enclave, ok: bool)
    requires OwnCpus(e) && e.pending.Some?
    ensures OwnCpus(Recorded(e, ok))
  {
  }

  lemma CreateKeepsBase(s: Sys, u: nat, max: nat)
    requires Base(s) && u !in s.enclaves
    ensures Base(NextCreate(s, u, max))
  {
    var e := NewEnclave(s, max);
    forall c ensures !Holds(e.cpu.cores, c) { }
    var s' := NextCreate(s, u, max);
    forall w, c | w in s'.enclaves && Holds(s'.enclaves[w].cpu.cores, c)
      ensures w in s.enclaves && s'.enclaves[w] == s.enclaves[w]
    {
    }
  }

  lemma ReleaseKeepsBase(s: Sys, u: nat)
    requires Base(s) && u in s.enclaves
    ensures Base(NextRelease(s, u))
  {
    var cores := s.enclaves[u].cpu.cores;
    ReturnSeparate(s.avail, cores);
    forall c | Holds(ReturnCores(s.avail, cores), c) ensures Holds(s.avail, c) || Holds(cores, c) {
      ReturnHolds(s.avail, cores, c);
    }
  }

  lemma TearDownKeepsBase(s: Sys)
    requires Base(s)
    ensures Base(NextTearDown(s))
  {
  }

  /** A pool is set up from CPUs that are online, so no enclave holds any of them. */
  lemma SetUpKeepsBase(s: Sys, layout: seq<CpuSet>, k: nat, node: int)
    requires Base(s) && CanSetUp(s, layout, k)
    ensures Base(NextSetUp(s, layout, k, node))
    ensures forall u, c {:trigger Holds(s.enclaves[u].cpu.cores, c)} ::
        u in s.enclaves && Holds(s.enclaves[u].cpu.cores, c) ==> !Holds(layout, c)
  {
  }

  lemma StepKeepsBase(s: Sys, step: Step)
    requires Base(s)
    ensures Base(Next(s, step))
  {
    match step
    case ReconfCheck =>
    case TearDown => TearDownKeepsBase(s);
    case SetUp(layout, k, node) => if CanSetUp(s, layout, k) { SetUpKeepsBase(s, layout, k, node); }
    case ReconfEnd =>
    case CreateCheck =>
    case CreateAlloc(u, max, ok) => if u !in s.enclaves { CreateKeepsBase(s, u, max); }
    case ReserveVcpu(u, v) => if Idle(s, u) && s.enclaves[u].state == Init { ReserveKeepsBase(s, u, v); }
    case Release(u, ok) => if Idle(s, u) { ReleaseKeepsBase(s, u); }
    case _ =>
      if step.uid in s.enclaves {
        LocalOwn(s.enclaves[step.uid], step);
        UpdateKeepsBase(s, step.uid, Local(s.enclaves[step.uid], step));
      }
  }

  /** No thread has two places and none in use is online, in every state of every run. */
  lemma {:induction false} RunKeepsBase(s: Sys, steps: seq<Step>)
    requires Base(s)
    ensures Base(Run(s, steps))
    decreases |steps|
  {
    if steps != [] {
      StepKeepsBase(s, steps[0]);
      RunKeepsBase(Next(s, steps[0]), steps[1..]);
    }
  }
}
