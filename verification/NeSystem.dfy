/** The driver as a transition system over any number of enclaves. A step is one section run
    under the locks that protect what it touches, so a sequence of steps is an interleaving. */
module NeSystem {
  import opened NeTypes
  import opened CpuSelect
  import opened MemRegions

  /** `pending` is the vCPU chosen by an NE_ADD_VCPU ioctl that waits for the device: until it is
      answered the ioctl holds the enclave's mutex. */
  datatype Enclave = Enclave(cpu: Cpus, mem: Memory, threadsPerCore: nat, node: int,
                             state: EnclaveState, hasEvent: bool, pending: Option<nat>)

  /** `layout` is what the last pool setup put in the slots, nothing if the pool is torn down. `creating`: a creator
      holds the enclave list after it saw a free core. `reconf`: an administrator found the enclave list empty and is
      changing the pool. `released` logs the memory of released enclaves, `online` is what Linux may schedule on. */
  datatype Sys = Sys(avail: seq<CpuSet>, threadsPerCore: nat, node: int, layout: seq<CpuSet>,
                     enclaves: map<nat, Enclave>, creating: bool, reconf: bool, released: seq<Memory>, online: CpuSet)

  datatype Step =
    | ReconfCheck
    | TearDown
    | SetUp(layout: seq<CpuSet>, threadsPerCore: nat, node: int)
    | ReconfEnd
    | CreateCheck
    | CreateAlloc(uid: nat, maxMemRegions: nat, ok: bool)
    | ReserveVcpu(uid: nat, vcpu: nat)
    | RecordVcpu(uid: nat, ok: bool)
    | SetMem(uid: nat, taskSize: nat, addr: nat, size: nat, gup: seq<Gup>, accepts: nat)
    | Start(uid: nat, ok: bool)
    | Event(uid: nat, reply: EnclaveState)
    | Release(uid: nat, ok: bool)

  function Boot(online: CpuSet): Sys { Sys([], 0, -1, [], map[], false, false, [], online) }

  function NewEnclave(s: Sys, maxMemRegions: nat): Enclave {
    var none: CpuSet := {};
    Enclave(Cpus(seq(|s.avail|, _ => none), {}, 0), Memory([], 0, 0, maxMemRegions, [], multiset{}, multiset{}),
            s.threadsPerCore, s.node, Init, false, None)
  }

  /** The checks of `ne_start_enclave_ioctl`. */
  function StartError(cpu: Cpus, mem: Memory): Option<Errno> {
    if mem.nrMemRegions == 0 then Some(NoMemRegions)
    else if mem.memSize < MIN_ENCLAVE_MEM then Some(MemTooSmall)
    else if cpu.nrVcpus == 0 then Some(NoVcpus)
    else if !FullCores(cpu) then Some(FullCoresNotUsed)
    else None
  }

  function Put(s: Sys, u: nat, e: Enclave): Sys { s.(enclaves := s.enclaves[u := e]) }

  /** The enclave's mutex is free: it exists and no NE_ADD_VCPU is waiting for the device. */
  predicate Idle(s: Sys, u: nat) { u in s.enclaves && s.enclaves[u].pending.None? }

  /** An administrator tore the pool down and the layout is one that pool setup can leave. */
  ghost predicate CanSetUp(s: Sys, layout: seq<CpuSet>, k: nat) {
    s.reconf && s.avail == [] && SetupOk(layout, k, s.online)
  }

  function NextTearDown(s: Sys): Sys {
    s.(avail := [], layout := [], threadsPerCore := 0, node := -1, online := s.online + Union(s.avail))
  }

  function NextSetUp(s: Sys, layout: seq<CpuSet>, k: nat, node: int): Sys {
    s.(avail := layout, layout := layout, threadsPerCore := k, node := node, online := s.online - Union(layout))
  }

  function NextCreate(s: Sys, u: nat, max: nat): Sys { Put(s, u, NewEnclave(s, max)).(creating := false) }

  function NextRelease(s: Sys, u: nat): Sys
    requires u in s.enclaves
  {
    s.(avail := ReturnCores(s.avail, s.enclaves[u].cpu.cores), enclaves := s.enclaves - {u},
       released := s.released + [ReleaseMemory(s.enclaves[u].mem)])
  }

  /** The step works on one enclave under its mutex alone. */
  predicate IsLocal(step: Step) { step.RecordVcpu? || step.SetMem? || step.Start? || step.Event? }

  function Recorded(e: Enclave, ok: bool): Enclave
    requires e.pending.Some?
  {
    e.(cpu := if ok then Record(e.cpu, e.pending.value) else e.cpu, pending := None)
  }

  function WithMemory(e: Enclave, taskSize: nat, addr: nat, size: nat, gup: seq<Gup>, accepts: nat): Enclave {
    e.(mem := SetMemory(e.mem, e.node, taskSize, addr, size, gup, accepts).0)
  }

  /** The enclave after such a step; a step that has to wait for an NE_ADD_VCPU leaves it alone. */
  function Local(e: Enclave, step: Step): Enclave
    requires IsLocal(step)
  {
    match step
    case RecordVcpu(_, ok) => if e.pending.None? then e else Recorded(e, ok)
    case SetMem(_, taskSize, addr, size, gup, accepts) =>
      if e.pending.Some? || e.state != Init then e else WithMemory(e, taskSize, addr, size, gup, accepts)
    case Start(_, ok) =>
      if e.pending.Some? || e.state != Init || !ok || StartError(e.cpu, e.mem).Some? then e else e.(state := Running)
    case Event(_, reply) =>
      if e.pending.Some? || e.state != Running || reply == Running then e else e.(state := reply, hasEvent := true)
  }

  /** One step; a step that has to wait for a mutex leaves the state alone. */
  ghost function Next(s: Sys, step: Step): Sys {
    match step
    case ReconfCheck => if s.creating || s.enclaves != map[] then s else s.(reconf := true)
    case TearDown => if s.reconf then NextTearDown(s) else s
    case SetUp(layout, k, node) => if CanSetUp(s, layout, k) then NextSetUp(s, layout, k, node) else s
    case ReconfEnd => s.(reconf := false)
    case CreateCheck => if s.creating || FirstFree(s.avail) < 0 then s else s.(creating := true)
    case CreateAlloc(u, max, ok) =>
      if !s.creating then s
      else if !ok || u == 0 || u in s.enclaves then s.(creating := false)
      else NextCreate(s, u, max)
    case ReserveVcpu(u, v) => if Idle(s, u) && s.enclaves[u].state == Init then NextReserve(s, u, v) else s
    case Release(u, ok) => if s.creating || !Idle(s, u) || !ok then s else NextRelease(s, u)
    case _ =>
      if step.uid !in s.enclaves || (step.Event? && s.creating) then s
      else Put(s, step.uid, Local(s.enclaves[step.uid], step))
  }

  function NextReserve(s: Sys, u: nat, v: nat): Sys
    requires u in s.enclaves
  {
    var e := s.enclaves[u];
    ApplySelection(s, u, Reserve(s.avail, e.cpu, e.threadsPerCore, v))
  }

  function ApplySelection(s: Sys, u: nat, sel: Selection): Sys
    requires u in s.enclaves
  {
    var e := s.enclaves[u];
    Put(s, u, e.(cpu := e.cpu.(cores := sel.cores),
                 pending := if sel.outcome.Chosen? then Some(sel.outcome.vcpu) else None)).(avail := sel.avail)
  }

  ghost function Run(s: Sys, steps: seq<Step>): Sys
    decreases |steps|
  {
    if steps == [] then s else Run(Next(s, steps[0]), steps[1..])
  }

  // ----- What every run keeps -----

  /** The vCPUs and the vCPU that waits for the device are threads of the enclave's own cores, and an enclave past
      INIT passed the checks of its start. */
  ghost predicate OwnCpus(e: Enclave) {
    && (forall v :: v in e.cpu.vcpuIds ==> Holds(e.cpu.cores, v))
    && e.cpu.nrVcpus >= |e.cpu.vcpuIds| && (e.cpu.nrVcpus > 0 ==> e.cpu.vcpuIds != {})
    && (e.pending.Some? ==> e.state == Init && Holds(e.cpu.cores, e.pending.value))
    && (e.state != Init ==> StartError(e.cpu, e.mem).None?)
  }

  /** No thread is in two slots of the pool or of an enclave, in the pool and an enclave, or in two enclaves. */
  ghost predicate Exclusive(s: Sys) {
    && Separate(s.avail)
    && (forall u :: u in s.enclaves ==> Separate(s.enclaves[u].cpu.cores))
    && (forall u, c {:trigger Holds(s.enclaves[u].cpu.cores, c)} ::
          u in s.enclaves && Holds(s.enclaves[u].cpu.cores, c) ==> !Holds(s.avail, c))
    && (forall u, w, c {:trigger Holds(s.enclaves[u].cpu.cores, c), Holds(s.enclaves[w].cpu.cores, c)} ::
          u in s.enclaves && w in s.enclaves && Holds(s.enclaves[u].cpu.cores, c) && Holds(s.enclaves[w].cpu.cores, c)
          ==> u == w)
  }

  /** No CPU of the pool or of an enclave is online. */
  ghost predicate Offline(s: Sys) {
    && (forall c :: c in s.online ==> !Holds(s.avail, c))
    && (forall u, c {:trigger Holds(s.enclaves[u].cpu.cores, c)} ::
          u in s.enclaves && Holds(s.enclaves[u].cpu.cores, c) ==> c !in s.online)
  }

  ghost predicate Base(s: Sys) {
    Exclusive(s) && Offline(s) && forall u :: u in s.enclaves ==> OwnCpus(s.enclaves[u])
  }

  // ----- The invariant of harmless runs -----

  datatype Place = InPool | Owner(uid: nat)

  /** The whole of `core` if it is here, nothing otherwise. */
  function Share(core: CpuSet, here: bool): CpuSet { if here then core else {} }

  /** `owner` says where each core of the layout lies: whole, and nowhere else. */
  ghost predicate Placed(s: Sys, owner: seq<Place>) {
    && |s.avail| == |s.layout| == |owner|
    && (forall i :: 0 <= i < |owner| ==> s.avail[i] == Share(s.layout[i], owner[i] == InPool))
    && (forall i :: 0 <= i < |owner| && owner[i].Owner? ==> owner[i].uid in s.enclaves)
    && (forall u :: u in s.enclaves ==> HasShare(s.enclaves[u].cpu.cores, s.layout, owner, u))
  }

  /** The enclave has the slots of the pool and in them the cores it owns; without a pool it holds nothing. */
  ghost predicate HasShare(cores: seq<CpuSet>, layout: seq<CpuSet>, owner: seq<Place>, u: nat)
    requires |layout| == |owner|
  {
    && (layout != [] ==> |cores| == |layout|)
    && forall i :: 0 <= i < |cores| ==>
         cores[i] == if i < |layout| then Share(layout[i], owner[i] == Owner(u)) else {}
  }

  ghost predicate CpuOk(e: Enclave) {
    && (forall v :: v in e.cpu.vcpuIds ==> Holds(e.cpu.cores, v))
    && e.cpu.nrVcpus == |e.cpu.vcpuIds|
    && (e.pending.Some? ==>
          e.state == Init && e.pending.value !in e.cpu.vcpuIds && Holds(e.cpu.cores, e.pending.value))
  }

  /** The enclave has the pool's shape and node if there is a pool, its CPUs are in order, and once started it
      passed the checks. */
  ghost predicate EnclaveOk(s: Sys, e: Enclave) {
    && (s.layout != [] ==> e.threadsPerCore == s.threadsPerCore && e.node == s.node) && CpuOk(e)
    && (e.state != Init ==> StartError(e.cpu, e.mem).None?)
  }

  ghost predicate Inv(s: Sys) {
    && LayoutOk(s.layout, s.threadsPerCore) && (s.layout != [] ==> s.threadsPerCore > 0)
    && (exists owner :: Placed(s, owner))
    && (forall u :: u in s.enclaves ==> EnclaveOk(s, s.enclaves[u]))
  }

  /** Listed pages passed the checks for the enclave's node. */
  ghost predicate PagesOk(m: Memory, node: int) {
    forall i :: 0 <= i < |m.regions| ==> GoodPages(m.regions[i].pages, node)
  }

  /** Every recorded page was put, once. */
  predicate AllPut(m: Memory) { m.regions == [] && m.put == m.pinned }

  /** The enclave's memory is in order. */
  ghost predicate EnclaveMem(e: Enclave) { MemOk(e.mem) && PagesOk(e.mem, e.node) }

  /** The memory of every enclave is in order, and released enclaves have put all their pages. */
  ghost predicate MemInv(s: Sys) {
    && (forall u :: u in s.enclaves ==> EnclaveMem(s.enclaves[u]))
    && (forall i :: 0 <= i < |s.released| ==> AllPut(s.released[i]))
  }

  /** The enclave has the slots of a pool of this shape and node. */
  predicate Fits(e: Enclave, slots: nat, k: nat, node: int) {
    |e.cpu.cores| == slots && e.threadsPerCore == k && e.node == node
  }

  /** The step neither tears the pool down while an enclave holds a core nor sets one up that an enclave does not
      fit. */
  ghost predicate HarmlessStep(s: Sys, step: Step) {
    && (step.TearDown? && s.reconf ==> forall u, c :: u in s.enclaves ==> !Holds(s.enclaves[u].cpu.cores, c))
    && (step.SetUp? && CanSetUp(s, step.layout, step.threadsPerCore) ==>
          forall u :: u in s.enclaves ==> Fits(s.enclaves[u], |step.layout|, step.threadsPerCore, step.node))
  }

  ghost predicate Harmless(s: Sys, steps: seq<Step>)
    decreases |steps|
  {
    steps == [] || (HarmlessStep(s, steps[0]) && Harmless(Next(s, steps[0]), steps[1..]))
  }

  /** The invariant holds in every state of the run. */
  ghost predicate AlwaysInv(s: Sys, steps: seq<Step>)
    decreases |steps|
  {
    Inv(s) && (steps == [] || AlwaysInv(Next(s, steps[0]), steps[1..]))
  }

  /** No enclave is added while the pool is being changed. */
  ghost predicate NoRace(s: Sys, steps: seq<Step>)
    decreases |steps|
  {
    steps == [] || (!(s.reconf && steps[0].CreateAlloc?) && NoRace(Next(s, steps[0]), steps[1..]))
  }

  // ----- Selection -----

  /** What a selection can do: nothing, choose a held thread that is not donated yet, or
      move one whole non-empty core and choose a thread of it. */
  ghost predicate SelectionShape(avail: seq<CpuSet>, cpu: Cpus, sel: Selection) {
    || (sel.outcome.Refused? && sel.avail == avail && sel.cores == cpu.cores)
    || (sel.outcome.Chosen? && sel.avail == avail && sel.cores == cpu.cores
        && Holds(cpu.cores, sel.outcome.vcpu) && sel.outcome.vcpu !in cpu.vcpuIds)
    || (sel.outcome.Chosen? && exists i :: Moved(avail, cpu, sel, i))
  }

  ghost predicate Moved(avail: seq<CpuSet>, cpu: Cpus, sel: Selection, i: int)
    requires sel.outcome.Chosen?
  {
    TookCore(avail, cpu.cores, sel, i) && sel.outcome.vcpu in sel.cores[i]
  }

  lemma ReserveShape(avail: seq<CpuSet>, cpu: Cpus, k: nat, v: nat)
    ensures SelectionShape(avail, cpu, Reserve(avail, cpu, k, v))
    ensures |avail| <= |cpu.cores| ==> Reserve(avail, cpu, k, v).outcome != Refused(InvalidCore)
  {
    var sel := Reserve(avail, cpu, k, v);
    if v < |cpu.cores| * k && sel.outcome.Chosen? {
      if v == 0 {
        var i := FirstPartial(cpu.cores, cpu.vcpuIds);
        if i >= 0 {
          assert sel.outcome.vcpu in cpu.cores[i];
        } else {
          assert Moved(avail, cpu, sel, FirstFree(avail));
        }
      } else if FirstWith(cpu.cores, v) >= 0 {
        assert v in cpu.cores[FirstWith(cpu.cores, v)];
      } else {
        assert Moved(avail, cpu, sel, FirstWith(avail, v));
      }
    }
  }

  // ----- Each step keeps the invariant -----

  /** An update of one enclave that leaves its cores alone. */
  lemma UpdateKeeps(s: Sys, u: nat, e: Enclave)
    requires Inv(s) && u in s.enclaves && e.cpu.cores == s.enclaves[u].cpu.cores
    requires EnclaveOk(s, e)
    ensures Inv(Put(s, u, e))
  {
    var owner: seq<Place> :| Placed(s, owner);
    assert Placed(Put(s, u, e), owner);
  }

  /** Without a pool every enclave holds nothing, and that is all the invariant asks. */
  lemma TearDownExact(s: Sys)
    requires Inv(s) && s.reconf
    ensures Inv(NextTearDown(s)) <==> HarmlessStep(s, TearDown)
  {
    var s' := NextTearDown(s);
    if HarmlessStep(s, TearDown) {
      forall u | u in s.enclaves ensures HasShare(s.enclaves[u].cpu.cores, [], [], u) {
        var cores := s.enclaves[u].cpu.cores;
        forall i | 0 <= i < |cores| ensures cores[i] == {} {
          if c :| c in cores[i] { assert Holds(cores, c); }
        }
      }
      assert Placed(s', []);
      forall u | u in s'.enclaves ensures EnclaveOk(s', s'.enclaves[u]) { assert EnclaveOk(s, s.enclaves[u]); }
    }
    if Inv(s') {
      var owner: seq<Place> :| Placed(s', owner);
      forall u, c | u in s.enclaves ensures !Holds(s.enclaves[u].cpu.cores, c) {
        assert HasShare(s'.enclaves[u].cpu.cores, [], owner, u);
      }
    }
  }

  /** Setting a pool up keeps the invariant exactly when all enclaves have its shape and node. */
  lemma SetUpExact(s: Sys, layout: seq<CpuSet>, k: nat, node: int)
    requires Inv(s) && CanSetUp(s, layout, k)
    ensures Inv(NextSetUp(s, layout, k, node)) <==> HarmlessStep(s, SetUp(layout, k, node))
  {
    var s' := NextSetUp(s, layout, k, node);
    var before: seq<Place> :| Placed(s, before);
    if HarmlessStep(s, SetUp(layout, k, node)) {
      var owner: seq<Place> := seq(|layout|, _ => InPool);
      forall u | u in s.enclaves ensures HasShare(s.enclaves[u].cpu.cores, layout, owner, u) {
        assert HasShare(s.enclaves[u].cpu.cores, [], before, u);
        assert Fits(s.enclaves[u], |layout|, k, node);
      }
      assert Placed(s', owner);
      forall u | u in s'.enclaves ensures EnclaveOk(s', s'.enclaves[u]) {
        assert EnclaveOk(s, s.enclaves[u]) && Fits(s.enclaves[u], |layout|, k, node);
      }
    }
    if Inv(s') {
      var owner: seq<Place> :| Placed(s', owner);
      forall u | u in s.enclaves ensures Fits(s.enclaves[u], |layout|, k, node) {
        assert EnclaveOk(s', s'.enclaves[u]) && HasShare(s'.enclaves[u].cpu.cores, layout, owner, u);
      }
    }
  }

  /** The new enclave has the pool's slots, all empty. */
  lemma NewShare(s: Sys, owner: seq<Place>, u: nat, max: nat)
    requires Placed(s, owner) && u !in s.enclaves
    ensures HasShare(NewEnclave(s, max).cpu.cores, s.layout, owner, u)
  {
    forall i | 0 <= i < |owner| ensures owner[i] != Owner(u) {
      if owner[i].Owner? { assert owner[i].uid in s.enclaves; }
    }
  }

  lemma CreateKeeps(s: Sys, u: nat, max: nat)
    requires Inv(s) && u !in s.enclaves
    ensures Inv(NextCreate(s, u, max))
  {
    var owner: seq<Place> :| Placed(s, owner);
    NewShare(s, owner, u, max);
    var s' := NextCreate(s, u, max);
    assert Placed(s', owner);
    assert EnclaveOk(s', NewEnclave(s, max));
  }

  /** Moving a core into an enclave: the core was in the pool, so the enclave had nothing in its slot. */
  lemma MoveKeeps(s: Sys, u: nat, owner: seq<Place>, sel: Selection, i: nat)
    requires Placed(s, owner) && u in s.enclaves && sel.outcome.Chosen?
    requires Moved(s.avail, s.enclaves[u].cpu, sel, i)
    ensures s.enclaves[u].cpu.cores[i] == {} && sel.cores[i] == s.layout[i]
    ensures forall e: Enclave :: e.cpu.cores == sel.cores ==>
      Placed(Put(s, u, e).(avail := sel.avail), owner[i := Owner(u)])
  {
    assert owner[i] == InPool && HasShare(s.enclaves[u].cpu.cores, s.layout, owner, u);
    forall e: Enclave | e.cpu.cores == sel.cores
      ensures Placed(Put(s, u, e).(avail := sel.avail), owner[i := Owner(u)])
    {
      var s', owner' := Put(s, u, e).(avail := sel.avail), owner[i := Owner(u)];
      forall w | w in s'.enclaves ensures HasShare(s'.enclaves[w].cpu.cores, s.layout, owner', w) {
        assert HasShare(s.enclaves[w].cpu.cores, s.layout, owner, w);
      }
    }
  }

  /** A vCPU chosen from a core that just moved is not donated yet. */
  lemma MovedIsNew(s: Sys, u: nat, owner: seq<Place>, i: nat, v: nat)
    requires Placed(s, owner) && Separate(s.layout) && u in s.enclaves && CpuOk(s.enclaves[u])
    requires i < |owner| && v in s.layout[i]
    requires i < |s.enclaves[u].cpu.cores| && s.enclaves[u].cpu.cores[i] == {}
    ensures v !in s.enclaves[u].cpu.vcpuIds
  {
    var cpu := s.enclaves[u].cpu;
    assert HasShare(cpu.cores, s.layout, owner, u);
    forall j | 0 <= j < |cpu.cores| ensures v !in cpu.cores[j] {
      assert v in s.layout[j] ==> i == j;
    }
    assert !Holds(cpu.cores, v);
  }

  lemma HoldsAfterMove(cores: seq<CpuSet>, i: nat, core: CpuSet)
    requires i < |cores| && cores[i] == {}
    ensures forall c :: Holds(cores, c) ==> Holds(cores[i := core], c)
  {
    forall c | Holds(cores, c) ensures Holds(cores[i := core], c) {
      var j :| 0 <= j < |cores| && c in cores[j];
      assert c in cores[i := core][j];
    }
  }

  lemma MoveCpuOk(s: Sys, u: nat, owner: seq<Place>, sel: Selection, i: nat)
    requires Placed(s, owner) && Separate(s.layout) && u in s.enclaves && sel.outcome.Chosen?
    requires Moved(s.avail, s.enclaves[u].cpu, sel, i) && CpuOk(s.enclaves[u]) && s.enclaves[u].state == Init
    ensures var e := s.enclaves[u];
            CpuOk(e.(cpu := e.cpu.(cores := sel.cores), pending := Some(sel.outcome.vcpu)))
  {
    var cpu := s.enclaves[u].cpu;
    MoveKeeps(s, u, owner, sel, i);
    MovedIsNew(s, u, owner, i, sel.outcome.vcpu);
    HoldsAfterMove(cpu.cores, i, sel.cores[i]);
    assert sel.outcome.vcpu in sel.cores[i];
  }

  lemma SelectionMoves(s: Sys, u: nat, sel: Selection, i: nat)
    requires Inv(s) && Idle(s, u) && s.enclaves[u].state == Init
    requires sel.outcome.Chosen? && Moved(s.avail, s.enclaves[u].cpu, sel, i)
    ensures Inv(ApplySelection(s, u, sel))
  {
    var owner: seq<Place> :| Placed(s, owner);
    MoveCpuOk(s, u, owner, sel, i);
    MoveKeeps(s, u, owner, sel, i);
    var e := ApplySelection(s, u, sel).enclaves[u];
    assert e.cpu.cores == sel.cores && EnclaveOk(s, e);
    assert Placed(Put(s, u, e).(avail := sel.avail), owner[i := Owner(u)]);
  }

  lemma SelectionKeeps(s: Sys, u: nat, sel: Selection)
    requires Inv(s) && Idle(s, u) && s.enclaves[u].state == Init
    requires SelectionShape(s.avail, s.enclaves[u].cpu, sel)
    ensures Inv(ApplySelection(s, u, sel))
  {
    if i :| sel.outcome.Chosen? && Moved(s.avail, s.enclaves[u].cpu, sel, i) {
      SelectionMoves(s, u, sel, i);
    } else {
      UpdateKeeps(s, u, ApplySelection(s, u, sel).enclaves[u]);
    }
  }

  lemma RecordOk(e: Enclave, ok: bool)
    requires e.pending.Some? && CpuOk(e)
    ensures CpuOk(Recorded(e, ok))
  {
  }

  /** A step on one enclave leaves its cores alone and keeps it in order. */
  lemma LocalOk(s: Sys, e: Enclave, step: Step)
    requires IsLocal(step) && EnclaveOk(s, e)
    ensures EnclaveOk(s, Local(e, step)) && Local(e, step).cpu.cores == e.cpu.cores
  {
    if step.RecordVcpu? && e.pending.Some? { RecordOk(e, step.ok); }
  }

  /** The cores of a released enclave are whole in the pool again. */
  lemma ReturnPlaced(s: Sys, s': Sys, u: nat, owner: seq<Place>)
    requires Placed(s, owner) && u in s.enclaves && s'.layout == s.layout
    requires s'.avail == ReturnCores(s.avail, s.enclaves[u].cpu.cores) && s'.enclaves == s.enclaves - {u}
    ensures exists owner' :: Placed(s', owner')
  {
    var owner' := seq(|owner|, i requires 0 <= i < |owner| => if owner[i] == Owner(u) then InPool else owner[i]);
    assert HasShare(s.enclaves[u].cpu.cores, s.layout, owner, u);
    forall w | w in s'.enclaves ensures HasShare(s'.enclaves[w].cpu.cores, s.layout, owner', w) {
      assert HasShare(s.enclaves[w].cpu.cores, s.layout, owner, w);
    }
    assert Placed(s', owner');
  }

  lemma ReleaseKeeps(s: Sys, u: nat)
    requires Inv(s) && u in s.enclaves
    ensures Inv(NextRelease(s, u))
  {
    var owner: seq<Place> :| Placed(s, owner);
    ReturnPlaced(s, NextRelease(s, u), u, owner);
  }

  /** A change of the two flags alone. */
  lemma FlagsKeep(s: Sys, creating: bool, reconf: bool)
    requires Inv(s)
    ensures Inv(s.(creating := creating, reconf := reconf))
  {
    var owner: seq<Place> :| Placed(s, owner);
    assert Placed(s.(creating := creating, reconf := reconf), owner);
  }

  lemma ReserveKeeps(s: Sys, u: nat, v: nat)
    requires Inv(s) && Idle(s, u) && s.enclaves[u].state == Init
    ensures Inv(NextReserve(s, u, v))
  {
    var e := s.enclaves[u];
    ReserveShape(s.avail, e.cpu, e.threadsPerCore, v);
    SelectionKeeps(s, u, Reserve(s.avail, e.cpu, e.threadsPerCore, v));
  }

  lemma StepKeeps(s: Sys, step: Step)
    requires Inv(s) && HarmlessStep(s, step)
    ensures Inv(Next(s, step))
  {
    match step
    case ReconfCheck => FlagsKeep(s, s.creating, true);
    case TearDown => if s.reconf { TearDownExact(s); }
    case SetUp(layout, k, node) => if CanSetUp(s, layout, k) { SetUpExact(s, layout, k, node); }
    case ReconfEnd => FlagsKeep(s, s.creating, false);
    case CreateCheck => FlagsKeep(s, true, s.reconf);
    case CreateAlloc(u, max, ok) =>
      FlagsKeep(s, false, s.reconf);
      if u !in s.enclaves { CreateKeeps(s, u, max); }
    case ReserveVcpu(u, v) => if Idle(s, u) && s.enclaves[u].state == Init { ReserveKeeps(s, u, v); }
    case Release(u, ok) => if Idle(s, u) { ReleaseKeeps(s, u); }
    case _ =>
      if step.uid in s.enclaves {
        LocalOk(s, s.enclaves[step.uid], step);
        UpdateKeeps(s, step.uid, Local(s.enclaves[step.uid], step));
      }
  }

  /** The invariant holds after every harmless interleaving, whatever the device answers. */
  lemma {:induction false} RunKeeps(s: Sys, steps: seq<Step>)
    requires Inv(s) && Harmless(s, steps)
    ensures Inv(Run(s, steps))
    decreases |steps|
  {
    if steps != [] {
      StepKeeps(s, steps[0]);
      RunKeeps(Next(s, steps[0]), steps[1..]);
    }
  }

  lemma StepExact(s: Sys, step: Step)
    requires Inv(s)
    ensures Inv(Next(s, step)) <==> HarmlessStep(s, step)
  {
    if HarmlessStep(s, step) {
      StepKeeps(s, step);
    } else {
      if step.TearDown? { TearDownExact(s); } else { SetUpExact(s, step.layout, step.threadsPerCore, step.node); }
    }
  }

  /** Exactly the harmless interleavings keep the invariant in all their states. */
  lemma {:induction false} RaceExact(s: Sys, steps: seq<Step>)
    requires Inv(s)
    ensures Harmless(s, steps) <==> AlwaysInv(s, steps)
    decreases |steps|
  {
    if steps != [] {
      StepExact(s, steps[0]);
      if HarmlessStep(s, steps[0]) {
        RaceExact(Next(s, steps[0]), steps[1..]);
      } else {
        assert !AlwaysInv(Next(s, steps[0]), steps[1..]);
      }
    }
  }

  lemma NoRaceStep(s: Sys, step: Step)
    requires (s.reconf ==> s.enclaves == map[]) && !(s.reconf && step.CreateAlloc?)
    ensures HarmlessStep(s, step) && (Next(s, step).reconf ==> Next(s, step).enclaves == map[])
  {
  }

  /** Interleavings without a creation while the pool is being changed are harmless. */
  lemma {:induction false} NoRaceIsHarmless(s: Sys, steps: seq<Step>)
    requires (s.reconf ==> s.enclaves == map[]) && NoRace(s, steps)
    ensures Harmless(s, steps)
    decreases |steps|
  {
    if steps != [] {
      NoRaceStep(s, steps[0]);
      NoRaceIsHarmless(Next(s, steps[0]), steps[1..]);
    }
  }

  /** The memory invariant holds after every interleaving, raced or not. */
  lemma {:induction false} RunKeepsMem(s: Sys, steps: seq<Step>)
    requires MemInv(s)
    ensures MemInv(Run(s, steps))
    decreases |steps|
  {
    if steps != [] {
      StepKeepsMem(s, steps[0]);
      RunKeepsMem(Next(s, steps[0]), steps[1..]);
    }
  }

  lemma LocalMem(e: Enclave, step: Step)
    requires IsLocal(step) && EnclaveMem(e)
    ensures EnclaveMem(Local(e, step))
  {
    if step.SetMem? {
      SetMemoryOutcome(e.mem, e.node, step.taskSize, step.addr, step.size, step.gup, step.accepts);
      SetMemoryPages(e.mem, e.node, step.taskSize, step.addr, step.size, step.gup, step.accepts);
    }
  }

  lemma PutKeepsMem(s: Sys, u: nat, e: Enclave)
    requires MemInv(s) && EnclaveMem(e)
    ensures MemInv(Put(s, u, e))
  {
  }

  lemma SameKeepsMem(s: Sys, s': Sys)
    requires MemInv(s) && s'.enclaves == s.enclaves && s'.released == s.released
    ensures MemInv(s')
  {
  }

  lemma ReserveKeepsMem(s: Sys, u: nat, v: nat)
    requires MemInv(s) && u in s.enclaves
    ensures MemInv(NextReserve(s, u, v))
  {
    PutKeepsMem(s, u, NextReserve(s, u, v).enclaves[u]);
  }

  lemma ReleaseKeepsMem(s: Sys, u: nat)
    requires MemInv(s) && u in s.enclaves
    ensures MemInv(NextRelease(s, u))
  {
    assert AllPut(ReleaseMemory(s.enclaves[u].mem));
  }

  /** Steps that touch no enclave. */
  predicate IsPoolStep(step: Step) {
    step.ReconfCheck? || step.TearDown? || step.SetUp? || step.ReconfEnd? || step.CreateCheck?
  }

  lemma PoolStepSame(s: Sys, step: Step)
    requires IsPoolStep(step)
    ensures Next(s, step).enclaves == s.enclaves && Next(s, step).released == s.released
  {
  }

  lemma CreateKeepsMem(s: Sys, u: nat, max: nat, ok: bool)
    requires MemInv(s)
    ensures MemInv(Next(s, CreateAlloc(u, max, ok)))
  {
    PutKeepsMem(s, u, NewEnclave(s, max));
    SameKeepsMem(Put(s, u, NewEnclave(s, max)), NextCreate(s, u, max));
    SameKeepsMem(s, s.(creating := false));
  }

  lemma StepKeepsMem(s: Sys, step: Step)
    requires MemInv(s)
    ensures MemInv(Next(s, step))
  {
    if IsPoolStep(step) {
      PoolStepSame(s, step);
      SameKeepsMem(s, Next(s, step));
    } else if IsLocal(step) {
      if step.uid in s.enclaves {
        LocalMem(s.enclaves[step.uid], step);
        PutKeepsMem(s, step.uid, Local(s.enclaves[step.uid], step));
      }
    } else if step.CreateAlloc? {
      CreateKeepsMem(s, step.uid, step.maxMemRegions, step.ok);
    } else if Idle(s, step.uid) {
      if step.ReserveVcpu? { ReserveKeepsMem(s, step.uid, step.vcpu); } else { ReleaseKeepsMem(s, step.uid); }
    }
  }

  /** The ioctl lists at most the one region that it pinned. */
  lemma SetMemoryRegions(m: Memory, node: int, taskSize: nat, addr: nat, size: nat, gup: seq<Gup>, accepts: nat)
    ensures var m' := SetMemory(m, node, taskSize, addr, size, gup, accepts).0;
            || m'.regions == m.regions
            || m'.regions == [MemRegion(addr, size, Pin(node, size, gup, [], 0).pages)] + m.regions
  {
  }

  lemma PagesWith(m: Memory, m': Memory, r: MemRegion, node: int)
    requires PagesOk(m, node) && GoodPages(r.pages, node)
    requires m'.regions == m.regions || m'.regions == [r] + m.regions
    ensures PagesOk(m', node)
  {
    forall i | 0 <= i < |m'.regions| ensures GoodPages(m'.regions[i].pages, node) {
      assert m'.regions[i] == r || m'.regions[i] in m.regions;
    }
  }

  /** The ioctl lists only pages on the enclave's node. */
  lemma SetMemoryPages(m: Memory, node: int, taskSize: nat, addr: nat, size: nat, gup: seq<Gup>, accepts: nat)
    requires PagesOk(m, node)
    ensures PagesOk(SetMemory(m, node, taskSize, addr, size, gup, accepts).0, node)
  {
    SetMemoryRegions(m, node, taskSize, addr, size, gup, accepts);
    PinRecords(node, size, gup, [], 0);
    PagesWith(m, SetMemory(m, node, taskSize, addr, size, gup, accepts).0,
              MemRegion(addr, size, Pin(node, size, gup, [], 0).pages), node);
  }

  lemma BootInv(online: CpuSet)
    ensures Inv(Boot(online)) && MemInv(Boot(online)) && Base(Boot(online))
  {
    assert Placed(Boot(online), []);
  }
}
