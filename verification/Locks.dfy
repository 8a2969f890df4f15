/** The driver's mutexes: `enclaves_list_mutex`, one `enclave_info_mutex` per enclave, the CPU pool
    mutex and `pci_dev_mutex`, as taken by the ioctls, release, the event worker and pool changes. */
module Locks {
  import opened NeTypes

  datatype Lock = List | Info(uid: nat) | Pool | Pci

  /** What threads share: the list of enclaves, the fields of an enclave, the CPU pool and the device's registers. */
  datatype Shared = EnclaveList | EnclaveInfo(uid: nat) | CpuPool | Device

  datatype Op = Acquire(lock: Lock) | Unlock(lock: Lock) | Access(what: Shared)

  /** The lock that protects shared data. */
  function Guard(x: Shared): Lock {
    match x
    case EnclaveList => List
    case EnclaveInfo(u) => Info(u)
    case CpuPool => Pool
    case Device => Pci
  }

  /** The data that a lock section is for. */
  function DataOf(l: Lock): Shared {
    match l
    case List => EnclaveList
    case Info(u) => EnclaveInfo(u)
    case Pool => CpuPool
    case Pci => Device
  }

  /** The order in which the locks are taken. */
  function Rank(l: Lock): nat {
    match l
    case List => 0
    case Info(_) => 1
    case Pool => 2
    case Pci => 2
  }

  /** What the event worker does for one enclave; `request`: it was running, so SLOT_INFO is sent. */
  datatype Visit = Visit(uid: nat, request: bool)

  /** An entry point with the path it takes: which lock sections it runs and how many device
      requests it makes before it returns. */
  datatype Operation =
    | AddVcpu(uid: nat, pool: bool, request: bool)
    | LoadInfo(uid: nat)
    | SetMemory(uid: nat, requests: nat)
    | StartEnclave(uid: nat, request: bool)
    | ReleaseEnclave(uid: nat, requests: nat, returned: bool)
    | CreateVm(poolSections: nat, requests: nat)
    | SetKernelParam(checked: bool, poolSections: nat)
    | EventWork(visits: seq<Visit>)

  function Section(l: Lock, n: nat): seq<Op> {
    if n == 0 then [] else Under(l, []) + Section(l, n - 1)
  }

  function Times(b: bool): nat { if b then 1 else 0 }

  function Visits(visits: seq<Visit>): seq<Op> {
    if visits == [] then []
    else Under(Info(visits[0].uid), Section(Pci, Times(visits[0].request))) + Visits(visits[1..])
  }

  /** A lock section: it works on its data and runs `body`. */
  function Under(l: Lock, body: seq<Op>): seq<Op> { [Acquire(l), Access(DataOf(l))] + body + [Unlock(l)] }

  /** The lock operations of an entry point, in program order. */
  function Program(op: Operation): seq<Op> {
    match op
    case AddVcpu(u, pool, request) => Under(Info(u), Section(Pool, Times(pool)) + Section(Pci, Times(request)))
    case LoadInfo(u) => Under(Info(u), [])
    case SetMemory(u, requests) => Under(Info(u), Section(Pci, requests))
    case StartEnclave(u, request) => Under(Info(u), Section(Pci, Times(request)))
    case ReleaseEnclave(u, requests, returned) =>
      Under(List, Under(Info(u), Section(Pci, requests) + Section(Pool, Times(returned))))
    case CreateVm(poolSections, requests) => Under(List, Section(Pool, poolSections) + Section(Pci, requests))
    case SetKernelParam(checked, poolSections) => Section(List, Times(checked)) + Section(Pool, poolSections)
    case EventWork(visits) => Under(List, Visits(visits))
  }

  /** A thread runs entry points one after the other. */
  function ThreadProgram(ops: seq<Operation>): seq<Op> {
    if ops == [] then [] else Program(ops[0]) + ThreadProgram(ops[1..])
  }

  // ----- The lock order of programs -----

  predicate Above(l: Lock, held: set<Lock>) {
    forall h :: h in held ==> Rank(h) < Rank(l)
  }

  /** The locks held after `prog`, or None if it takes a lock out of order, releases one it does not hold, or accesses
      data without its lock. */
  function After(prog: seq<Op>, held: set<Lock>): Option<set<Lock>>
    decreases |prog|
  {
    if prog == [] then Some(held)
    else match prog[0]
      case Acquire(l) => if Above(l, held) then After(prog[1..], held + {l}) else None
      case Unlock(l) => if l in held then After(prog[1..], held - {l}) else None
      case Access(x) => if Guard(x) in held then After(prog[1..], held) else None
  }

  lemma {:induction false} AfterAppend(p: seq<Op>, q: seq<Op>, held: set<Lock>)
    requires After(p, held).Some?
    ensures After(p + q, held) == After(q, After(p, held).value)
    decreases |p|
  {
    if p == [] {
      assert p + q == q;
    } else {
      assert (p + q)[1..] == p[1..] + q;
      match p[0]
      case Acquire(l) => AfterAppend(p[1..], q, held + {l});
      case Unlock(l) => AfterAppend(p[1..], q, held - {l});
      case Access(_) => AfterAppend(p[1..], q, held);
    }
  }

  lemma UnderAfter(l: Lock, body: seq<Op>, held: set<Lock>, inner: set<Lock>)
    requires inner == held + {l} && Above(l, held) && After(body, inner) == Some(inner)
    ensures After(Under(l, body), held) == Some(held)
  {
    var p := [Acquire(l), Access(DataOf(l))] + body;
    assert p[1..] == [Access(DataOf(l))] + body && p[1..][1..] == body && Under(l, body) == p + [Unlock(l)];
    AfterAppend(p, [Unlock(l)], held);
    assert held + {l} - {l} == held;
    assert [Unlock(l)][1..] == [];
  }

  lemma {:induction false} SectionAfter(l: Lock, n: nat, held: set<Lock>)
    requires Above(l, held)
    ensures After(Section(l, n), held) == Some(held)
  {
    if n > 0 {
      SectionAfter(l, n - 1, held);
      UnderAfter(l, [], held, held + {l});
      AfterAppend(Under(l, []), Section(l, n - 1), held);
    }
  }

  lemma TwoSections(a: Lock, m: nat, b: Lock, n: nat, held: set<Lock>)
    requires Above(a, held) && Above(b, held)
    ensures After(Section(a, m) + Section(b, n), held) == Some(held)
  {
    SectionAfter(a, m, held);
    SectionAfter(b, n, held);
    AfterAppend(Section(a, m), Section(b, n), held);
  }

  lemma {:induction false} VisitsAfter(visits: seq<Visit>)
    ensures After(Visits(visits), {List}) == Some({List})
  {
    if visits != [] {
      var u, n := visits[0].uid, Times(visits[0].request);
      SectionAfter(Pci, n, {List} + {Info(u)});
      UnderAfter(Info(u), Section(Pci, n), {List}, {List} + {Info(u)});
      VisitsAfter(visits[1..]);
      AfterAppend(Under(Info(u), Section(Pci, n)), Visits(visits[1..]), {List});
    }
  }

  /** Every entry point takes its locks in order, one enclave at a time, never the pool mutex together
      with the device mutex, accesses shared data only under its lock, and releases all, whatever path it takes. */
  lemma ProgramInOrder(op: Operation)
    ensures After(Program(op), {}) == Some({})
  {
    match op
    case AddVcpu(u, pool, request) =>
      TwoSections(Pool, Times(pool), Pci, Times(request), {Info(u)});
      UnderAfter(Info(u), Section(Pool, Times(pool)) + Section(Pci, Times(request)), {}, {Info(u)});
    case LoadInfo(u) => UnderAfter(Info(u), [], {}, {Info(u)});
    case SetMemory(u, requests) =>
      SectionAfter(Pci, requests, {Info(u)});
      UnderAfter(Info(u), Section(Pci, requests), {}, {Info(u)});
    case StartEnclave(u, request) =>
      SectionAfter(Pci, Times(request), {Info(u)});
      UnderAfter(Info(u), Section(Pci, Times(request)), {}, {Info(u)});
    case ReleaseEnclave(u, requests, returned) =>
      var body := Section(Pci, requests) + Section(Pool, Times(returned));
      TwoSections(Pci, requests, Pool, Times(returned), {List} + {Info(u)});
      UnderAfter(Info(u), body, {List}, {List} + {Info(u)});
      UnderAfter(List, Under(Info(u), body), {}, {List});
    case CreateVm(poolSections, requests) =>
      TwoSections(Pool, poolSections, Pci, requests, {List});
      UnderAfter(List, Section(Pool, poolSections) + Section(Pci, requests), {}, {List});
    case SetKernelParam(checked, poolSections) => TwoSections(List, Times(checked), Pool, poolSections, {});
    case EventWork(visits) =>
      VisitsAfter(visits);
      UnderAfter(List, Visits(visits), {}, {List});
  }

  lemma {:induction false} ThreadInOrder(ops: seq<Operation>)
    ensures After(ThreadProgram(ops), {}) == Some({})
  {
    if ops != [] {
      ProgramInOrder(ops[0]);
      ThreadInOrder(ops[1..]);
      AfterAppend(Program(ops[0]), ThreadProgram(ops[1..]), {});
    }
  }

  // ----- What each entry point works on -----

  /** The shared data a program accesses, in order. */
  function Accessed(prog: seq<Op>): seq<Shared> {
    if prog == [] then []
    else (if prog[0].Access? then [prog[0].what] else []) + Accessed(prog[1..])
  }

  function Repeat(x: Shared, n: nat): seq<Shared> { if n == 0 then [] else [x] + Repeat(x, n - 1) }

  function Visited(visits: seq<Visit>): seq<Shared> {
    if visits == [] then []
    else [EnclaveInfo(visits[0].uid)] + Repeat(Device, Times(visits[0].request)) + Visited(visits[1..])
  }

  /** The data each entry point works on: under the path's conditions, once or several times. */
  function WorksOn(op: Operation): seq<Shared> {
    match op
    case AddVcpu(u, pool, request) =>
      [EnclaveInfo(u)] + (Repeat(CpuPool, Times(pool)) + Repeat(Device, Times(request)))
    case LoadInfo(u) => [EnclaveInfo(u)]
    case SetMemory(u, requests) => [EnclaveInfo(u)] + Repeat(Device, requests)
    case StartEnclave(u, request) => [EnclaveInfo(u)] + Repeat(Device, Times(request))
    case ReleaseEnclave(u, requests, returned) =>
      [EnclaveList] + ([EnclaveInfo(u)] + (Repeat(Device, requests) + Repeat(CpuPool, Times(returned))))
    case CreateVm(poolSections, requests) =>
      [EnclaveList] + (Repeat(CpuPool, poolSections) + Repeat(Device, requests))
    case SetKernelParam(checked, poolSections) =>
      Repeat(EnclaveList, Times(checked)) + Repeat(CpuPool, poolSections)
    case EventWork(visits) => [EnclaveList] + Visited(visits)
  }

  lemma {:induction false} AccessedAppend(p: seq<Op>, q: seq<Op>)
    ensures Accessed(p + q) == Accessed(p) + Accessed(q)
    decreases |p|
  {
    if p == [] {
      assert p + q == q;
    } else {
      var first := if p[0].Access? then [p[0].what] else [];
      assert (p + q)[0] == p[0] && (p + q)[1..] == p[1..] + q;
      AccessedAppend(p[1..], q);
      assert first + (Accessed(p[1..]) + Accessed(q)) == (first + Accessed(p[1..])) + Accessed(q);
    }
  }

  lemma AccessedUnder(l: Lock, body: seq<Op>)
    ensures Accessed(Under(l, body)) == [DataOf(l)] + Accessed(body)
  {
    var p, end := [Acquire(l), Access(DataOf(l))], [Unlock(l)];
    assert p[1..] == [Access(DataOf(l))] && p[1..][1..] == [] && end[1..] == [] && Accessed([]) == [];
    assert Accessed(p[1..]) == [DataOf(l)];
    assert Accessed(p) == [DataOf(l)] && Accessed(end) == [];
    AccessedAppend(p, body);
    AccessedAppend(p + body, end);
  }

  lemma {:induction false} AccessedSection(l: Lock, n: nat)
    ensures Accessed(Section(l, n)) == Repeat(DataOf(l), n)
  {
    if n > 0 {
      AccessedSection(l, n - 1);
      AccessedUnder(l, []);
      AccessedAppend(Under(l, []), Section(l, n - 1));
    }
  }

  lemma AccessedTwo(a: Lock, m: nat, b: Lock, n: nat)
    ensures Accessed(Section(a, m) + Section(b, n)) == Repeat(DataOf(a), m) + Repeat(DataOf(b), n)
  {
    AccessedSection(a, m);
    AccessedSection(b, n);
    AccessedAppend(Section(a, m), Section(b, n));
  }

  lemma {:induction false} AccessedVisits(visits: seq<Visit>)
    ensures Accessed(Visits(visits)) == Visited(visits)
  {
    if visits != [] {
      var l, n := Info(visits[0].uid), Times(visits[0].request);
      AccessedSection(Pci, n);
      AccessedUnder(l, Section(Pci, n));
      AccessedVisits(visits[1..]);
      AccessedAppend(Under(l, Section(Pci, n)), Visits(visits[1..]));
    }
  }

  /** Every entry point accesses exactly the data it works on, in order. */
  lemma AccessesExact(op: Operation)
    ensures Accessed(Program(op)) == WorksOn(op)
  {
    match op
    case AddVcpu(u, pool, request) =>
      AccessedTwo(Pool, Times(pool), Pci, Times(request));
      AccessedUnder(Info(u), Section(Pool, Times(pool)) + Section(Pci, Times(request)));
    case LoadInfo(u) => AccessedUnder(Info(u), []);
    case SetMemory(u, requests) =>
      AccessedSection(Pci, requests);
      AccessedUnder(Info(u), Section(Pci, requests));
    case StartEnclave(u, request) =>
      AccessedSection(Pci, Times(request));
      AccessedUnder(Info(u), Section(Pci, Times(request)));
    case ReleaseEnclave(u, requests, returned) =>
      var body := Section(Pci, requests) + Section(Pool, Times(returned));
      AccessedTwo(Pci, requests, Pool, Times(returned));
      AccessedUnder(Info(u), body);
      AccessedUnder(List, Under(Info(u), body));
    case CreateVm(poolSections, requests) =>
      AccessedTwo(Pool, poolSections, Pci, requests);
      AccessedUnder(List, Section(Pool, poolSections) + Section(Pci, requests));
    case SetKernelParam(checked, poolSections) =>
      AccessedTwo(List, Times(checked), Pool, poolSections);
    case EventWork(visits) =>
      AccessedVisits(visits);
      AccessedUnder(List, Visits(visits));
  }

  // ----- Threads sharing the locks -----

  datatype Thread = Thread(prog: seq<Op>, held: set<Lock>)

  predicate Free(threads: seq<Thread>, l: Lock) {
    forall i :: 0 <= i < |threads| ==> l !in threads[i].held
  }

  predicate Enabled(threads: seq<Thread>, t: nat) {
    && t < |threads| && threads[t].prog != []
    && (threads[t].prog[0].Acquire? ==> Free(threads, threads[t].prog[0].lock))
  }

  /** Thread `t` runs its next lock operation; a blocked or finished thread does not move. */
  function Step(threads: seq<Thread>, t: nat): seq<Thread> {
    if !Enabled(threads, t) then threads
    else
      var th := threads[t];
      threads[t := Thread(th.prog[1..],
                          match th.prog[0]
                          case Acquire(l) => th.held + {l}
                          case Unlock(l) => th.held - {l}
                          case Access(_) => th.held)]
  }

  function Run(threads: seq<Thread>, schedule: seq<nat>): seq<Thread>
    decreases |schedule|
  {
    if schedule == [] then threads else Run(Step(threads, schedule[0]), schedule[1..])
  }

  /** What each thread still does is in order, and no lock has two holders. */
  ghost predicate Ok(threads: seq<Thread>) {
    && (forall i :: 0 <= i < |threads| ==> After(threads[i].prog, threads[i].held) == Some({}))
    && (forall i, j, l {:trigger l in threads[i].held, l in threads[j].held} ::
          0 <= i < |threads| && 0 <= j < |threads| && l in threads[i].held && l in threads[j].held ==> i == j)
  }

  function Threads(ops: seq<seq<Operation>>): seq<Thread> {
    seq(|ops|, i requires 0 <= i < |ops| => Thread(ThreadProgram(ops[i]), {}))
  }

  predicate Done(threads: seq<Thread>) {
    forall i :: 0 <= i < |threads| ==> threads[i].prog == []
  }

  lemma StepKeeps(threads: seq<Thread>, t: nat)
    requires Ok(threads)
    ensures Ok(Step(threads, t))
  {
    if Enabled(threads, t) {
      var th := threads[t];
      assert After(th.prog, th.held) == Some({});
    }
  }

  lemma {:induction false} RunKeeps(threads: seq<Thread>, schedule: seq<nat>)
    requires Ok(threads)
    ensures Ok(Run(threads, schedule))
    decreases |schedule|
  {
    if schedule != [] {
      StepKeeps(threads, schedule[0]);
      RunKeeps(Step(threads, schedule[0]), schedule[1..]);
    }
  }

  /** Follows the holders of the awaited locks upwards in the order: one of them can move. */
  lemma FindEnabled(threads: seq<Thread>, t: nat) returns (e: nat)
    requires Ok(threads) && t < |threads| && threads[t].prog != []
    ensures Enabled(threads, e)
    decreases if threads[t].prog[0].Acquire? then 3 - Rank(threads[t].prog[0].lock) else 0
  {
    if Enabled(threads, t) {
      e := t;
    } else {
      var l := threads[t].prog[0].lock;
      var j :| 0 <= j < |threads| && l in threads[j].held;
      assert After(threads[j].prog, threads[j].held) == Some({});
      assert After(threads[t].prog, threads[t].held) == Some({});
      e := FindEnabled(threads, j);
    }
  }

  /** Deadlock freedom: after every interleaving of any threads running any entry points, either all
      threads are done or some thread can move; no lock ever has two holders. */
  lemma NoDeadlock(ops: seq<seq<Operation>>, schedule: seq<nat>)
    ensures var threads := Run(Threads(ops), schedule);
            Ok(threads) && (Done(threads) || exists e :: Enabled(threads, e))
  {
    forall i | 0 <= i < |ops| ensures After(ThreadProgram(ops[i]), {}) == Some({}) { ThreadInOrder(ops[i]); }
    assert Ok(Threads(ops));
    RunKeeps(Threads(ops), schedule);
    var threads := Run(Threads(ops), schedule);
    if !Done(threads) {
      var t :| 0 <= t < |threads| && threads[t].prog != [];
      var e := FindEnabled(threads, t);
    }
  }

  /** The data that thread `t` is about to access, if any. */
  predicate AboutTo(threads: seq<Thread>, t: nat, x: Shared) {
    t < |threads| && threads[t].prog != [] && threads[t].prog[0] == Access(x)
  }

  /** No data races: after every interleaving of any threads running any entry points, whoever is about to access shared
      data holds the lock of that data, and no two threads are about to access the same data. */
  lemma NoDataRace(ops: seq<seq<Operation>>, schedule: seq<nat>, i: nat, j: nat, x: Shared)
    requires AboutTo(Run(Threads(ops), schedule), i, x)
    ensures Guard(x) in Run(Threads(ops), schedule)[i].held
    ensures AboutTo(Run(Threads(ops), schedule), j, x) ==> i == j
  {
    NoDeadlock(ops, schedule);
    var threads := Run(Threads(ops), schedule);
    assert After(threads[i].prog, threads[i].held) == Some({});
    if AboutTo(threads, j, x) { assert After(threads[j].prog, threads[j].held) == Some({}); }
  }

  /** The lock operations left. */
  function Left(threads: seq<Thread>): nat {
    if threads == [] then 0 else |threads[0].prog| + Left(threads[1..])
  }

  lemma {:induction false} LeftUpdate(threads: seq<Thread>, t: nat, th: Thread)
    requires t < |threads| && |th.prog| + 1 == |threads[t].prog|
    ensures Left(threads[t := th]) + 1 == Left(threads)
  {
    if t == 0 {
      assert threads[t := th][1..] == threads[1..];
    } else {
      LeftUpdate(threads[1..], t - 1, th);
      assert threads[t := th][1..] == threads[1..][t - 1 := th];
    }
  }

  /** Every reachable state can be run to the end. */
  lemma {:induction false} CanFinish(threads: seq<Thread>) returns (schedule: seq<nat>)
    requires Ok(threads)
    ensures Done(Run(threads, schedule)) && |schedule| == Left(threads)
    decreases Left(threads)
  {
    if Done(threads) {
      schedule := [];
      DoneLeft(threads);
    } else {
      var t :| 0 <= t < |threads| && threads[t].prog != [];
      var e := FindEnabled(threads, t);
      var next := Step(threads, e);
      LeftUpdate(threads, e, next[e]);
      StepKeeps(threads, e);
      var rest := CanFinish(next);
      schedule := [e] + rest;
      assert schedule[1..] == rest;
    }
  }

  lemma {:induction false} DoneLeft(threads: seq<Thread>)
    requires Done(threads)
    ensures Left(threads) == 0
  {
    if threads != [] { DoneLeft(threads[1..]); }
  }
}
