/** Giving vCPUs to a new enclave: `init_cpus` of `resource_manager.rs` over the NE_ADD_VCPU ioctl of the driver. */
module CpuInit {
  import opened NeTypes
  import opened CpuSelect
  import NeBase
  import NeSystem
  import AutoVcpu
  import PoolSetup

  /** The CPU configuration of an enclave: the vCPUs to use, or how many. */
  datatype CpuConfig = List(ids: seq<nat>) | Count(n: nat)

  /** The arguments of the ioctls, one for each vCPU; 0 leaves the choice to the driver. */
  function Arguments(config: CpuConfig): seq<nat> {
    if config.List? then config.ids else seq(config.n, _ => 0)
  }

  /** The pool and the CPUs of one enclave. */
  datatype Shares = Shares(avail: seq<CpuSet>, cpu: Cpus)

  /** Enclave and pool have the same slots and no thread in common, each slot is non-empty in at most one of them, and
      the vCPUs are threads of the enclave's cores. */
  ghost predicate Sound(s: Shares) {
    && |s.avail| == |s.cpu.cores| && Separate(s.avail) && Separate(s.cpu.cores)
    && (forall i :: 0 <= i < |s.avail| && s.avail[i] != {} ==> s.cpu.cores[i] == {})
    && (forall c :: Holds(s.cpu.cores, c) ==> !Holds(s.avail, c))
    && (forall c :: c in s.cpu.vcpuIds ==> Holds(s.cpu.cores, c))
    && s.cpu.nrVcpus == |s.cpu.vcpuIds|
  }

  /** A thread of the pool or of the enclave. */
  ghost predicate Known(s: Shares, c: nat) { Holds(s.avail, c) || Holds(s.cpu.cores, c) }

  ghost predicate SameThreads(s: Shares, s': Shares) {
    |s'.cpu.cores| == |s.cpu.cores| && forall c :: Known(s', c) <==> Known(s, c)
  }

  /** The shares after a selection, with the vCPU recorded if the device accepts it. */
  function Selected(s: Shares, sel: Selection, ok: bool): Shares {
    var cpu := s.cpu.(cores := sel.cores);
    Shares(sel.avail, if sel.outcome.Chosen? && ok then Record(cpu, sel.outcome.vcpu) else cpu)
  }

  lemma MoveIsSound(s: Shares, sel: Selection, i: int, ok: bool)
    requires Sound(s) && sel.outcome.Chosen? && NeSystem.Moved(s.avail, s.cpu, sel, i)
    ensures Sound(Selected(s, sel, ok)) && SameThreads(s, Selected(s, sel, ok)) && sel.outcome.vcpu !in s.cpu.vcpuIds
  {
    var core := s.avail[i];
    forall c ensures Holds(sel.avail, c) <==> Holds(s.avail, c) && c !in core {
      NeBase.HoldsWithout(s.avail, i, c);
    }
    forall c ensures Holds(sel.cores, c) <==> Holds(s.cpu.cores, c) || c in core {
      NeBase.HoldsWith(s.cpu.cores, i, core, c);
    }
    forall c | c in core ensures Holds(s.avail, c) { }
    NeBase.SeparateWith(s.cpu.cores, i, core);
    assert sel.outcome.vcpu in core;
  }

  /** Whatever the device says, a selection keeps the shares sound and loses no thread; a chosen vCPU is new. */
  lemma SelectionIsSound(s: Shares, k: nat, v: nat, ok: bool)
    requires Sound(s)
    ensures var sel := Reserve(s.avail, s.cpu, k, v);
            && Sound(Selected(s, sel, ok)) && SameThreads(s, Selected(s, sel, ok))
            && (sel.outcome.Chosen? ==> sel.outcome.vcpu !in s.cpu.vcpuIds)
  {
    var sel := Reserve(s.avail, s.cpu, k, v);
    NeSystem.ReserveShape(s.avail, s.cpu, k, v);
    if i :| sel.outcome.Chosen? && NeSystem.Moved(s.avail, s.cpu, sel, i) { MoveIsSound(s, sel, i, ok); }
  }

  /** The shares and the vCPUs after these ioctls, if all of them succeed. */
  function AddAll(s: Shares, k: nat, args: seq<nat>): Option<(Shares, seq<nat>)> {
    if args == [] then Some((s, []))
    else
      var before := AddAll(s, k, args[..|args| - 1]);
      if before.None? then None
      else
        var (t, ids) := before.value;
        var sel := Reserve(t.avail, t.cpu, k, args[|args| - 1]);
        if sel.outcome.Refused? then None else Some((Selected(t, sel, true), ids + [sel.outcome.vcpu]))
  }

  lemma AddedSnoc(s: Shares, k: nat, args: seq<nat>, v: nat)
    ensures AddAll(s, k, args).None? ==> AddAll(s, k, args + [v]).None?
    ensures AddAll(s, k, args).Some? ==>
      var (t, ids) := AddAll(s, k, args).value;
      var sel := Reserve(t.avail, t.cpu, k, v);
      AddAll(s, k, args + [v]) ==
        if sel.outcome.Refused? then None else Some((Selected(t, sel, true), ids + [sel.outcome.vcpu]))
  {
    assert (args + [v])[..|args|] == args;
  }

  lemma {:induction false} FailureStays(s: Shares, k: nat, args: seq<nat>, n: nat)
    requires n <= |args| && AddAll(s, k, args[..n]).None?
    ensures AddAll(s, k, args).None?
    decreases |args|
  {
    if n < |args| {
      var init := args[..|args| - 1];
      assert init[..n] == args[..n];
      FailureStays(s, k, init, n);
    } else {
      assert args[..n] == args;
    }
  }

  ghost function SetOf(ids: seq<nat>): (all: CpuSet)
    ensures forall c :: c in all <==> c in ids
  {
    set c | c in ids
  }

  /** The ioctls led from `s` to `t`: sound shares, no thread lost, and exactly the listed vCPUs, all different, are
      new; those that were asked for by number are listed as asked. */
  ghost predicate Added(s: Shares, args: seq<nat>, t: Shares, ids: seq<nat>) {
    && Sound(t) && SameThreads(s, t) && |ids| == |args| && t.cpu.nrVcpus == s.cpu.nrVcpus + |args|
    && t.cpu.vcpuIds == s.cpu.vcpuIds + SetOf(ids)
    && (forall i :: 0 <= i < |args| && args[i] > 0 ==> ids[i] == args[i])
  }

  lemma SetOfSnoc(ids: seq<nat>, id: nat)
    ensures SetOf(ids + [id]) == SetOf(ids) + {id}
  {
  }

  /** What a successful selection adds. */
  ghost predicate Adds(t: Shares, v: nat, sel: Selection) {
    && sel.outcome.Chosen? && Sound(Selected(t, sel, true)) && SameThreads(t, Selected(t, sel, true))
    && sel.outcome.vcpu !in t.cpu.vcpuIds && (v > 0 ==> sel.outcome.vcpu == v)
  }

  lemma ReserveAdds(t: Shares, k: nat, v: nat)
    requires Sound(t) && Reserve(t.avail, t.cpu, k, v).outcome.Chosen?
    ensures Adds(t, v, Reserve(t.avail, t.cpu, k, v))
  {
    SelectionIsSound(t, k, v, true);
    if v > 0 { GivenExact(t.avail, t.cpu, k, v); }
  }

  lemma AddedOne(s: Shares, args: seq<nat>, t: Shares, ids: seq<nat>, v: nat, sel: Selection)
    requires Added(s, args, t, ids) && Adds(t, v, sel)
    ensures Added(s, args + [v], Selected(t, sel, true), ids + [sel.outcome.vcpu])
  {
    SetOfSnoc(ids, sel.outcome.vcpu);
    forall c ensures Known(Selected(t, sel, true), c) <==> Known(s, c) { assert Known(t, c) <==> Known(s, c); }
  }

  lemma AddedNone(s: Shares)
    requires Sound(s)
    ensures Added(s, [], s, [])
  {
    assert SetOf([]) == {};
  }

  lemma {:induction false} AddAllSound(s: Shares, k: nat, args: seq<nat>)
    requires Sound(s) && AddAll(s, k, args).Some?
    ensures Added(s, args, AddAll(s, k, args).value.0, AddAll(s, k, args).value.1)
  {
    if args == [] {
      AddedNone(s);
    } else {
      var init, v := args[..|args| - 1], args[|args| - 1];
      assert init + [v] == args;
      AddAllSound(s, k, init);
      NextSound(s, k, init, v);
    }
  }

  lemma NextSound(s: Shares, k: nat, args: seq<nat>, v: nat)
    requires AddAll(s, k, args).Some? && Added(s, args, AddAll(s, k, args).value.0, AddAll(s, k, args).value.1)
    ensures var r := AddAll(s, k, args + [v]); r.Some? ==> Added(s, args + [v], r.value.0, r.value.1)
  {
    var (t, ids) := AddAll(s, k, args).value;
    AddedSnoc(s, k, args, v);
    var sel := Reserve(t.avail, t.cpu, k, v);
    if sel.outcome.Chosen? {
      ReserveAdds(t, k, v);
      AddedOne(s, args, t, ids, v, sel);
    }
  }

  // ----- A number of vCPUs -----

  /** The threads that can still become vCPUs of the enclave. */
  ghost function Spare(s: Shares): CpuSet { Union(s.avail) + (Union(s.cpu.cores) - s.cpu.vcpuIds) }

  lemma SpareAfter(s: Shares, sel: Selection)
    requires Sound(s) && Adds(s, 0, sel)
    ensures sel.outcome.vcpu in Spare(s) && Spare(Selected(s, sel, true)) == Spare(s) - {sel.outcome.vcpu}
  {
    var t, v := Selected(s, sel, true), sel.outcome.vcpu;
    assert v in t.cpu.vcpuIds && Known(t, v);
    forall c ensures c in Spare(t) <==> c in Spare(s) && c != v { assert Known(t, c) <==> Known(s, c); }
  }

  /** Every successful addition uses up one spare thread; without one, and only then, the driver refuses to choose. */
  lemma AutoUsesSpare(s: Shares, k: nat)
    requires Sound(s) && k > 0
    ensures var sel := Reserve(s.avail, s.cpu, k, 0);
            && (sel.outcome.Refused? <==> Spare(s) == {})
            && (sel.outcome.Chosen? ==>
                  sel.outcome.vcpu in Spare(s) && Spare(Selected(s, sel, true)) == Spare(s) - {sel.outcome.vcpu})
  {
    var sel := Reserve(s.avail, s.cpu, k, 0);
    AutoVcpu.AutoRefusedIff(s.avail, s.cpu, k);
    SpareExact(s);
    if sel.outcome.Chosen? {
      ReserveAdds(s, k, 0);
      SpareAfter(s, sel);
    }
  }

  lemma SpareExact(s: Shares)
    requires |s.avail| == |s.cpu.cores|
    ensures Spare(s) == {} <==> FullCores(s.cpu) && forall i :: 0 <= i < |s.avail| ==> s.avail[i] == {}
  {
    forall i, c | 0 <= i < |s.avail| && c in s.avail[i] ensures c in Spare(s) { assert Holds(s.avail, c); }
    forall i, c | 0 <= i < |s.cpu.cores| && c in s.cpu.cores[i] && c !in s.cpu.vcpuIds ensures c in Spare(s) {
      assert Holds(s.cpu.cores, c);
    }
  }

  function Zeros(n: nat): seq<nat> { Arguments(Count(n)) }

  lemma AutoCounts(s: Shares, k: nat)
    requires Sound(s) && k > 0
    ensures var sel := Reserve(s.avail, s.cpu, k, 0);
            && (sel.outcome.Refused? <==> |Spare(s)| == 0)
            && (sel.outcome.Chosen? ==> |Spare(Selected(s, sel, true))| == |Spare(s)| - 1)
  {
    AutoUsesSpare(s, k);
  }

  /** Any number of vCPUs can be had exactly if there are as many spare threads. */
  lemma {:induction false} CountFits(s: Shares, k: nat, n: nat)
    requires Sound(s) && k > 0
    ensures AddAll(s, k, Zeros(n)).Some? <==> n <= |Spare(s)|
    ensures AddAll(s, k, Zeros(n)).Some? ==> |Spare(AddAll(s, k, Zeros(n)).value.0)| == |Spare(s)| - n
  {
    if n > 0 {
      assert Zeros(n) == Zeros(n - 1) + [0];
      CountFits(s, k, n - 1);
      AddedSnoc(s, k, Zeros(n - 1), 0);
      if AddAll(s, k, Zeros(n - 1)).Some? {
        AddAllSound(s, k, Zeros(n - 1));
        AutoCounts(AddAll(s, k, Zeros(n - 1)).value.0, k);
      }
    }
  }

  // ----- Which cores a new enclave has -----

  /** A new enclave in front of a pool of whole cores of `k` threads. */
  ghost predicate New(s: Shares, k: nat) {
    && Sound(s) && k > 0 && LayoutOk(s.avail, k) && s.cpu.vcpuIds == {}
    && forall i :: 0 <= i < |s.cpu.cores| ==> s.cpu.cores[i] == {}
  }

  /** Every core of the pool is still there, or whole in the enclave with a vCPU among its threads. */
  ghost predicate Took(s: Shares, t: Shares) {
    && |t.avail| == |t.cpu.cores| == |s.avail|
    && forall i :: 0 <= i < |s.avail| ==>
         || (t.cpu.cores[i] == {} && t.avail[i] == s.avail[i])
         || (t.avail[i] == {} && t.cpu.cores[i] == s.avail[i] && t.cpu.cores[i] * t.cpu.vcpuIds != {})
  }

  lemma TookMore(s: Shares, t: Shares, sel: Selection)
    requires Took(s, t) && sel.outcome.Chosen? && NeSystem.SelectionShape(t.avail, t.cpu, sel)
    ensures Took(s, Selected(t, sel, true))
  {
    var t', v := Selected(t, sel, true), sel.outcome.vcpu;
    if i :| NeSystem.Moved(t.avail, t.cpu, sel, i) {
      assert t.cpu.cores[i] == {} && t'.cpu.cores[i] == s.avail[i];
      assert v in t'.cpu.cores[i] * t'.cpu.vcpuIds;
    }
    forall j | 0 <= j < |s.avail| && t.cpu.cores[j] * t.cpu.vcpuIds != {}
      ensures t.cpu.cores[j] * t'.cpu.vcpuIds != {}
    {
      var c :| c in t.cpu.cores[j] * t.cpu.vcpuIds;
      assert c in t.cpu.cores[j] * t'.cpu.vcpuIds;
    }
  }

  lemma {:induction false} AddAllTook(s: Shares, k: nat, args: seq<nat>)
    requires New(s, k) && AddAll(s, k, args).Some?
    ensures Took(s, AddAll(s, k, args).value.0)
  {
    if args != [] {
      var init, v := args[..|args| - 1], args[|args| - 1];
      AddAllTook(s, k, init);
      var t := AddAll(s, k, init).value.0;
      NeSystem.ReserveShape(t.avail, t.cpu, k, v);
      TookMore(s, t, Reserve(t.avail, t.cpu, k, v));
    }
  }

  /** The full-core test passes exactly if the vCPUs are, core by core, all threads of the core or none. */
  lemma FullExact(s: Shares, k: nat, t: Shares)
    requires New(s, k) && Took(s, t) && Sound(t)
    ensures FullCores(t.cpu) <==>
            forall i :: 0 <= i < |s.avail| ==> s.avail[i] !! t.cpu.vcpuIds || s.avail[i] <= t.cpu.vcpuIds
  {
    forall i | 0 <= i < |s.avail| && t.cpu.cores[i] == {} ensures s.avail[i] !! t.cpu.vcpuIds {
      forall c | c in s.avail[i] ensures c !in t.cpu.vcpuIds { assert c in t.avail[i] && Holds(t.avail, c); }
    }
    forall i | 0 <= i < |s.avail| && t.cpu.cores[i] != {} ensures !(s.avail[i] !! t.cpu.vcpuIds) {
      var c :| c in t.cpu.cores[i] * t.cpu.vcpuIds;
    }
  }

  // ----- A list of vCPUs -----

  /** The vCPU can be given: it is within the limit and its core is in the pool. */
  ghost predicate InPool(s: Shares, k: nat, id: nat) { id < |s.avail| * k && Known(s, id) }

  lemma GivenIff(s: Shares, k: nat, v: nat)
    requires Sound(s) && v > 0
    ensures Reserve(s.avail, s.cpu, k, v).outcome.Chosen? <==> InPool(s, k, v) && v !in s.cpu.vcpuIds
  {
    GivenExact(s.avail, s.cpu, k, v);
  }

  lemma DistinctSnoc(ids: seq<nat>, v: nat)
    ensures Distinct(ids + [v]) <==> Distinct(ids) && v !in ids
  {
    if Distinct(ids + [v]) {
      forall i | 0 <= i < |ids| ensures ids[i] != v { assert (ids + [v])[i] != (ids + [v])[|ids|]; }
      forall i, j | 0 <= i < j < |ids| ensures ids[i] != ids[j] { assert (ids + [v])[i] != (ids + [v])[j]; }
    }
  }

  lemma GivenAsAsked(s: Shares, ids: seq<nat>, t: Shares, given: seq<nat>)
    requires Added(s, ids, t, given) && s.cpu.vcpuIds == {} && 0 !in ids
    ensures given == ids && t.cpu.vcpuIds == SetOf(ids)
  {
    Positive(ids);
    assert given == ids;
    assert {} + SetOf(ids) == SetOf(ids);
  }

  lemma Positive(ids: seq<nat>)
    requires 0 !in ids
    ensures forall i :: 0 <= i < |ids| ==> ids[i] > 0
  {
    forall i | 0 <= i < |ids| ensures ids[i] > 0 { assert ids[i] in ids; }
  }

  lemma SamePool(s: Shares, k: nat, t: Shares, v: nat)
    requires SameThreads(s, t) && |s.avail| == |s.cpu.cores| && |t.avail| == |t.cpu.cores|
    ensures InPool(t, k, v) <==> InPool(s, k, v)
  {
    assert Known(t, v) <==> Known(s, v);
  }

  lemma NextGiven(s: Shares, k: nat, ids: seq<nat>, v: nat)
    requires Sound(s) && s.cpu.vcpuIds == {} && 0 !in ids && v > 0 && AddAll(s, k, ids).Some?
    ensures AddAll(s, k, ids + [v]).Some? <==> InPool(s, k, v) && v !in ids
  {
    AddAllSound(s, k, ids);
    var (t, given) := AddAll(s, k, ids).value;
    GivenAsAsked(s, ids, t, given);
    SamePool(s, k, t, v);
    GivenIff(t, k, v);
    AddedSnoc(s, k, ids, v);
  }

  /** A list of vCPUs can be had exactly if they are different and in the pool. */
  lemma {:induction false} ListFits(s: Shares, k: nat, ids: seq<nat>)
    requires Sound(s) && s.cpu.vcpuIds == {} && 0 !in ids
    ensures AddAll(s, k, ids).Some? <==> Distinct(ids) && forall id :: id in ids ==> InPool(s, k, id)
  {
    if ids != [] {
      var init, v := ids[..|ids| - 1], ids[|ids| - 1];
      ListFits(s, k, init);
      assert ids == init + [v];
      DistinctSnoc(init, v);
      AddedSnoc(s, k, init, v);
      if AddAll(s, k, init).Some? { NextGiven(s, k, init, v); }
    }
  }

  // ----- Full cores -----

  /** At most core `p` is not fully donated, and it has a vCPU. */
  ghost predicate OnlyPartial(cpu: Cpus, p: int) {
    && (forall i :: 0 <= i < |cpu.cores| && i != p ==> AutoVcpu.Donated(cpu, i))
    && (0 <= p < |cpu.cores| && cpu.cores[p] != {} ==> cpu.cores[p] * cpu.vcpuIds != {})
  }

  /** Choosing from held cores goes on with the core that is not fully donated. */
  lemma PartialGoesOn(s: Shares, sel: Selection, p: int, i: int)
    requires OnlyPartial(s.cpu, p) && sel.outcome.Chosen? && Untouched(s.avail, s.cpu.cores, sel)
    requires 0 <= i < |s.cpu.cores| && sel.outcome.vcpu in s.cpu.cores[i] - s.cpu.vcpuIds
    ensures OnlyPartial(Selected(s, sel, true).cpu, p)
  {
    var cpu := Selected(s, sel, true).cpu;
    assert !AutoVcpu.Donated(s.cpu, i);
    assert i == p && sel.outcome.vcpu in cpu.cores[p] * cpu.vcpuIds;
    forall j | 0 <= j < |cpu.cores| && j != p ensures AutoVcpu.Donated(cpu, j) { assert AutoVcpu.Donated(s.cpu, j); }
  }

  /** A core is taken when all others are fully donated. */
  lemma PartialStarts(s: Shares, sel: Selection, i: int)
    requires Sound(s) && TookCore(s.avail, s.cpu.cores, sel, i) && sel.outcome.Chosen?
    requires sel.outcome.vcpu in sel.cores[i] && forall c :: Holds(s.cpu.cores, c) ==> c in s.cpu.vcpuIds
    ensures OnlyPartial(Selected(s, sel, true).cpu, i)
  {
    var cpu := Selected(s, sel, true).cpu;
    assert sel.outcome.vcpu in cpu.cores[i] * cpu.vcpuIds;
    forall j | 0 <= j < |cpu.cores| && j != i ensures AutoVcpu.Donated(cpu, j) {
      forall c | c in cpu.cores[j] ensures c in cpu.vcpuIds { assert Holds(s.cpu.cores, c); }
    }
  }

  lemma AutoPartial(s: Shares, k: nat, p: int) returns (q: int)
    requires Sound(s) && k > 0 && OnlyPartial(s.cpu, p) && Reserve(s.avail, s.cpu, k, 0).outcome.Chosen?
    ensures OnlyPartial(Selected(s, Reserve(s.avail, s.cpu, k, 0), true).cpu, q)
  {
    var sel := Reserve(s.avail, s.cpu, k, 0);
    AutoExact(s.avail, s.cpu, k);
    if exists c :: Holds(s.cpu.cores, c) && c !in s.cpu.vcpuIds {
      var i :| 0 <= i < |s.cpu.cores| && IsMin(s.cpu.cores[i] - s.cpu.vcpuIds, sel.outcome.vcpu)
               && forall j :: 0 <= j < i ==> s.cpu.cores[j] <= s.cpu.vcpuIds;
      PartialGoesOn(s, sel, p, i);
      q := p;
    } else {
      q :| TookCore(s.avail, s.cpu.cores, sel, q) && IsMin(sel.cores[q], sel.outcome.vcpu)
           && forall j :: 0 <= j < q ==> s.avail[j] == {};
      PartialStarts(s, sel, q);
    }
  }

  lemma {:induction false} CountPartial(s: Shares, k: nat, n: nat) returns (p: int)
    requires New(s, k) && AddAll(s, k, Zeros(n)).Some?
    ensures OnlyPartial(AddAll(s, k, Zeros(n)).value.0.cpu, p)
  {
    p := -1;
    if n > 0 {
      assert Zeros(n) == Zeros(n - 1) + [0];
      AddedSnoc(s, k, Zeros(n - 1), 0);
      p := CountPartial(s, k, n - 1);
      AddAllSound(s, k, Zeros(n - 1));
      p := AutoPartial(AddAll(s, k, Zeros(n - 1)).value.0, k, p);
    }
  }

  // ----- What a new enclave gets -----

  lemma NewSpare(s: Shares, k: nat)
    requires New(s, k)
    ensures Spare(s) == Union(s.avail)
  {
    forall c ensures !Holds(s.cpu.cores, c) { }
  }

  /** A new enclave can get `n` vCPUs exactly if the pool has as many threads. They are then full cores exactly if `n`
      is a multiple of the threads per core. */
  lemma CountExact(s: Shares, k: nat, n: nat)
    requires New(s, k)
    ensures var r := AddAll(s, k, Arguments(Count(n)));
            && (r.Some? <==> n <= |Union(s.avail)|)
            && (r.Some? ==> r.value.0.cpu.nrVcpus == n && (FullCores(r.value.0.cpu) <==> n % k == 0))
  {
    CountFits(s, k, n);
    NewSpare(s, k);
    if AddAll(s, k, Zeros(n)).Some? {
      AddAllSound(s, k, Zeros(n));
      AddAllTook(s, k, Zeros(n));
      var p := CountPartial(s, k, n);
      PartialMultiple(s, k, AddAll(s, k, Zeros(n)).value.0, p);
    }
  }

  lemma PartialMultiple(s: Shares, k: nat, t: Shares, p: int)
    requires New(s, k) && Sound(t) && Took(s, t) && OnlyPartial(t.cpu, p)
    ensures FullCores(t.cpu) <==> t.cpu.nrVcpus % k == 0
  {
    forall i | 0 <= i < |t.cpu.cores| ensures t.cpu.cores[i] == {} || |t.cpu.cores[i]| == k { }
    AutoVcpu.MultipleIff(t.cpu, k, p);
  }

  /** A new enclave can get a list of vCPUs exactly if they are different, within the limit and in the pool. They are
      then its vCPUs, and full cores exactly if the list has, core by core, all threads of the core or none. */
  lemma ListExact(s: Shares, k: nat, ids: seq<nat>)
    requires New(s, k) && 0 !in ids
    ensures var r := AddAll(s, k, Arguments(List(ids)));
            && (r.Some? <==> Distinct(ids) && forall id :: id in ids ==> id < |s.avail| * k && Holds(s.avail, id))
            && (r.Some? ==>
                  && r.value.1 == ids && r.value.0.cpu.vcpuIds == SetOf(ids) && r.value.0.cpu.nrVcpus == |ids|
                  && (FullCores(r.value.0.cpu) <==>
                        forall i :: 0 <= i < |s.avail| ==> s.avail[i] !! SetOf(ids) || s.avail[i] <= SetOf(ids)))
  {
    ListFits(s, k, ids);
    forall c ensures !Holds(s.cpu.cores, c) { }
    var r := AddAll(s, k, ids);
    if r.Some? {
      AddAllSound(s, k, ids);
      GivenAsAsked(s, ids, r.value.0, r.value.1);
      AddAllTook(s, k, ids);
      FullExact(s, k, r.value.0);
    }
  }

  /** There are vCPUs, and all threads of the enclave's cores are among them. */
  ghost predicate CpusFit(cpu: Cpus) { cpu.nrVcpus > 0 && forall c :: Holds(cpu.cores, c) ==> c in cpu.vcpuIds }

  /** The configuration fits the pool: a multiple of the threads per core that the pool has, or different vCPUs of the
      pool that are, core by core, all threads of the core or none. */
  ghost predicate Granted(s: Shares, k: nat, config: CpuConfig)
    requires k > 0
  {
    match config
    case Count(n) => 0 < n <= |Union(s.avail)| && n % k == 0
    case List(ids) =>
      && ids != [] && Distinct(ids) && (forall id :: id in ids ==> id < |s.avail| * k && Holds(s.avail, id))
      && forall i :: 0 <= i < |s.avail| ==> s.avail[i] !! SetOf(ids) || s.avail[i] <= SetOf(ids)
  }

  /** A new enclave gets vCPUs with which it can be started exactly if the configuration fits the pool. */
  lemma GrantedExact(s: Shares, k: nat, config: CpuConfig)
    requires New(s, k) && (config.List? ==> 0 !in config.ids)
    ensures var r := AddAll(s, k, Arguments(config));
            r.Some? && CpusFit(r.value.0.cpu) <==> Granted(s, k, config)
  {
    match config
    case Count(n) => CountExact(s, k, n);
    case List(ids) => ListExact(s, k, ids);
    var r := AddAll(s, k, Arguments(config));
    if r.Some? { FullCoresExact(r.value.0.cpu); }
  }

  // ----- The loop -----

  function SharesOf(cpus: EnclaveCpus, pool: CpuPool): Shares
    reads cpus, pool
  {
    Shares(pool.avail, cpus.View())
  }

  lemma StillBounded(s: Shares, t: Shares, n: nat)
    requires SameThreads(s, t) && Bounded(s.avail, n) && Bounded(s.cpu.cores, n)
    ensures Bounded(t.avail, n) && Bounded(t.cpu.cores, n)
  {
    forall i, c | 0 <= i < |t.avail| && c in t.avail[i] ensures c < n {
      assert Holds(t.avail, c) && Known(t, c);
      assert Known(s, c);
    }
    forall i, c | 0 <= i < |t.cpu.cores| && c in t.cpu.cores[i] ensures c < n {
      assert Holds(t.cpu.cores, c) && Known(t, c);
      assert Known(s, c);
    }
  }

  /** The driver's view is in order. */
  ghost predicate Ready(cpus: EnclaveCpus, pool: CpuPool)
    reads cpus, pool
  {
    pool.Valid() && cpus.Valid(pool.nrCpuIds) && Sound(SharesOf(cpus, pool))
  }

  /** `init_single_cpu`. */
  method InitCpu(v: nat, cpus: EnclaveCpus, pool: CpuPool, deviceOk: bool) returns (id: Option<nat>)
    requires Ready(cpus, pool)
    modifies cpus, pool`avail
    ensures Ready(cpus, pool) && SameThreads(old(SharesOf(cpus, pool)), SharesOf(cpus, pool))
    ensures cpus.nrThreadsPerCore == old(cpus.nrThreadsPerCore)
    ensures var s := old(SharesOf(cpus, pool));
            var sel := Reserve(s.avail, s.cpu, cpus.nrThreadsPerCore, v);
            && SharesOf(cpus, pool) == Selected(s, sel, deviceOk)
            && id == if sel.outcome.Chosen? && deviceOk then Some(sel.outcome.vcpu) else None
  {
    ghost var s, k := SharesOf(cpus, pool), cpus.nrThreadsPerCore;
    SelectionIsSound(s, k, v, deviceOk);
    StillBounded(s, Selected(s, Reserve(s.avail, s.cpu, k, v), deviceOk), pool.nrCpuIds);
    var out := cpus.AddVcpu(pool, v, deviceOk);
    id := if out.Chosen? then Some(out.vcpu) else None;
  }

  lemma SameTrans(s: Shares, t: Shares, u: Shares)
    requires SameThreads(s, t) && SameThreads(t, u)
    ensures SameThreads(s, u)
  {
    forall c ensures Known(u, c) <==> Known(s, c) { assert Known(t, c) <==> Known(s, c); }
  }

  /** The loop got through the first `i` additions. */
  ghost predicate Done(s: Shares, k: nat, args: seq<nat>, i: nat, t: Shares, ids: seq<nat>) {
    i <= |args| && AddAll(s, k, args[..i]) == Some((t, ids))
  }

  lemma DoneOne(s: Shares, k: nat, args: seq<nat>, i: nat, t: Shares, ids: seq<nat>)
    requires i < |args| && Done(s, k, args, i, t, ids)
    ensures var sel := Reserve(t.avail, t.cpu, k, args[i]);
            if sel.outcome.Chosen? then Done(s, k, args, i + 1, Selected(t, sel, true), ids + [sel.outcome.vcpu])
            else AddAll(s, k, args).None?
  {
    assert args[..i + 1] == args[..i] + [args[i]];
    AddedSnoc(s, k, args[..i], args[i]);
    if AddAll(s, k, args[..i + 1]).None? { FailureStays(s, k, args, i + 1); }
  }

  lemma AllDone(s: Shares, k: nat, args: seq<nat>, t: Shares, ids: seq<nat>)
    requires Done(s, k, args, |args|, t, ids)
    ensures AddAll(s, k, args) == Some((t, ids))
  {
    assert args[..|args|] == args;
  }

  /** `init_cpus`; the device accepts the first `accepts` vCPUs. It succeeds exactly if every addition does and the
      device accepts them all. Either way the shares stay sound and no thread is lost. */
  method InitCpus(config: CpuConfig, cpus: EnclaveCpus, pool: CpuPool, accepts: nat)
    returns (ok: bool, ids: seq<nat>)
    requires Ready(cpus, pool)
    modifies cpus, pool`avail
    ensures Ready(cpus, pool) && SameThreads(old(SharesOf(cpus, pool)), SharesOf(cpus, pool))
    ensures var r := old(AddAll(SharesOf(cpus, pool), cpus.nrThreadsPerCore, Arguments(config)));
            && (ok <==> r.Some? && |Arguments(config)| <= accepts)
            && (ok ==> r.value == (SharesOf(cpus, pool), ids))
  {
    ghost var s, k := SharesOf(cpus, pool), cpus.nrThreadsPerCore;
    var args := Arguments(config);
    ids := [];
    for i := 0 to |args|
      invariant Ready(cpus, pool) && SameThreads(s, SharesOf(cpus, pool)) && cpus.nrThreadsPerCore == k
      invariant Done(s, k, args, i, SharesOf(cpus, pool), ids)
      invariant i <= accepts
    {
      ghost var t := SharesOf(cpus, pool);
      DoneOne(s, k, args, i, t, ids);
      var id := InitCpu(args[i], cpus, pool, i < accepts);
      SameTrans(s, t, SharesOf(cpus, pool));
      if id.None? { return false, ids; }
      ids := ids + [id.value];
    }
    AllDone(s, k, args, SharesOf(cpus, pool), ids);
    ok := true;
  }
}
