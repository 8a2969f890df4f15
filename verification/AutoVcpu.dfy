/** Enclaves whose vCPUs are all chosen by the driver (NE_ADD_VCPU with id 0). */
module AutoVcpu {
  import opened NeTypes
  import opened CpuSelect
  import opened NeSystem
  import opened NeTheorems
  import PoolSetup

  /** Every thread of core `i` is donated. */
  predicate Donated(cpu: Cpus, i: nat)
    requires i < |cpu.cores|
  {
    cpu.cores[i] <= cpu.vcpuIds
  }

  /** At most core `p` is not fully donated, and a waiting vCPU belongs to it. */
  ghost predicate OnePartial(e: Enclave, p: int) {
    && (forall i :: 0 <= i < |e.cpu.cores| && i != p ==> Donated(e.cpu, i))
    && (e.pending.Some? ==> 0 <= p < |e.cpu.cores| && e.pending.value in e.cpu.cores[p])
  }

  ghost predicate AutoOk(e: Enclave) { exists p :: OnePartial(e, p) }

  /** Every held core has a donated thread, or its first one waits for the device. */
  ghost predicate Begun(e: Enclave) {
    forall i :: 0 <= i < |e.cpu.cores| && e.cpu.cores[i] != {} ==>
      e.cpu.cores[i] * e.cpu.vcpuIds != {} || (e.pending.Some? && e.pending.value in e.cpu.cores[i])
  }

  /** All NE_ADD_VCPU calls of enclave `u` leave the choice to the driver. */
  predicate OnlyAuto(steps: seq<Step>, u: nat) {
    forall i :: 0 <= i < |steps| && steps[i].ReserveVcpu? && steps[i].uid == u ==> steps[i].vcpu == 0
  }

  /** The device accepts every vCPU of enclave `u`. */
  predicate NoDeviceErrors(steps: seq<Step>, u: nat) {
    forall i :: 0 <= i < |steps| && steps[i].RecordVcpu? && steps[i].uid == u ==> steps[i].ok
  }

  /** Without a free sibling, every core is fully donated. */
  lemma NoPartial(cpu: Cpus)
    requires FirstPartial(cpu.cores, cpu.vcpuIds) < 0
    ensures forall i :: 0 <= i < |cpu.cores| ==> Donated(cpu, i)
  {
    forall i | 0 <= i < |cpu.cores| ensures Donated(cpu, i) {
      assert cpu.cores[i] - cpu.vcpuIds == {};
      forall c | c in cpu.cores[i] ensures c in cpu.vcpuIds { assert c !in cpu.cores[i] - cpu.vcpuIds; }
    }
  }

  /** The enclave holds nothing in the slots of free cores. */
  predicate PoolApart(s: Sys, u: nat)
    requires u in s.enclaves
  {
    forall i :: 0 <= i < |s.avail| && i < |s.enclaves[u].cpu.cores| && s.avail[i] != {} ==>
      s.enclaves[u].cpu.cores[i] == {}
  }

  lemma AutoReserve(s: Sys, u: nat)
    requires Idle(s, u) && AutoOk(s.enclaves[u])
    ensures AutoOk(NextReserve(s, u, 0).enclaves[u])
    ensures Begun(s.enclaves[u]) && PoolApart(s, u) ==> Begun(NextReserve(s, u, 0).enclaves[u])
  {
    var e, e' := s.enclaves[u], NextReserve(s, u, 0).enclaves[u];
    var cpu := e.cpu;
    var p := FirstPartial(cpu.cores, cpu.vcpuIds);
    var sel := Reserve(s.avail, cpu, e.threadsPerCore, 0);
    var q :| OnePartial(e, q);
    if sel.outcome.Refused? {
      assert OnePartial(e', q);
    } else if p >= 0 {
      assert !Donated(cpu, p) by { assert Min(cpu.cores[p] - cpu.vcpuIds) in cpu.cores[p]; }
      assert OnePartial(e', p);
    } else {
      NoPartial(cpu);
      var f := FirstFree(s.avail);
      assert e'.cpu.cores == cpu.cores[f := cpu.cores[f] + s.avail[f]];
      assert OnePartial(e', f) by {
        forall i | 0 <= i < |cpu.cores| && i != f ensures Donated(e'.cpu, i) { assert Donated(cpu, i); }
      }
    }
  }

  lemma AutoRecord(e: Enclave, ok: bool)
    requires AutoOk(e) && e.pending.Some?
    ensures var e' := e.(cpu := if ok then Record(e.cpu, e.pending.value) else e.cpu, pending := None);
            AutoOk(e') && (ok && Begun(e) ==> Begun(e'))
  {
    var e' := e.(cpu := if ok then Record(e.cpu, e.pending.value) else e.cpu, pending := None);
    var p :| OnePartial(e, p);
    assert OnePartial(e', p) by {
      forall i | 0 <= i < |e.cpu.cores| && i != p ensures Donated(e'.cpu, i) { assert Donated(e.cpu, i); }
    }
    if ok && Begun(e) {
      forall i | 0 <= i < |e.cpu.cores| && e.cpu.cores[i] != {} ensures e.cpu.cores[i] * e'.cpu.vcpuIds != {} {
        if e.pending.value in e.cpu.cores[i] {
          assert e.pending.value in e.cpu.cores[i] * e'.cpu.vcpuIds;
        } else {
          var c :| c in e.cpu.cores[i] * e.cpu.vcpuIds;
          assert c in e.cpu.cores[i] * e'.cpu.vcpuIds;
        }
      }
    }
  }

  /** In a good state a core of the pool is not in the enclave. */
  lemma PoolCoreNotHeld(s: Sys, u: nat)
    requires Inv(s) && u in s.enclaves
    ensures EnclaveOk(s, s.enclaves[u]) && PoolApart(s, u)
  {
    var owner: seq<Place> :| Placed(s, owner);
    assert HasShare(s.enclaves[u].cpu.cores, s.layout, owner, u);
  }

  lemma OtherStep(s: Sys, step: Step, u: nat)
    requires u in s.enclaves && u in Next(s, step).enclaves
    requires !(step.ReserveVcpu? && step.uid == u) && !(step.RecordVcpu? && step.uid == u)
    ensures var e, e' := s.enclaves[u], Next(s, step).enclaves[u]; e'.cpu == e.cpu && e'.pending == e.pending
  {
  }

  lemma AutoStep(s: Sys, step: Step, u: nat)
    requires u in s.enclaves && u in Next(s, step).enclaves && AutoOk(s.enclaves[u])
    requires step.ReserveVcpu? && step.uid == u ==> step.vcpu == 0
    ensures AutoOk(Next(s, step).enclaves[u])
    ensures Begun(s.enclaves[u]) && PoolApart(s, u) && !(step.RecordVcpu? && step.uid == u && !step.ok) ==>
      Begun(Next(s, step).enclaves[u])
  {
    if step.ReserveVcpu? && step.uid == u {
      if Idle(s, u) { AutoReserve(s, u); }
    } else if step.RecordVcpu? && step.uid == u {
      if s.enclaves[u].pending.Some? { AutoRecord(s.enclaves[u], step.ok); }
    } else {
      OtherStep(s, step, u);
      var p :| OnePartial(s.enclaves[u], p);
      assert OnePartial(Next(s, step).enclaves[u], p);
    }
  }

  /** Whatever the other enclaves, the administrator and the device do, at most one held core is not fully donated. */
  lemma {:induction false} AutoRun(s: Sys, steps: seq<Step>, u: nat)
    requires Present(s, steps, u) && OnlyAuto(steps, u) && AutoOk(s.enclaves[u])
    ensures u in Run(s, steps).enclaves && AutoOk(Run(s, steps).enclaves[u])
    decreases |steps|
  {
    if steps != [] {
      assert u in Next(s, steps[0]).enclaves;
      AutoStep(s, steps[0], u);
      assert OnlyAuto(steps[1..], u);
      AutoRun(Next(s, steps[0]), steps[1..], u);
    }
  }

  /** In a harmless run without device errors every held core has a donated or waiting thread as well. */
  lemma {:induction false} BegunRun(s: Sys, steps: seq<Step>, u: nat)
    requires Inv(s) && Harmless(s, steps) && Present(s, steps, u) && OnlyAuto(steps, u) && NoDeviceErrors(steps, u)
    requires AutoOk(s.enclaves[u]) && Begun(s.enclaves[u])
    ensures u in Run(s, steps).enclaves && Inv(Run(s, steps)) && Begun(Run(s, steps).enclaves[u])
    decreases |steps|
  {
    if steps != [] {
      StepKeeps(s, steps[0]);
      PoolCoreNotHeld(s, u);
      assert u in Next(s, steps[0]).enclaves;
      AutoStep(s, steps[0], u);
      assert OnlyAuto(steps[1..], u) && NoDeviceErrors(steps[1..], u);
      BegunRun(Next(s, steps[0]), steps[1..], u);
    }
  }

  lemma FreshIsAuto(e: Enclave)
    requires (forall i :: 0 <= i < |e.cpu.cores| ==> e.cpu.cores[i] == {}) && e.pending.None?
    ensures AutoOk(e) && Begun(e)
  {
    assert OnePartial(e, -1);
  }

  // ----- Counting donated threads -----

  /** The donated threads of the first `n` cores. */
  function DonatedUpTo(cpu: Cpus, n: nat): nat
    requires n <= |cpu.cores|
  {
    if n == 0 then 0 else DonatedUpTo(cpu, n - 1) + |cpu.cores[n - 1] * cpu.vcpuIds|
  }

  lemma {:induction false} CountDonated(cpu: Cpus, used: CpuSet, n: nat)
    requires n <= |cpu.cores| && Separate(cpu.cores) && used <= cpu.vcpuIds
    requires forall c :: c in used <==> c in cpu.vcpuIds && Holds(cpu.cores[..n], c)
    ensures |used| == DonatedUpTo(cpu, n)
  {
    if n == 0 {
      assert used == {};
    } else {
      var last := cpu.cores[n - 1] * cpu.vcpuIds;
      HoldsSnoc(cpu.cores, n - 1);
      forall c | c in used - last ensures Holds(cpu.cores[..n - 1], c) { }
      forall c | Holds(cpu.cores[..n - 1], c) ensures c !in last {
        var j :| 0 <= j < n - 1 && c in cpu.cores[..n - 1][j];
        assert c in cpu.cores[j];
      }
      CountDonated(cpu, used - last, n - 1);
      assert used == (used - last) + last;
    }
  }

  /** Whole cores contribute `k` or nothing; core `p` contributes what it donated. */
  lemma {:induction false} DonatedShape(cpu: Cpus, k: nat, p: int, n: nat)
    requires n <= |cpu.cores|
    requires forall i :: 0 <= i < |cpu.cores| ==> cpu.cores[i] == {} || |cpu.cores[i]| == k
    requires forall i :: 0 <= i < |cpu.cores| && i != p ==> Donated(cpu, i)
    ensures exists m: nat :: DonatedUpTo(cpu, n) ==
              PoolSetup.Threads(m, k) + (if 0 <= p < n then |cpu.cores[p] * cpu.vcpuIds| else 0)
  {
    if n == 0 {
      assert DonatedUpTo(cpu, 0) == PoolSetup.Threads(0, k);
    } else {
      DonatedShape(cpu, k, p, n - 1);
      var m: nat :| DonatedUpTo(cpu, n - 1) ==
              PoolSetup.Threads(m, k) + (if 0 <= p < n - 1 then |cpu.cores[p] * cpu.vcpuIds| else 0);
      if n - 1 != p {
        assert Donated(cpu, n - 1) && cpu.cores[n - 1] * cpu.vcpuIds == cpu.cores[n - 1];
        var m' := if cpu.cores[n - 1] == {} then m else m + 1;
        assert PoolSetup.Threads(m + 1, k) == PoolSetup.Threads(m, k) + k;
        assert DonatedUpTo(cpu, n) ==
               PoolSetup.Threads(m', k) + (if 0 <= p < n then |cpu.cores[p] * cpu.vcpuIds| else 0);
      }
    }
  }

  lemma ThreadsMod(m: nat, k: nat, r: nat)
    requires r < k
    ensures (PoolSetup.Threads(m, k) + r) % k == r
    decreases m
  {
    if m > 0 {
      ThreadsMod(m - 1, k, r);
      PoolSetup.DivStep(PoolSetup.Threads(m, k) + r, k);
    }
  }

  lemma PartialBounds(core: CpuSet, used: CpuSet)
    requires core * used != {} && !(core <= used)
    ensures 0 < |core * used| < |core|
  {
    var c :| c in core && c !in used;
    assert c in core - used;
    assert (core * used) + (core - used) == core;
  }

  lemma CountIs(cpu: Cpus, k: nat, p: int) returns (m: nat)
    requires Separate(cpu.cores) && forall c :: c in cpu.vcpuIds ==> Holds(cpu.cores, c)
    requires forall i :: 0 <= i < |cpu.cores| ==> cpu.cores[i] == {} || |cpu.cores[i]| == k
    requires forall i :: 0 <= i < |cpu.cores| && i != p ==> Donated(cpu, i)
    ensures |cpu.vcpuIds| ==
            PoolSetup.Threads(m, k) + (if 0 <= p < |cpu.cores| then |cpu.cores[p] * cpu.vcpuIds| else 0)
  {
    var n := |cpu.cores|;
    assert cpu.cores[..n] == cpu.cores;
    CountDonated(cpu, cpu.vcpuIds, n);
    DonatedShape(cpu, k, p, n);
    m :| DonatedUpTo(cpu, n) ==
         PoolSetup.Threads(m, k) + (if 0 <= p < n then |cpu.cores[p] * cpu.vcpuIds| else 0);
  }

  /** At most core `p` is partial, and it has a donated thread: the count is a multiple of `k` exactly if it is full. */
  lemma MultipleIff(cpu: Cpus, k: nat, p: int)
    requires Separate(cpu.cores) && forall c :: c in cpu.vcpuIds ==> Holds(cpu.cores, c)
    requires k > 0 && forall i :: 0 <= i < |cpu.cores| ==> cpu.cores[i] == {} || |cpu.cores[i]| == k
    requires forall i :: 0 <= i < |cpu.cores| && i != p ==> Donated(cpu, i)
    requires 0 <= p < |cpu.cores| && cpu.cores[p] != {} ==> cpu.cores[p] * cpu.vcpuIds != {}
    ensures FullCores(cpu) <==> |cpu.vcpuIds| % k == 0
  {
    var m := CountIs(cpu, k, p);
    if 0 <= p < |cpu.cores| && !Donated(cpu, p) {
      assert cpu.cores[p] != {};
      PartialBounds(cpu.cores[p], cpu.vcpuIds);
      ThreadsMod(m, k, |cpu.cores[p] * cpu.vcpuIds|);
      var c :| c in cpu.cores[p] && c !in cpu.vcpuIds;
      assert !FullCores(cpu);
    } else {
      FullIsMultiple(cpu, k, p, m);
    }
  }

  /** With driver-chosen vCPUs and no device errors, between two additions the full-core check of
      NE_START_ENCLAVE passes exactly when the number of vCPUs is a multiple of the threads per core. */
  lemma FullCoresIffMultiple(s: Sys, steps: seq<Step>, u: nat)
    requires Inv(s) && Harmless(s, steps) && Present(s, steps, u) && OnlyAuto(steps, u) && NoDeviceErrors(steps, u)
    requires (forall i :: 0 <= i < |s.enclaves[u].cpu.cores| ==> s.enclaves[u].cpu.cores[i] == {}) && Idle(s, u)
    ensures u in Run(s, steps).enclaves
    ensures var s' := Run(s, steps);
            Idle(s', u) && s'.threadsPerCore > 0 ==>
              (FullCores(s'.enclaves[u].cpu) <==> s'.enclaves[u].cpu.nrVcpus % s'.threadsPerCore == 0)
  {
    FreshIsAuto(s.enclaves[u]);
    AutoRun(s, steps, u);
    BegunRun(s, steps, u);
    var s' := Run(s, steps);
    if Idle(s', u) && s'.threadsPerCore > 0 {
      var e := s'.enclaves[u];
      PoolCoreNotHeld(s', u);
      HeldCoresWhole(s', u);
      var p :| OnePartial(e, p);
      MultipleIff(e.cpu, s'.threadsPerCore, p);
    }
  }

  lemma FullIsMultiple(cpu: Cpus, k: nat, p: int, m: nat)
    requires k > 0 && forall i :: 0 <= i < |cpu.cores| ==> cpu.cores[i] == {} || |cpu.cores[i]| == k
    requires forall i :: 0 <= i < |cpu.cores| ==> Donated(cpu, i)
    ensures FullCores(cpu)
    ensures (PoolSetup.Threads(m, k) + (if 0 <= p < |cpu.cores| then |cpu.cores[p] * cpu.vcpuIds| else 0)) % k == 0
  {
    forall i, c | 0 <= i < |cpu.cores| && c in cpu.cores[i] ensures c in cpu.vcpuIds { assert Donated(cpu, i); }
    ThreadsMod(m, k, 0);
    if 0 <= p < |cpu.cores| {
      assert Donated(cpu, p) && cpu.cores[p] * cpu.vcpuIds == cpu.cores[p];
      ThreadsMod(m + 1, k, 0);
    }
  }

  lemma HeldCoresWhole(s: Sys, u: nat)
    requires Inv(s) && u in s.enclaves
    ensures Separate(s.enclaves[u].cpu.cores)
    ensures forall i :: 0 <= i < |s.enclaves[u].cpu.cores| ==>
              s.enclaves[u].cpu.cores[i] == {} || |s.enclaves[u].cpu.cores[i]| == s.threadsPerCore
  {
    var owner: seq<Place> :| Placed(s, owner);
    var cores := s.enclaves[u].cpu.cores;
    assert HasShare(cores, s.layout, owner, u);
    forall i, j, c | 0 <= i < |cores| && 0 <= j < |cores| && c in cores[i] && c in cores[j] ensures i == j {
      assert c in s.layout[i] && c in s.layout[j];
    }
  }

  /** A driver-chosen addition is refused exactly when every held thread is donated and the pool is empty. */
  lemma AutoRefusedIff(avail: seq<CpuSet>, cpu: Cpus, k: nat)
    requires |cpu.cores| == |avail| && k > 0
    ensures Reserve(avail, cpu, k, 0).outcome.Refused? <==>
            FullCores(cpu) && forall i :: 0 <= i < |avail| ==> avail[i] == {}
  {
    if |avail| > 0 {
      assert |cpu.cores| * k > 0;
      var p := FirstPartial(cpu.cores, cpu.vcpuIds);
      if p >= 0 {
        var c := Min(cpu.cores[p] - cpu.vcpuIds);
        assert c in cpu.cores[p] && c !in cpu.vcpuIds;
      } else {
        NoPartial(cpu);
        forall i, c | 0 <= i < |cpu.cores| && c in cpu.cores[i] ensures c in cpu.vcpuIds { assert Donated(cpu, i); }
      }
    }
  }
}
