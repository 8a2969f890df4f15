/** Broadcasting a command to all enclave processes and collecting their answers:
    `enclave_proc_command_send_all` and `enclave_process_handle_all_replies` of `enclave_proc_comm.rs`.
    Connections are numbered in the order in which they were opened. */
module Broadcast {
  import opened NeTypes

  /** MSG_ENCLAVE_CONFIRM. */
  const CONFIRM: nat := 0xEEC0

  /** One `epoll_wait` and, when a descriptor is ready, its removal from epoll. `pick` says which of the
      descriptors that are still registered it is. */
  datatype Wait = Timeout | WaitError | Ready(pick: nat, removed: bool)

  /** What a process answers on its connection: the 64-bit confirmation that can be read, the object its
      standard output decodes to, and its last status. */
  datatype Process<T> = Process(sent: bool, confirmation: Option<nat>, json: Option<T>, status: Option<int>)

  predicate Confirms<T>(p: Process<T>) { p.sent && p.confirmation == Some(CONFIRM) }

  predicate Answers<T>(p: Process<T>) { p.json.Some? && p.status.Some? }

  predicate Succeeds<T>(p: Process<T>, allowed: set<int>) {
    Confirms(p) && Answers(p) && p.status.value in allowed
  }

  /** The numbers are those of the first `n` connections. */
  ghost predicate Below(ids: seq<nat>, n: nat) {
    forall i :: 0 <= i < |ids| ==> ids[i] < n
  }

  /** Distinct connections among the first `n` are no more than `n`; exactly `n` of them are all. */
  lemma {:induction false} Pigeonhole(ids: seq<nat>, n: nat)
    requires Distinct(ids) && Below(ids, n)
    ensures |ids| <= n
    ensures |ids| == n ==> forall c :: 0 <= c < n ==> c in ids
  {
    if ids != [] { assert ids[0] < n; }
    if n > 0 {
      if exists k :: 0 <= k < |ids| && ids[k] == n - 1 {
        var k :| 0 <= k < |ids| && ids[k] == n - 1;
        var rest := ids[..k] + ids[k + 1..];
        Pigeonhole(rest, n - 1);
        assert |rest| == |ids| - 1 && forall c :: c in rest ==> c in ids;
      } else {
        Pigeonhole(ids, n - 1);
      }
    }
  }

  lemma {:induction false} AllPresent(ids: seq<nat>, n: nat)
    requires forall c: nat :: c < n ==> c in ids
    ensures |ids| >= n
  {
    if n > 0 {
      var last: nat := n - 1;
      assert last in ids;
      var k :| 0 <= k < |ids| && ids[k] == last;
      var rest := ids[..k] + ids[k + 1..];
      assert forall c :: c in ids <==> c == last || c in rest;
      AllPresent(rest, last);
    }
  }

  /** The number of connections to which the command went out. */
  function SentCount<T>(conns: seq<Process<T>>): nat {
    if conns == [] then 0 else SentCount(conns[..|conns| - 1]) + if conns[|conns| - 1].sent then 1 else 0
  }

  /** The indices of these connections. */
  method SentTo<T>(conns: seq<Process<T>>) returns (ids: seq<nat>)
    ensures Distinct(ids) && Below(ids, |conns|) && |ids| == SentCount(conns)
    ensures forall c: nat :: c in ids <==> c < |conns| && conns[c].sent
  {
    ids := [];
    for i := 0 to |conns|
      invariant Distinct(ids) && Below(ids, i) && |ids| == SentCount(conns[..i])
      invariant forall c: nat :: c in ids <==> c < i && conns[c].sent
    {
      assert conns[..i + 1][..i] == conns[..i];
      if conns[i].sent { ids := ids + [i]; }
    }
    assert conns[..|conns|] == conns;
  }

  predicate Failed(w: Wait) { w.WaitError? || (w.Ready? && !w.removed) }

  /** How many of the first `n` waits found a connection ready. */
  function Readies(waits: nat -> Wait, n: nat): nat {
    if n == 0 then 0 else Readies(waits, n - 1) + if waits(n - 1).Ready? then 1 else 0
  }

  lemma {:induction false} AllReady(waits: nat -> Wait, n: nat)
    requires forall k: nat :: k < n ==> waits(k).Ready?
    ensures Readies(waits, n) == n
  {
    if n > 0 { AllReady(waits, n - 1); }
  }

  /** Those connections that confirm, in order. */
  function Confirming<T>(conns: seq<Process<T>>, ids: seq<nat>): (replies: seq<nat>)
    requires Below(ids, |conns|)
    ensures |replies| <= |ids|
  {
    if ids == [] then []
    else
      var c := ids[|ids| - 1];
      Confirming(conns, ids[..|ids| - 1]) + if conns[c].confirmation == Some(CONFIRM) then [c] else []
  }

  lemma {:induction false} ConfirmingMembers<T>(conns: seq<Process<T>>, ids: seq<nat>)
    requires Below(ids, |conns|)
    ensures forall c :: c in Confirming(conns, ids) <==> c in ids && conns[c].confirmation == Some(CONFIRM)
  {
    if ids != [] {
      var init, c := ids[..|ids| - 1], ids[|ids| - 1];
      ConfirmingMembers(conns, init);
      assert ids == init + [c];
    }
  }

  lemma DistinctSnoc(ids: seq<nat>, c: nat)
    requires Distinct(ids) && c !in ids
    ensures Distinct(ids + [c])
  {
  }

  lemma {:induction false} ConfirmingDistinct<T>(conns: seq<Process<T>>, ids: seq<nat>)
    requires Below(ids, |conns|) && Distinct(ids)
    ensures Distinct(Confirming(conns, ids))
  {
    if ids != [] {
      var init, c := ids[..|ids| - 1], ids[|ids| - 1];
      ConfirmingDistinct(conns, init);
      ConfirmingMembers(conns, init);
      assert c !in init;
      if conns[c].confirmation == Some(CONFIRM) { DistinctSnoc(Confirming(conns, init), c); }
    }
  }

  /** The replies are distinct connections that confirm; if all that got the command were handled, none is missing. */
  lemma RepliesConfirm<T>(conns: seq<Process<T>>, handled: seq<nat>, registered: seq<nat>)
    requires Waiting(conns, handled, registered)
    ensures var replies := Confirming(conns, handled);
            && Distinct(replies) && Below(replies, |conns|)
            && (forall i :: 0 <= i < |replies| ==> Confirms(conns[replies[i]]))
            && (|handled| == SentCount(conns) ==> Complete(conns, replies))
  {
    var replies := Confirming(conns, handled);
    ConfirmingDistinct(conns, handled);
    ConfirmingMembers(conns, handled);
    forall i | 0 <= i < |replies| ensures replies[i] < |conns| && Confirms(conns[replies[i]]) {
      assert replies[i] in handled;
    }
  }

  lemma ConfirmingSnoc<T>(conns: seq<Process<T>>, ids: seq<nat>, c: nat)
    requires Below(ids, |conns|) && c < |conns|
    ensures Below(ids + [c], |conns|)
    ensures Confirming(conns, ids + [c])
         == Confirming(conns, ids) + if conns[c].confirmation == Some(CONFIRM) then [c] else []
  {
    assert (ids + [c])[..|ids|] == ids;
  }

  /** Where the waiting loop stands: every connection that got the command is registered or was handled, not both. */
  ghost predicate Waiting<T>(conns: seq<Process<T>>, handled: seq<nat>, registered: seq<nat>) {
    && Distinct(handled) && Distinct(registered) && Below(handled, |conns|) && Below(registered, |conns|)
    && |handled| + |registered| == SentCount(conns)
    && (forall i :: 0 <= i < |handled| ==> handled[i] !in registered)
    && (forall c: nat :: c in handled || c in registered <==> c < |conns| && conns[c].sent)
  }

  /** No connection that confirms is missing. */
  ghost predicate Complete<T>(conns: seq<Process<T>>, replies: seq<nat>) {
    forall c: nat :: c < |conns| && Confirms(conns[c]) ==> c in replies
  }

  function Without(ids: seq<nat>, at: nat): seq<nat>
    requires at < |ids|
  {
    ids[..at] + ids[at + 1..]
  }

  lemma HandleOne<T>(conns: seq<Process<T>>, handled: seq<nat>, registered: seq<nat>, at: nat)
    requires Waiting(conns, handled, registered) && at < |registered|
    ensures registered[at] < |conns| && Waiting(conns, handled + [registered[at]], Without(registered, at))
  {
    var c, rest := registered[at], Without(registered, at);
    assert c in registered;
    assert forall d :: d in registered <==> d == c || d in rest;
    assert c !in rest;
  }

  /** `enclave_proc_command_send_all`; `waits(k)` is the outcome of the k-th wait. There is one wait for each connection
      that got the command, and the call fails exactly if one of these fails. Each wait that does not time out handles
      another connection, and the replies are exactly the handled ones that confirm; the errors are all others. */
  method SendAll<T>(conns: seq<Process<T>>, waits: nat -> Wait)
    returns (r: Option<(seq<nat>, nat)>, ghost handled: seq<nat>)
    ensures r.None? <==> exists k: nat :: k < SentCount(conns) && Failed(waits(k))
    ensures Distinct(handled) && forall c :: c in handled ==> c < |conns| && conns[c].sent
    ensures r.Some? ==> |handled| == Readies(waits, SentCount(conns)) && Below(handled, |conns|)
    ensures r.Some? ==> r.value.0 == Confirming(conns, handled) && |r.value.0| + r.value.1 == |conns|
    ensures r.Some? ==> Distinct(r.value.0) && Below(r.value.0, |conns|)
    ensures r.Some? ==> forall i :: 0 <= i < |r.value.0| ==> Confirms(conns[r.value.0[i]])
    ensures r.Some? && |handled| == SentCount(conns) ==> Complete(conns, r.value.0)
  {
    handled := [];
    if conns == [] { return Some(([], 0)), []; }
    var registered := SentTo(conns);
    var replies: seq<nat> := [];
    var expected: nat, k: nat := |registered|, 0;
    while expected > 0
      invariant k + expected == SentCount(conns) && expected <= |registered|
      invariant Waiting(conns, handled, registered) && replies == Confirming(conns, handled)
      invariant |handled| == Readies(waits, k)
      invariant forall i: nat :: i < k ==> !Failed(waits(i))
    {
      var wait := waits(k);
      if wait.WaitError? { return None, handled; }
      expected := expected - 1;
      k := k + 1;
      if wait.Timeout? { continue; }
      var at := wait.pick % |registered|;
      var c := registered[at];
      HandleOne(conns, handled, registered, at);
      ConfirmingSnoc(conns, handled, c);
      if conns[c].confirmation == Some(CONFIRM) { replies := replies + [c]; }
      registered, handled := Without(registered, at), handled + [c];
      if !wait.removed { return None, handled; }
    }
    RepliesConfirm(conns, handled, registered);
    Pigeonhole(replies, |conns|);
    r := Some((replies, |conns| - |replies|));
  }

  /** The objects and statuses of the connections that gave both, in order. */
  function Objects<T>(conns: seq<Process<T>>, replies: seq<nat>): (objects: seq<(T, int)>)
    requires Below(replies, |conns|)
    ensures |objects| <= |replies|
  {
    if replies == [] then []
    else
      var c := replies[|replies| - 1];
      Objects(conns, replies[..|replies| - 1])
      + if Answers(conns[c]) then [(conns[c].json.value, conns[c].status.value)] else []
  }

  /** `enclave_proc_handle_outputs`. */
  method HandleOutputs<T>(conns: seq<Process<T>>, replies: seq<nat>) returns (objects: seq<(T, int)>)
    requires Below(replies, |conns|)
    ensures objects == Objects(conns, replies)
  {
    objects := [];
    for i := 0 to |replies|
      invariant objects == Objects(conns, replies[..i])
    {
      assert replies[..i + 1][..i] == replies[..i];
      var p := conns[replies[i]];
      if p.json.Some? {
        if p.status.Some? { objects := objects + [(p.json.value, p.status.value)]; }
      }
    }
    assert replies[..|replies|] == replies;
  }

  /** The objects are those of the replies, one each, in order. */
  ghost predicate LineUp<T>(conns: seq<Process<T>>, replies: seq<nat>, objects: seq<(T, int)>)
    requires Below(replies, |conns|)
  {
    && |objects| == |replies|
    && forall i :: 0 <= i < |replies| ==>
         var p := conns[replies[i]];
         Answers(p) && objects[i] == (p.json.value, p.status.value)
  }

  /** All replies have an object exactly when none is missing from the list, and then they line up. */
  lemma {:induction false} ObjectsAll<T>(conns: seq<Process<T>>, replies: seq<nat>)
    requires Below(replies, |conns|)
    ensures |Objects(conns, replies)| == |replies| <==> forall i :: 0 <= i < |replies| ==> Answers(conns[replies[i]])
    ensures |Objects(conns, replies)| == |replies| ==> LineUp(conns, replies, Objects(conns, replies))
  {
    if replies != [] {
      var init, c := replies[..|replies| - 1], replies[|replies| - 1];
      ObjectsAll(conns, init);
      assert forall i :: 0 <= i < |init| ==> init[i] == replies[i];
      var before := Objects(conns, init);
      assert Objects(conns, replies)
          == before + if Answers(conns[c]) then [(conns[c].json.value, conns[c].status.value)] else [];
    }
  }

  /** `enclave_process_handle_all_replies`: the subtraction cannot underflow, objects and reported failures
      account for all replies and earlier failures, and success means no failure and only allowed statuses. */
  method HandleAllReplies<T>(conns: seq<Process<T>>, replies: seq<nat>, prevFailed: nat, allowed: set<int>)
    returns (r: Option<seq<T>>, failed: nat)
    requires Below(replies, |conns|)
    ensures |Objects(conns, replies)| + failed == |replies| + prevFailed
    ensures r.Some? <==> prevFailed == 0 && forall i :: 0 <= i < |replies| ==>
      Answers(conns[replies[i]]) && conns[replies[i]].status.value in allowed
    ensures r.Some? ==> |r.value| == |replies|
    ensures r.Some? ==> forall i :: 0 <= i < |replies| ==> Some(r.value[i]) == conns[replies[i]].json
  {
    var objects := HandleOutputs(conns, replies);
    failed := prevFailed + |replies| - |objects|;
    ObjectsAll(conns, replies);
    var bad := 0;
    for i := 0 to |objects|
      invariant bad > 0 <==> exists j :: 0 <= j < i && objects[j].1 !in allowed
    {
      if objects[i].1 !in allowed { bad := bad + 1; }
    }
    if bad > 0 {
      r := None;
    } else if failed > 0 {
      r := None;
    } else {
      r := Some(seq(|objects|, i requires 0 <= i < |objects| => objects[i].0));
    }
  }

  lemma EveryoneReplied<T>(conns: seq<Process<T>>, replies: seq<nat>, allowed: set<int>)
    requires Distinct(replies) && Below(replies, |conns|) && |replies| == |conns|
    requires forall i :: 0 <= i < |replies| ==> Succeeds(conns[replies[i]], allowed)
    ensures forall c: nat :: c < |conns| ==> c in replies && Succeeds(conns[c], allowed)
  {
    Pigeonhole(replies, |conns|);
    forall c: nat | c < |conns| ensures c in replies && Succeeds(conns[c], allowed) {
      assert c in replies;
      var i :| 0 <= i < |replies| && replies[i] == c;
    }
  }

  lemma NoneMissing<T>(conns: seq<Process<T>>, replies: seq<nat>, allowed: set<int>)
    requires Distinct(replies) && Below(replies, |conns|) && Complete(conns, replies)
    requires forall c: nat :: c < |conns| ==> Succeeds(conns[c], allowed)
    ensures |replies| == |conns| && forall i :: 0 <= i < |replies| ==> Succeeds(conns[replies[i]], allowed)
  {
    Pigeonhole(replies, |conns|);
    forall c: nat | c < |conns| ensures c in replies { assert Succeeds(conns[c], allowed); }
    AllPresent(replies, |conns|);
  }

  /** A whole broadcast. If it succeeds, the replies, which are distinct, are all the connections, every process
      succeeded, and their objects come in reply order. Without time-outs and epoll errors it succeeds exactly when
      every process does. */
  method Broadcast<T>(conns: seq<Process<T>>, waits: nat -> Wait, allowed: set<int>)
    returns (r: Option<seq<T>>, replies: seq<nat>, failed: nat)
    ensures Distinct(replies) && Below(replies, |conns|)
    ensures forall i :: 0 <= i < |replies| ==> Confirms(conns[replies[i]])
    ensures (forall k: nat :: k < SentCount(conns) ==> !Failed(waits(k))) ==>
      |Objects(conns, replies)| + failed == |conns| && |replies| <= Readies(waits, SentCount(conns))
    ensures r.Some? ==> |replies| == |r.value| == |conns|
    ensures r.Some? ==> forall c: nat :: c < |conns| ==> c in replies && Succeeds(conns[c], allowed)
    ensures r.Some? ==> forall c: nat :: c < |conns| ==> conns[c].sent && conns[c].confirmation == Some(0xEEC0)
    ensures r.Some? ==> forall i :: 0 <= i < |replies| ==> Some(r.value[i]) == conns[replies[i]].json
    ensures (forall k: nat :: k < SentCount(conns) ==> waits(k).Ready? && waits(k).removed) ==>
      (r.Some? <==> forall c: nat :: c < |conns| ==> Succeeds(conns[c], allowed))
  {
    var sent;
    ghost var handled;
    sent, handled := SendAll(conns, waits);
    if sent.None? { return None, [], 0; }
    replies := sent.value.0;
    var errors := sent.value.1;
    r, failed := HandleAllReplies(conns, replies, errors, allowed);
    if r.Some? {
      EveryoneReplied(conns, replies, allowed);
    } else if forall k: nat :: k < SentCount(conns) ==> waits(k).Ready? {
      AllReady(waits, SentCount(conns));
      if forall c: nat :: c < |conns| ==> Succeeds(conns[c], allowed) { NoneMissing(conns, replies, allowed); }
    }
  }
}
