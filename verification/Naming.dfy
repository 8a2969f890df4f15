/** Enclave names: `new_enclave_name`, `get_all_enclave_names` and `get_id_by_name` of `lib.rs`, over whole
    histories of enclaves being run and terminated. */
module Naming {
  import opened NeTypes
  import opened Text

  // ----- The name of an image file -----

  /** What follows the last '/'. */
  function LastSegment(path: string): (s: string)
    ensures '/' !in s && |s| <= |path| && path[|path| - |s|..] == s
    ensures |s| < |path| ==> path[|path| - |s| - 1] == '/'
  {
    if path == "" || path[|path| - 1] == '/' then ""
    else LastSegment(path[..|path| - 1]) + [path[|path| - 1]]
  }

  predicate EndsWithEif(s: string) { |s| >= 4 && s[|s| - 4..] == ".eif" }

  function Eifs(n: nat): string { if n == 0 then "" else Eifs(n - 1) + ".eif" }

  /** All trailing ".eif" removed. */
  function TrimEif(s: string): string {
    if EndsWithEif(s) then TrimEif(s[..|s| - 4]) else s
  }

  lemma {:induction false} TrimEifExact(s: string) returns (n: nat)
    ensures s == TrimEif(s) + Eifs(n) && !EndsWithEif(TrimEif(s))
  {
    n := 0;
    if EndsWithEif(s) {
      var m := TrimEifExact(s[..|s| - 4]);
      n := m + 1;
      assert s == s[..|s| - 4] + ".eif";
    }
  }

  /** The name asked for, or the one of the image file. */
  function BaseName(path: string, wanted: Option<string>): string {
    if wanted.Some? then wanted.value else TrimEif(LastSegment(path))
  }

  /** The path of an image is a directory, the base name, which has no '/' and does not end in ".eif", and any number of
      ".eif". */
  lemma BaseNameExact(path: string) returns (dir: string, n: nat)
    ensures var base := BaseName(path, None);
            && path == dir + base + Eifs(n) && '/' !in base && !EndsWithEif(base)
            && (dir == "" || dir[|dir| - 1] == '/')
  {
    var file := LastSegment(path);
    n := TrimEifExact(file);
    dir := path[..|path| - |file|];
    assert path == dir + file;
    Regroup(dir, TrimEif(file), Eifs(n));
    NotInPrefix(file, TrimEif(file), Eifs(n), '/');
  }

  lemma Regroup(a: string, b: string, c: string)
    ensures a + (b + c) == a + b + c
  {
  }

  lemma NotInPrefix(s: string, a: string, b: string, c: char)
    requires s == a + b && c !in s
    ensures c !in a
  {
    forall i | 0 <= i < |a| ensures a[i] != c { assert s[i] == a[i]; }
  }

  // ----- Numbered names -----

  /** The base name, then base_1, base_2 and so on. */
  function Candidate(base: string, k: nat): string {
    if k == 0 then base else base + "_" + Numeral(k, 10)
  }

  lemma CandidatesDiffer(base: string, j: nat, k: nat)
    requires j < k
    ensures Candidate(base, j) != Candidate(base, k)
  {
    var b := Candidate(base, k);
    assert b[|base| + 1..] == Numeral(k, 10);
    if j > 0 {
      assert Candidate(base, j)[|base| + 1..] == Numeral(j, 10);
      if Candidate(base, j) == b { NumeralInjective(j, k, 10); }
    }
  }

  /** Distinct strings that all occur in `names` are no more than `names`. */
  lemma {:induction false} Pigeonhole(some: seq<string>, names: seq<string>)
    requires Distinct(some) && forall i :: 0 <= i < |some| ==> some[i] in names
    ensures |some| <= |names|
  {
    if some != [] {
      var n := |some| - 1;
      var k :| 0 <= k < |names| && names[k] == some[n];
      var rest := names[..k] + names[k + 1..];
      forall i | 0 <= i < n ensures some[i] in rest {
        var l :| 0 <= l < |names| && names[l] == some[i];
        assert l < k ==> rest[l] == some[i];
        assert l > k ==> rest[l - 1] == some[i];
      }
      Pigeonhole(some[..n], rest);
    }
  }

  lemma TakenBound(base: string, names: seq<string>, k: nat)
    requires forall j: nat :: j < k ==> Candidate(base, j) in names
    ensures k <= |names|
  {
    var some := seq(k, j requires 0 <= j < k => Candidate(base, j));
    forall i, j | 0 <= i < j < |some| ensures some[i] != some[j] { CandidatesDiffer(base, i, j); }
    Pigeonhole(some, names);
  }

  lemma NextCandidate(base: string, names: seq<string>, k: nat)
    requires forall j: nat :: j < k ==> Candidate(base, j) in names
    requires Candidate(base, k) in names
    ensures k + 1 <= |names| && forall j: nat :: j < k + 1 ==> Candidate(base, j) in names
    ensures base + "_" + Numeral(k + 1, 10) == Candidate(base, k + 1)
  {
    TakenBound(base, names, k + 1);
  }

  /** The least candidate from `k` on that is free. */
  function LeastFree(base: string, names: seq<string>, k: nat): (r: nat)
    requires forall j: nat :: j < k ==> Candidate(base, j) in names
    ensures k <= r <= |names| && Candidate(base, r) !in names
    ensures forall j: nat :: j < r ==> Candidate(base, j) in names
    decreases |names| + 1 - k
  {
    TakenBound(base, names, k);
    if Candidate(base, k) !in names then k else LeastFree(base, names, k + 1)
  }

  /** The name a new enclave gets. */
  function NewName(path: string, wanted: Option<string>, names: seq<string>): string {
    var base := BaseName(path, wanted);
    Candidate(base, LeastFree(base, names, 0))
  }

  /** `new_enclave_name`: the first free candidate, found after at most as many steps as there are names. */
  method NewEnclaveName(path: string, wanted: Option<string>, names: seq<string>) returns (name: string, idx: nat)
    ensures name == Candidate(BaseName(path, wanted), idx) && name !in names
    ensures forall j: nat :: j < idx ==> Candidate(BaseName(path, wanted), j) in names
    ensures idx <= |names| && name == NewName(path, wanted, names)
    ensures wanted.Some? ==> name == wanted.value + (if wanted.value in names then "_" + Numeral(idx, 10) else "")
  {
    var base := BaseName(path, wanted);
    idx, name := 0, base;
    while name in names
      invariant name == Candidate(base, idx)
      invariant forall j: nat :: j < idx ==> Candidate(base, j) in names
      invariant LeastFree(base, names, idx) == LeastFree(base, names, 0)
      decreases |names| + 1 - idx
    {
      NextCandidate(base, names, idx);
      idx := idx + 1;
      name := base + "_" + Numeral(idx, 10);
    }
  }

  // ----- Histories -----

  datatype Enclave = Enclave(name: string, id: string)

  /** The name of each enclave process that answers. */
  function Names(running: seq<Enclave>): (names: seq<string>)
    ensures |names| == |running| && forall i :: 0 <= i < |names| ==> names[i] == running[i].name
  {
    seq(|running|, i requires 0 <= i < |running| => running[i].name)
  }

  /** The IDs that the processes give for `name`: each answers only if the name is its own. */
  function Answers(running: seq<Enclave>, name: string): seq<string> {
    if running == [] then []
    else
      var last := running[|running| - 1];
      Answers(running[..|running| - 1], name) + if last.name == name then [last.id] else []
  }

  lemma {:induction false} NoAnswer(running: seq<Enclave>, name: string)
    requires name !in Names(running)
    ensures Answers(running, name) == []
  {
    if running != [] {
      var n := |running| - 1;
      assert Names(running)[n] == running[n].name;
      assert forall i :: 0 <= i < n ==> Names(running)[i] == Names(running[..n])[i];
      NoAnswer(running[..n], name);
    }
  }

  lemma {:induction false} OneAnswer(running: seq<Enclave>, k: nat)
    requires Distinct(Names(running)) && k < |running|
    ensures Answers(running, running[k].name) == [running[k].id]
  {
    var n := |running| - 1;
    var names := Names(running);
    assert Names(running[..n]) == names[..n];
    if k == n {
      assert names[n] !in names[..n];
      NoAnswer(running[..n], running[k].name);
    } else {
      assert names[k] != names[n];
      OneAnswer(running[..n], k);
    }
  }

  lemma NewNameKeepsDistinct(running: seq<Enclave>, name: string, id: string)
    requires Distinct(Names(running)) && name !in Names(running)
    ensures Distinct(Names(running + [Enclave(name, id)]))
  {
    var names := Names(running);
    assert Names(running + [Enclave(name, id)]) == names + [name];
    forall i | 0 <= i < |names| ensures names[i] != name { assert names[i] in names; }
  }

  datatype Action = Run(path: string, wanted: Option<string>, created: Option<string>) | Terminate(k: nat)

  /** The enclaves that run after one more action. */
  function Act(running: seq<Enclave>, action: Action): seq<Enclave> {
    match action
    case Run(path, wanted, created) =>
      if created.None? then running
      else running + [Enclave(NewName(path, wanted, Names(running)), created.value)]
    case Terminate(k) => if k < |running| then running[..k] + running[k + 1..] else running
  }

  function RunningAfter(actions: seq<Action>): seq<Enclave> {
    if actions == [] then [] else Act(RunningAfter(actions[..|actions| - 1]), actions[|actions| - 1])
  }

  lemma ActKeepsDistinct(running: seq<Enclave>, action: Action)
    requires Distinct(Names(running))
    ensures Distinct(Names(Act(running, action)))
  {
    match action
    case Run(path, wanted, created) =>
      if created.Some? { NewNameKeepsDistinct(running, NewName(path, wanted, Names(running)), created.value); }
    case Terminate(k) =>
      if k < |running| {
        var names := Names(running);
        assert Names(running[..k] + running[k + 1..]) == names[..k] + names[k + 1..];
      }
  }

  /** After every history the names of the running enclaves are distinct. */
  lemma {:induction false} NamesStayDistinct(actions: seq<Action>)
    ensures Distinct(Names(RunningAfter(actions)))
  {
    if actions != [] {
      NamesStayDistinct(actions[..|actions| - 1]);
      ActKeepsDistinct(RunningAfter(actions[..|actions| - 1]), actions[|actions| - 1]);
    }
  }

  /** After every history the processes answer for a running enclave's name with exactly its ID, and for any other
      name not at all. */
  lemma NamesFindEnclaves(actions: seq<Action>, name: string)
    ensures var running := RunningAfter(actions);
            && (forall k :: 0 <= k < |running| && running[k].name == name ==> Answers(running, name) == [running[k].id])
            && (name !in Names(running) ==> Answers(running, name) == [])
  {
    var running := RunningAfter(actions);
    NamesStayDistinct(actions);
    forall k | 0 <= k < |running| && running[k].name == name ensures Answers(running, name) == [running[k].id] {
      OneAnswer(running, k);
    }
    if name !in Names(running) { NoAnswer(running, name); }
  }

  lemma {:induction false} AnswersAppend(a: seq<Enclave>, b: seq<Enclave>, name: string)
    ensures Answers(a + b, name) == Answers(a, name) + Answers(b, name)
  {
    if b == [] {
      assert a + b == a;
    } else {
      AnswersAppend(a, b[..|b| - 1], name);
      assert (a + b)[..|a + b| - 1] == a + b[..|b| - 1];
    }
  }

  /** After one more run that created an enclave, its name finds it, and every other name finds what it found before; a
      run that created nothing changes nothing. */
  lemma RunIsFound(actions: seq<Action>, path: string, wanted: Option<string>, created: Option<string>, name: string)
    ensures var running := RunningAfter(actions);
            var given := NewName(path, wanted, Names(running));
            Answers(RunningAfter(actions + [Run(path, wanted, created)]), name) ==
              if created.Some? && name == given then [created.value] else Answers(running, name)
  {
    var running := RunningAfter(actions);
    var given := NewName(path, wanted, Names(running));
    AfterOneMore(actions, Run(path, wanted, created));
    if created.Some? {
      var e := Enclave(given, created.value);
      AnswersAppend(running, [e], name);
      AnswersOf(e, name);
      if name == given { NoAnswer(running, name); }
    }
  }

  lemma AnswersOf(e: Enclave, name: string)
    ensures Answers([e], name) == if e.name == name then [e.id] else []
  {
    assert [e][..0] == [];
  }

  lemma AnswersAround(a: seq<Enclave>, e: Enclave, b: seq<Enclave>, name: string)
    ensures Answers(a + [e] + b, name) == Answers(a, name) + (if e.name == name then [e.id] else []) + Answers(b, name)
    ensures Answers(a + b, name) == Answers(a, name) + Answers(b, name)
  {
    AnswersOf(e, name);
    AnswersAppend(a, b, name);
    AnswersAppend(a + [e], b, name);
    AnswersAppend(a, [e], name);
  }

  lemma SplitAt(running: seq<Enclave>, k: nat)
    requires k < |running|
    ensures running == running[..k] + [running[k]] + running[k + 1..]
  {
  }

  lemma AnswersWithout(running: seq<Enclave>, k: nat, name: string)
    requires Distinct(Names(running)) && k < |running|
    ensures Answers(running[..k] + running[k + 1..], name) ==
            if name == running[k].name then [] else Answers(running, name)
  {
    var a, b := Answers(running[..k], name), Answers(running[k + 1..], name);
    SplitAt(running, k);
    AnswersAround(running[..k], running[k], running[k + 1..], name);
    if name == running[k].name {
      OneAnswer(running, k);
      OnlyOne(a, running[k].id, b);
    } else {
      assert a + [] == a;
    }
  }

  lemma OnlyOne(a: seq<string>, id: string, b: seq<string>)
    requires a + [id] + b == [id]
    ensures a == [] && b == []
  {
    assert |a + [id] + b| == |a| + 1 + |b|;
  }

  lemma AfterOneMore(actions: seq<Action>, action: Action)
    ensures RunningAfter(actions + [action]) == Act(RunningAfter(actions), action)
  {
    assert (actions + [action])[..|actions|] == actions;
  }

  /** After a termination nobody answers for that enclave's name, and every other name finds what it found before. */
  lemma TerminatedIsGone(actions: seq<Action>, k: nat, name: string)
    requires k < |RunningAfter(actions)|
    ensures var running := RunningAfter(actions);
            Answers(RunningAfter(actions + [Terminate(k)]), name) ==
              if name == running[k].name then [] else Answers(running, name)
  {
    NamesStayDistinct(actions);
    AfterOneMore(actions, Terminate(k));
    AnswersWithout(RunningAfter(actions), k, name);
  }

  /** The enclaves of this host as the command line starts, names, finds and terminates them. */
  class Host {
    var running: seq<Enclave>

    ghost predicate Valid()
      reads this
    {
      Distinct(Names(running))
    }

    constructor ()
      ensures Valid() && running == []
    {
      running := [];
    }

    /** run-enclave: asks all processes for their names, picks the least free candidate and, if creation succeeds,
        runs the enclave under it. */
    method RunEnclave(path: string, wanted: Option<string>, created: Option<string>)
      requires Valid()
      modifies this
      ensures Valid() && running == Act(old(running), Run(path, wanted, created))
    {
      ActKeepsDistinct(running, Run(path, wanted, created));
      var name, idx := NewEnclaveName(path, wanted, Names(running));
      if created.Some? { running := running + [Enclave(name, created.value)]; }
    }

    method TerminateEnclave(k: nat)
      requires Valid()
      modifies this
      ensures Valid() && running == Act(old(running), Terminate(k))
    {
      ActKeepsDistinct(running, Terminate(k));
      if k < |running| { running := running[..k] + running[k + 1..]; }
    }

    /** `get_id_by_name`: exactly the ID of the enclave with that name, and an error if there is none. */
    method GetIdByName(name: string) returns (id: Option<string>)
      requires Valid()
      ensures id.Some? <==> name in Names(running)
      ensures forall k :: 0 <= k < |running| && running[k].name == name ==> id == Some(running[k].id)
    {
      var objects: seq<string> := [];
      for i := 0 to |running|
        invariant objects == Answers(running[..i], name)
      {
        assert running[..i + 1][..i] == running[..i];
        if running[i].name == name { objects := objects + [running[i].id]; }
      }
      assert running[..|running|] == running;
      id := if |objects| != 1 then None else Some(objects[0]);
      if name in Names(running) {
        var k :| 0 <= k < |running| && Names(running)[k] == name;
        OneAnswer(running, k);
        forall j | 0 <= j < |running| && running[j].name == name ensures running[j].id == objects[0] {
          OneAnswer(running, j);
        }
      } else {
        NoAnswer(running, name);
        forall j | 0 <= j < |running| ensures running[j].name != name { assert Names(running)[j] in Names(running); }
      }
    }
  }

  /** A whole history, then a query: the host runs exactly what the history leaves, and the query finds exactly the
      enclave with that name. */
  method History(actions: seq<Action>, name: string) returns (host: Host, id: Option<string>)
    ensures fresh(host) && host.Valid() && host.running == RunningAfter(actions)
    ensures id.Some? <==> name in Names(RunningAfter(actions))
    ensures id.Some? ==> [id.value] == Answers(RunningAfter(actions), name)
  {
    host := new Host();
    for i := 0 to |actions|
      invariant host.Valid() && fresh(host) && host.running == RunningAfter(actions[..i])
    {
      assert actions[..i + 1][..i] == actions[..i];
      match actions[i] {
        case Run(path, wanted, created) => host.RunEnclave(path, wanted, created);
        case Terminate(k) => host.TerminateEnclave(k);
      }
    }
    assert actions[..|actions|] == actions;
    id := host.GetIdByName(name);
    NamesFindEnclaves(actions, name);
    if id.Some? {
      var k :| 0 <= k < |host.running| && Names(host.running)[k] == name;
      assert host.running[k].name == name;
    }
  }
}
