/** The event loop of an enclave process: `process_event_loop`, `handle_command` and `fetch_describe_result`
    of `enclave_proc/mod.rs`, with `run_enclaves` and `describe_enclaves` of `enclave_proc/commands.rs`. */
module EventLoop {
  import opened NeTypes
  import opened Wire

  /** The measurements of an image, register by register. */
  type Pcrs = map<string, string>

  /** How the thread that measures the image ends. */
  datatype Thread = Panics | Fails | Computes(measurements: Pcrs, metadata: Option<string>)

  /** An enclave ID ends in "-enc" and the slot, so it is not empty. */
  type Id = s: string | s != "" witness "i-enc0"

  /** The outcome of a Run: of reading its arguments, of `run_enclaves`, and of setting up the logger, the
      listener and the descriptor afterwards. */
  datatype RunOutcome = NoArguments | NotCreated | Creates(id: Id, name: string, cid: nat, thread: Thread, setUp: bool)

  /** The environment's part in handling one command; `withMetadata` is the argument of a Describe. */
  datatype Io = Io(run: RunOutcome, terminationStarts: bool, argument: Option<string>, withMetadata: bool,
                   confirmed: bool, printed: bool, stopped: bool, joined: bool, replied: bool)

  /** What the loop gets from the next connection, or a termination thread clearing the handle that it shares with
      the loop in between. */
  datatype Input =
    | NoConnection | EnclaveHangUp | UnexpectedEvent | EventError | Unreadable
    | Received(cmd: Command, io: Io) | ThreadClears

  /** An attempt to create an enclave, with the enclave and its thread if it succeeded. */
  datatype Attempt = Failed | Created(id: Id, cid: nat, thread: Thread)

  /** What a Describe prints of the enclave. */
  datatype Description = Description(name: string, cid: nat, measurements: Pcrs, metadata: Option<string>)

  /** A status sent to the command line, with the description shown to it in the same turn. */
  datatype Answer = Answer(cmd: Command, status: nat, shown: Option<Description>)

  const EACCES: nat := 13
  const EEXIST: nat := 17
  const EINVAL: nat := 22

  /** The result of `handle_command`; a process that panics dies. */
  datatype Handled = Done(status: nat, stop: bool) | Error | Panic

  datatype LoopEnd = Waiting | Left | Crashed

  /** Only commands that come from the command line are answered with a status. */
  predicate NeedsStatus(cmd: Command) {
    cmd.Run? || cmd.Terminate? || cmd.Describe? || cmd.GetEnclaveName? || cmd.GetIDbyName?
  }

  // ----- What the inputs of a loop that goes on mean -----

  predicate Is(input: Input, cmd: Command) { input.Received? && input.cmd == cmd }

  /** The command line waits for a status. */
  predicate Asks(input: Input) {
    input.Received? && input.cmd in {Run, Terminate, Describe, GetEnclaveName, GetIDbyName}
  }

  /** What matters of the inputs so far: the first Run; whether a termination thread was started, and whether one
      shares the handle; the CID in the handle; whether the thread of the first Run was joined; the names and IDs given
      out; and the answers. */
  datatype Past = Past(run: Option<RunOutcome>, terminated: bool, clearing: bool, cid: Option<nat>, joined: bool,
                       given: seq<(string, string)>, answers: seq<Answer>)

  function NameIn(p: Past): string { if p.run.Some? && p.run.value.Creates? then p.run.value.name else "" }

  /** The description of the enclave: what the thread of the first Run computed. */
  function DescriptionIn(p: Past, withMetadata: bool): Description {
    var computed := p.run.Some? && p.run.value.Creates? && p.run.value.thread.Computes?;
    Description(NameIn(p), if p.cid.Some? then p.cid.value else 0,
                if computed then p.run.value.thread.measurements else map[],
                if computed && withMetadata then p.run.value.thread.metadata else None)
  }

  /** The answer to a command after which the loop goes on: a second Run is refused, everything else succeeds. */
  function AnswerTo(p: Past, cmd: Command, io: Io): Answer {
    Answer(cmd, if cmd == Run && p.run.Some? then 17 else 0,
           if cmd == Describe then Some(DescriptionIn(p, io.withMetadata)) else None)
  }

  /** The ID for a caller that knows the enclave's name. */
  function GivenFor(p: Past, argument: Option<string>): seq<(string, string)> {
    if p.run.Some? && p.run.value.Creates? && argument == Some(p.run.value.name)
    then [(p.run.value.name, p.run.value.id)] else []
  }

  /** One more command. */
  function AddCommand(p: Past, cmd: Command, io: Io): Past {
    match cmd
    case Run =>
      if p.run.Some? then p
      else p.(run := Some(io.run), clearing := false, cid := if io.run.Creates? then Some(io.run.cid) else p.cid)
    case Terminate => if io.terminationStarts then p.(terminated := true, clearing := true) else p
    case Describe => p.(joined := p.joined || p.run.Some?)
    case GetIDbyName => p.(given := p.given + GivenFor(p, io.argument))
    case _ => p
  }

  /** One more input. */
  function Add(p: Past, input: Input): Past {
    match input
    case Received(cmd, io) =>
      AddCommand(p, cmd, io).(answers := p.answers + if Asks(input) then [AnswerTo(p, cmd, io)] else [])
    case ThreadClears => if p.clearing then p.(cid := Some(0)) else p
    case _ => p
  }

  function PastOf(h: seq<Input>): Past {
    if h == [] then Past(None, false, false, None, false, [], []) else Add(PastOf(h[..|h| - 1]), h[|h| - 1])
  }

  /** The process can carry out the command, and the loop goes on. */
  predicate Accepts(p: Past, cmd: Command, io: Io) {
    match cmd
    case Run => p.run.Some? || (io.run.Creates? && io.run.setUp)
    case Terminate => io.terminationStarts
    case TerminateComplete => false
    case ConnectionListenerStop => false
    case GetEnclaveCID => p.cid.Some? && io.printed
    case GetEnclaveFlags => io.printed
    case GetEnclaveName => io.confirmed && io.printed
    case GetIDbyName => io.confirmed && io.argument.Some? && (io.argument.value == NameIn(p) ==> io.printed)
    case Describe =>
      && io.argument.Some? && io.confirmed && io.printed && p.cid.Some?
      && (p.run.Some? && p.run.value.Creates? ==> p.run.value.thread.Computes?)
    case NotPermitted => true
  }

  /** The command kills the process: it needs the CID of a handle that has none. */
  predicate Kills(p: Past, cmd: Command, io: Io) {
    p.cid.None? && (cmd == GetEnclaveCID || (cmd == Describe && io.argument.Some? && io.confirmed))
  }

  /** The loop goes on after this input. */
  predicate GoesOn(p: Past, input: Input) {
    match input
    case UnexpectedEvent => true
    case ThreadClears => true
    case Received(cmd, io) => Accepts(p, cmd, io) && (Asks(input) ==> io.replied)
    case _ => false
  }

  /** The answer sent in the turn that ends the loop: an error, once everything is cleaned up. */
  function LastWord(p: Past, input: Input): seq<Answer> {
    if Asks(input) && !Accepts(p, input.cmd, input.io) && !Kills(p, input.cmd, input.io)
       && input.io.stopped && (p.terminated ==> input.io.joined) && input.io.replied
    then [Answer(input.cmd, 22, None)] else []
  }

  /** How the loop ends at this input. */
  function EndAt(p: Past, input: Input): LoopEnd {
    if GoesOn(p, input) then Waiting
    else if input.Received? && Kills(p, input.cmd, input.io) then Crashed
    else Left
  }

  lemma OneMore(h: seq<Input>, x: Input)
    ensures PastOf(h + [x]) == Add(PastOf(h), x)
  {
    assert (h + [x])[..|h|] == h;
  }

  // ----- What the answers of a loop that goes on say -----

  /** The loop goes on after every one of the inputs. */
  ghost predicate Lasting(h: seq<Input>) {
    forall i :: 0 <= i < |h| ==> GoesOn(PastOf(h[..i]), h[i])
  }

  lemma LastingInit(h: seq<Input>)
    requires Lasting(h) && h != []
    ensures Lasting(h[..|h| - 1]) && GoesOn(PastOf(h[..|h| - 1]), h[|h| - 1])
  {
    var init := h[..|h| - 1];
    forall i | 0 <= i < |init| ensures GoesOn(PastOf(init[..i]), init[i]) { assert init[..i] == h[..i]; }
  }

  lemma LastingSnoc(h: seq<Input>, x: Input)
    requires Lasting(h) && GoesOn(PastOf(h), x)
    ensures Lasting(h + [x])
  {
    var all := h + [x];
    forall i | 0 <= i < |all| ensures GoesOn(PastOf(all[..i]), all[i]) {
      assert all[..i] == h[..i] && (i == |h| ==> h[..i] == h);
    }
  }

  /** The answer to a successful Describe. */
  predicate Described(a: Answer) { a.cmd == Describe && a.status == 0 }

  /** The answer to a successful Run. */
  predicate RunOk(a: Answer) { a.cmd == Run && a.status == 0 }

  /** Input `i` is the first Run. */
  predicate FirstRunAt(h: seq<Input>, i: int) {
    0 <= i < |h| && Is(h[i], Run) && forall j :: 0 <= j < i ==> !Is(h[j], Run)
  }

  lemma {:induction false} RunIsFirst(h: seq<Input>) returns (i: int)
    ensures PastOf(h).run.Some? ==> FirstRunAt(h, i) && PastOf(h).run.value == h[i].io.run
    ensures PastOf(h).run.None? ==> forall j :: 0 <= j < |h| ==> !Is(h[j], Run)
  {
    i := |h| - 1;
    if h != [] {
      var init := h[..|h| - 1];
      var k := RunIsFirst(init);
      assert forall j :: 0 <= j < |init| ==> init[j] == h[j];
      if PastOf(init).run.Some? { i := k; }
    }
  }

  lemma RunOfPrefix(inputs: seq<Input>, n: nat, i: nat)
    requires i < n <= |inputs| && FirstRunAt(inputs, i)
    ensures PastOf(inputs[..n]).run == Some(inputs[i].io.run)
  {
    var h := inputs[..n];
    var k := RunIsFirst(h);
    assert h[i] == inputs[i];
    assert h[k] == inputs[k];
  }

  /** The first Run created an enclave, and exactly it was answered with status 0. */
  lemma {:induction false} RunAnswered(h: seq<Input>) returns (k: nat)
    requires Lasting(h)
    ensures var p := PastOf(h);
            && (p.run.Some? ==> p.run.value.Creates? && p.run.value.setUp && k < |p.answers| && RunOk(p.answers[k]))
            && (forall i :: 0 <= i < |p.answers| && RunOk(p.answers[i]) ==> p.run.Some? && i == k)
  {
    k := 0;
    if h != [] {
      LastingInit(h);
      var init, last := PastOf(h[..|h| - 1]), h[|h| - 1];
      k := RunAnswered(h[..|h| - 1]);
      if init.run.None? && Is(last, Run) { k := |init.answers|; }
    }
  }

  /** A description that was answered after the first Run shows what its thread computed. */
  lemma {:induction false} DescribedAfterRun(h: seq<Input>, i: nat, j: nat)
    requires Lasting(h)
    requires i < j < |PastOf(h).answers| && RunOk(PastOf(h).answers[i]) && Described(PastOf(h).answers[j])
    ensures var run, shown := PastOf(h).run, PastOf(h).answers[j].shown;
            && run.Some? && run.value.Creates? && run.value.thread.Computes?
            && shown.Some? && shown.value.measurements == run.value.thread.measurements
            && shown.value.name == run.value.name
            && (shown.value.metadata.Some? ==> shown.value.metadata == run.value.thread.metadata)
  {
    LastingInit(h);
    var init := h[..|h| - 1];
    var k := RunAnswered(init);
    if j < |PastOf(init).answers| { DescribedAfterRun(init, i, j); }
  }

  /** A description needs a CID. */
  lemma {:induction false} DescribedHasCid(h: seq<Input>, i: nat)
    requires Lasting(h) && i < |PastOf(h).answers| && Described(PastOf(h).answers[i])
    ensures PastOf(h).cid.Some?
  {
    LastingInit(h);
    var init := h[..|h| - 1];
    if i < |PastOf(init).answers| { DescribedHasCid(init, i); }
  }

  /** The commands that ask for a status, in order. */
  function Asked(h: seq<Input>): seq<Command> {
    if h == [] then []
    else Asked(h[..|h| - 1]) + if Asks(h[|h| - 1]) then [h[|h| - 1].cmd] else []
  }

  function Commands(answers: seq<Answer>): (cmds: seq<Command>)
    ensures |cmds| == |answers| && forall i :: 0 <= i < |cmds| ==> cmds[i] == answers[i].cmd
  {
    seq(|answers|, i requires 0 <= i < |answers| => answers[i].cmd)
  }

  /** Every command that asks gets exactly one answer, in order, which is a refusal only for a Run after the first. */
  lemma {:induction false} AllAnswered(h: seq<Input>)
    ensures Commands(PastOf(h).answers) == Asked(h)
    ensures forall i :: 0 <= i < |PastOf(h).answers| && PastOf(h).answers[i].status != 0 ==>
              PastOf(h).answers[i].cmd == Run
  {
    if h != [] { AllAnswered(h[..|h| - 1]); }
  }

  /** Only the ID of the enclave of the first Run is given out, under its name. */
  lemma {:induction false} GivenIsOurs(h: seq<Input>, i: nat)
    requires i < |PastOf(h).given|
    ensures var p := PastOf(h);
            p.run.Some? && p.run.value.Creates? && p.given[i] == (p.run.value.name, p.run.value.id)
  {
    var init := h[..|h| - 1];
    if i < |PastOf(init).given| { GivenIsOurs(init, i); }
  }

  /** The answers to these inputs, and perhaps an error at the end. */
  ghost predicate AnswersOf(h: seq<Input>, answers: seq<Answer>) {
    PastOf(h).answers <= answers && forall i :: |PastOf(h).answers| <= i < |answers| ==> answers[i].status == 22
  }

  lemma TrueAnswers(h: seq<Input>, answers: seq<Answer>)
    requires Lasting(h) && AnswersOf(h, answers)
    ensures var p := PastOf(h);
            && (p.run.Some? ==> p.run.value.Creates? && exists k :: 0 <= k < |answers| && RunOk(answers[k]))
            && (forall i :: 0 <= i < |answers| && RunOk(answers[i]) ==> p.run.Some?)
            && (forall i :: 0 <= i < |answers| && Described(answers[i]) ==> p.cid.Some?)
  {
    var p := PastOf(h);
    var k := RunAnswered(h);
    assert p.run.Some? ==> RunOk(answers[k]);
    forall i | 0 <= i < |answers| && RunOk(answers[i]) ensures p.run.Some? { assert p.answers[i] == answers[i]; }
    forall i | 0 <= i < |answers| && Described(answers[i]) ensures p.cid.Some? {
      assert p.answers[i] == answers[i];
      DescribedHasCid(h, i);
    }
  }

  lemma TrueDescriptions(h: seq<Input>, answers: seq<Answer>, i: nat, j: nat)
    requires Lasting(h) && AnswersOf(h, answers)
    requires i < j < |answers| && RunOk(answers[i]) && Described(answers[j])
    ensures var run, shown := PastOf(h).run, answers[j].shown;
            && run.Some? && run.value.Creates? && run.value.thread.Computes?
            && shown.Some? && shown.value.measurements == run.value.thread.measurements
  {
    assert j < |PastOf(h).answers| && PastOf(h).answers[i] == answers[i] && PastOf(h).answers[j] == answers[j];
    DescribedAfterRun(h, i, j);
  }

  /** Told to stop. */
  predicate Stop(input: Input) { Is(input, TerminateComplete) || Is(input, ConnectionListenerStop) }

  lemma StopEnds(inputs: seq<Input>, n: nat, i: nat)
    requires n <= |inputs| && Lasting(inputs[..n]) && i < |inputs| && Stop(inputs[i])
    ensures n <= i && EndAt(PastOf(inputs[..i]), inputs[i]) == Left
  {
    var h := inputs[..n];
    forall k | 0 <= k < n ensures !Stop(inputs[k]) { assert GoesOn(PastOf(h[..k]), h[k]) && h[k] == inputs[k]; }
  }

  lemma OursGiven(h: seq<Input>, given: seq<(string, string)>, argument: Option<string>, i: nat)
    requires i < |given|
    requires given == PastOf(h).given || given == PastOf(h).given + GivenFor(PastOf(h), argument)
    ensures var run := PastOf(h).run;
            run.Some? && run.value.Creates? && given[i] == (run.value.name, run.value.id)
  {
    if i < |PastOf(h).given| { GivenIsOurs(h, i); }
  }

  /** Nothing goes wrong with this input, and it does not tell the process to stop. */
  predicate Helpful(input: Input) {
    || input.UnexpectedEvent? || input.ThreadClears?
    || (input.Received? && !Stop(input) && Served(input.io)
        && input.io.argument.Some? && input.io.confirmed && input.io.printed && input.io.terminationStarts)
  }

  /** A Run creates and sets up an enclave that can be measured, and the status can be sent. */
  predicate Served(io: Io) { io.run.Creates? && io.run.setUp && io.run.thread.Computes? && io.replied }

  /** Whoever needs the CID comes after a Run. */
  ghost predicate RunFirst(inputs: seq<Input>) {
    forall j :: 0 <= j < |inputs| && (Is(inputs[j], Describe) || Is(inputs[j], GetEnclaveCID)) ==>
      exists i :: 0 <= i < j && Is(inputs[i], Run)
  }

  ghost predicate AllHelpful(inputs: seq<Input>) {
    RunFirst(inputs) && forall i :: 0 <= i < |inputs| ==> Helpful(inputs[i])
  }

  lemma HelpfulInit(h: seq<Input>)
    requires AllHelpful(h) && h != []
    ensures AllHelpful(h[..|h| - 1])
  {
    var init := h[..|h| - 1];
    forall j | 0 <= j < |init| && (Is(init[j], Describe) || Is(init[j], GetEnclaveCID))
      ensures exists i :: 0 <= i < j && Is(init[i], Run)
    {
      assert init[j] == h[j];
      var i :| 0 <= i < j && Is(h[i], Run);
      assert init[i] == h[i];
    }
  }

  lemma RunWasBefore(h: seq<Input>)
    requires AllHelpful(h) && h != [] && (Is(h[|h| - 1], Describe) || Is(h[|h| - 1], GetEnclaveCID))
    ensures PastOf(h[..|h| - 1]).run.Some?
  {
    var init := h[..|h| - 1];
    var i :| 0 <= i < |h| - 1 && Is(h[i], Run);
    assert init[i] == h[i];
    var _ := RunIsFirst(init);
  }

  /** The first Run, if there was one, left an enclave that can be described. */
  predicate Describable(p: Past) {
    p.run.Some? ==> p.run.value.Creates? && p.run.value.thread.Computes? && p.cid.Some?
  }

  lemma HelpfulGoesOn(p: Past, input: Input)
    requires Describable(p) && Helpful(input)
    requires Is(input, Describe) || Is(input, GetEnclaveCID) ==> p.run.Some?
    ensures GoesOn(p, input)
  {
  }

  lemma HelpfulKeeps(p: Past, input: Input)
    requires Describable(p) && Helpful(input)
    ensures Describable(Add(p, input))
  {
  }

  /** If nothing goes wrong, the loop goes on. */
  lemma {:induction false} HelpfulLasts(h: seq<Input>)
    requires AllHelpful(h)
    ensures Lasting(h) && Describable(PastOf(h))
  {
    if h != [] {
      var init, last := h[..|h| - 1], h[|h| - 1];
      HelpfulInit(h);
      HelpfulLasts(init);
      if Is(last, Describe) || Is(last, GetEnclaveCID) { RunWasBefore(h); }
      HelpfulGoesOn(PastOf(init), last);
      HelpfulKeeps(PastOf(init), last);
      LastingSnoc(init, last);
      assert init + [last] == h;
    }
  }

  /** A first Run that creates and sets up an enclave and can be answered is carried out. */
  lemma FirstRunServed(inputs: seq<Input>, n: nat, i: nat)
    requires n <= |inputs| && FirstRunAt(inputs, i) && Served(inputs[i].io) && i <= n
    requires n < |inputs| ==> !GoesOn(PastOf(inputs[..n]), inputs[n])
    ensures i < n
  {
    var _ := RunIsFirst(inputs[..i]);
  }

  /** The description shows what the thread of the one creation computed. */
  ghost predicate Measured(attempts: seq<Attempt>, d: Description) {
    && |attempts| == 1 && attempts[0].Created? && attempts[0].thread.Computes?
    && d.measurements == attempts[0].thread.measurements
  }

  // ----- The process -----

  class EnclaveProcess {
    var enclaveId: string
    var enclaveName: string
    var cid: Option<nat>
    var measurements: Pcrs
    var metadata: Option<string>
    var terminateThread: bool
    var clearing: bool // a termination thread shares the current handle
    var describeThread: Option<Thread>
    var done: bool

    // What the process has done: creations attempted, threads joined, enclave IDs given to callers that knew the
    // name, and answers sent.
    ghost var attempts: seq<Attempt>
    ghost var joins: nat
    ghost var given: seq<(string, string)>
    ghost var answers: seq<Answer>

    /** No enclave yet. */
    ghost predicate Empty()
      reads `enclaveId, `enclaveName, `measurements, `metadata, `describeThread, `attempts, `joins
    {
      && enclaveId == "" && enclaveName == "" && measurements == map[] && metadata.None?
      && describeThread.None? && attempts == [] && joins == 0
    }

    /** The enclave of this Run, with its thread still to be joined or with what the thread computed. */
    ghost predicate Holding(run: RunOutcome, fetched: bool)
      reads `enclaveId, `enclaveName, `measurements, `metadata, `describeThread, `attempts, `joins
    {
      && run.Creates? && enclaveId == run.id && enclaveName == run.name
      && attempts == [Created(run.id, run.cid, run.thread)]
      && if fetched then
           && describeThread.None? && joins == 1 && run.thread.Computes?
           && measurements == run.thread.measurements && metadata == run.thread.metadata
         else describeThread == Some(run.thread) && joins == 0 && metadata.None?
    }

    /** The process is where the inputs lead it while its loop goes on. */
    ghost predicate Follows(p: Past)
      reads `enclaveId, `enclaveName, `cid, `measurements, `metadata, `terminateThread, `clearing, `describeThread,
            `attempts, `joins, `given
    {
      && cid == p.cid && given == p.given && terminateThread == p.terminated && clearing == p.clearing
      && if p.run.None? then Empty() && !p.joined else cid.Some? && Holding(p.run.value, p.joined)
    }

    /** The loop is about to take the next input. */
    ghost predicate Ready(p: Past)
      reads this
    {
      !done && Follows(p) && answers == p.answers
    }

    /** What holds also when the loop ends: one attempt at most, joined at most once, and an enclave that is there stays
        the same. */
    twostate predicate Kept()
      reads this
    {
      && |attempts| <= 1 && joins <= |attempts| && (old(cid).Some? ==> cid.Some?)
      && (old(enclaveId) != "" ==>
            enclaveId == old(enclaveId) && enclaveName == old(enclaveName) && attempts == old(attempts))
    }

    /** The command was handled as it must be: carried out exactly if it can be, with the right answer; a failed one
        leaves what is needed for the last turn. */
    ghost predicate Handles(p: Past, cmd: Command, io: Io, r: Handled, shown: Option<Description>)
      reads `enclaveId, `enclaveName, `cid, `measurements, `metadata, `terminateThread, `clearing, `describeThread,
            `attempts, `joins, `given
    {
      && (r.Done? && !r.stop <==> Accepts(p, cmd, io)) && (r.Panic? <==> Kills(p, cmd, io))
      && if Accepts(p, cmd, io) then
           && Follows(AddCommand(p, cmd, io))
           && (NeedsStatus(cmd) ==> Answer(cmd, r.status, shown) == AnswerTo(p, cmd, io))
         else
           && terminateThread == p.terminated && given == p.given && shown.None?
           && (r.Done? ==> !NeedsStatus(cmd))
    }

    constructor ()
      ensures Ready(PastOf([]))
    {
      enclaveId, enclaveName, cid, measurements, metadata := "", "", None, map[], None;
      terminateThread, clearing, describeThread, done := false, false, None, false;
      attempts, joins, given, answers := [], 0, [], [];
    }

    /** `fetch_describe_result`: the first call after the creation joins the thread and stores its result. */
    method FetchDescribeResult(ghost run: RunOutcome, ghost fetched: bool) returns (ok: bool)
      requires Holding(run, fetched) || Empty()
      modifies `describeThread, `measurements, `metadata, `joins
      ensures old(Empty()) ==> ok && Empty()
      ensures old(Holding(run, fetched)) ==> (ok <==> run.thread.Computes?)
      ensures old(Holding(run, fetched)) && ok ==> Holding(run, true)
      ensures joins <= |attempts|
    {
      if describeThread.Some? {
        var thread := describeThread.value;
        describeThread := None;
        joins := joins + 1;
        if !thread.Computes? { return false; }
        measurements := thread.measurements;
        if thread.metadata.Some? { metadata := thread.metadata; }
      }
      ok := true;
    }

    /** A second Run is refused and attempts nothing; a failed one is fatal; a first one that creates an enclave makes
        it that of this process, with a handle that no other thread knows. */
    method HandleRun(run: RunOutcome) returns (r: Handled)
      requires enclaveId == "" ==> Empty()
      modifies `enclaveId, `enclaveName, `cid, `measurements, `metadata, `clearing, `describeThread, `attempts
      ensures old(enclaveId) != "" ==> r == Done(EEXIST, false) && unchanged(this)
      ensures old(enclaveId) == "" ==> r == if run.Creates? && run.setUp then Done(0, false) else Error
      ensures old(enclaveId) == "" && run.Creates? ==> Holding(run, false) && cid == Some(run.cid) && !clearing
      ensures old(enclaveId) == "" && !run.Creates? ==> cid == old(cid) && |attempts| <= 1
    {
      if enclaveId != "" { return Done(EEXIST, false); }
      if run.NoArguments? { return Error; }
      if run.NotCreated? {
        attempts := attempts + [Failed];
        return Error;
      }
      attempts := attempts + [Created(run.id, run.cid, run.thread)];
      enclaveId, enclaveName, cid, measurements, metadata := run.id, run.name, Some(run.cid), map[], None;
      describeThread, clearing := Some(run.thread), false;
      r := if run.setUp then Done(0, false) else Error;
    }

    /** A Describe that succeeds after the creation shows what the one thread computed; on a handle without CID it kills
        the process. */
    method HandleDescribe(io: Io, ghost run: RunOutcome, ghost fetched: bool)
      returns (r: Handled, shown: Option<Description>)
      requires (Holding(run, fetched) && cid.Some?) || Empty()
      modifies `describeThread, `measurements, `metadata, `joins
      ensures joins <= |attempts|
      ensures r.Panic? <==> cid.None? && io.argument.Some? && io.confirmed
      ensures r.Done? <==>
        && io.argument.Some? && io.confirmed && io.printed && cid.Some?
        && (old(Holding(run, fetched)) ==> run.thread.Computes?)
      ensures r.Done? ==> r == Done(0, false)
      ensures r.Done? && old(Holding(run, fetched)) ==> Holding(run, true)
      ensures r.Done? && old(Empty()) ==> Empty()
      ensures shown == if !r.Done? then None
                       else Some(Description(enclaveName, cid.value, measurements,
                                             if io.withMetadata then metadata else None))
    {
      shown := None;
      if io.argument.None? || !io.confirmed { return Error, None; }
      var ok := FetchDescribeResult(run, fetched);
      if !ok { return Error, None; }
      if cid.None? { return Panic, None; }
      if !io.printed { return Error, None; }
      shown := Some(Description(enclaveName, cid.value, measurements, if io.withMetadata then metadata else None));
      r := Done(0, false);
    }

    /** The ID goes out exactly to a caller that gives the enclave's name. */
    method HandleGetId(io: Io) returns (r: Handled)
      modifies `given
      ensures r == if io.confirmed && io.argument.Some? && (io.argument.value == enclaveName ==> io.printed)
                   then Done(0, false) else Error
      ensures given == old(given) +
        if r.Done? && enclaveId != "" && io.argument == Some(enclaveName) then [(enclaveName, enclaveId)] else []
    {
      if !io.confirmed || io.argument.None? { return Error; }
      if enclaveName == io.argument.value {
        if !io.printed { return Error; }
        if enclaveId != "" { given := given + [(enclaveName, enclaveId)]; }
      }
      r := Done(0, false);
    }

    method OnRun(io: Io, ghost p: Past) returns (r: Handled)
      requires Follows(p)
      modifies `enclaveId, `enclaveName, `cid, `measurements, `metadata, `clearing, `describeThread, `attempts
      ensures Kept() && Handles(p, Run, io, r, None)
    {
      r := HandleRun(io.run);
    }

    method OnTerminate(io: Io, ghost p: Past) returns (r: Handled)
      requires Follows(p)
      modifies `terminateThread, `clearing
      ensures Kept() && Handles(p, Terminate, io, r, None)
    {
      if !io.terminationStarts { return Error; }
      terminateThread, clearing := true, true;
      r := Done(0, false);
    }

    method OnGetId(io: Io, ghost p: Past) returns (r: Handled)
      requires Follows(p)
      modifies `given
      ensures Kept() && Handles(p, GetIDbyName, io, r, None)
    {
      r := HandleGetId(io);
    }

    method OnDescribe(io: Io, ghost p: Past) returns (r: Handled, shown: Option<Description>)
      requires Follows(p)
      modifies `describeThread, `measurements, `metadata, `joins
      ensures Kept() && Handles(p, Describe, io, r, shown)
    {
      r, shown := HandleDescribe(io, if p.run.Some? then p.run.value else NoArguments, p.joined);
    }

    /** The commands that change nothing. */
    method OnOther(cmd: Command, io: Io, ghost p: Past) returns (r: Handled)
      requires Follows(p) && cmd !in {Run, Terminate, GetIDbyName, Describe}
      ensures Handles(p, cmd, io, r, None)
    {
      match cmd {
        case TerminateComplete => r := Done(0, true);
        case GetEnclaveCID => r := if cid.None? then Panic else if io.printed then Done(0, false) else Error;
        case GetEnclaveFlags => r := if io.printed then Done(0, false) else Error;
        case GetEnclaveName => r := if io.confirmed && io.printed then Done(0, false) else Error;
        case ConnectionListenerStop => r := Done(0, true);
        case NotPermitted => r := Done(EACCES, false);
      }
    }

    /** `handle_command` after the inputs `h`; `shown` is what a successful Describe printed. */
    method HandleCommand(cmd: Command, io: Io, ghost p: Past) returns (r: Handled, shown: Option<Description>)
      requires Follows(p)
      modifies `enclaveId, `enclaveName, `cid, `measurements, `metadata, `terminateThread, `clearing, `describeThread,
               `attempts, `joins, `given
      ensures Kept() && Handles(p, cmd, io, r, shown)
    {
      shown := None;
      match cmd {
        case Run => r := OnRun(io, p);
        case Terminate => r := OnTerminate(io, p);
        case GetIDbyName => r := OnGetId(io, p);
        case Describe => r, shown := OnDescribe(io, p);
        case _ => r := OnOther(cmd, io, p);
      }
    }

    /** The end of a turn: clean-up if it is the last one, then the status for the command line. */
    method Conclude(answer: Answer, io: Io) returns (end: LoopEnd)
      modifies `terminateThread, `answers
      ensures end == if !done && (NeedsStatus(answer.cmd) ==> io.replied) then Waiting else Left
      ensures !done ==> terminateThread == old(terminateThread)
      ensures answers == old(answers) +
        if NeedsStatus(answer.cmd) && io.replied && (done ==> io.stopped && (old(terminateThread) ==> io.joined))
        then [answer] else []
    {
      if done {
        if !io.stopped { return Left; }
        if terminateThread {
          terminateThread := false;
          if !io.joined { return Left; }
        }
      }
      if NeedsStatus(answer.cmd) {
        if !io.replied { return Left; }
        answers := answers + [answer];
      }
      end := if done then Left else Waiting;
    }

    /** The loop ended at this input. */
    ghost predicate Ended(p: Past, input: Input)
      reads this
    {
      && answers == p.answers + LastWord(p, input)
      && (given == p.given || (input.Received? && given == p.given + GivenFor(p, input.io.argument)))
    }

    /** The turn after a command that was handled without a panic. */
    method Finish(cmd: Command, io: Io, r: Handled, shown: Option<Description>, ghost p: Past)
      returns (end: LoopEnd)
      requires Handles(p, cmd, io, r, shown) && !r.Panic? && answers == p.answers
      modifies `done, `terminateThread, `answers
      ensures end == EndAt(p, Input.Received(cmd, io))
      ensures if end.Waiting? then Ready(Add(p, Input.Received(cmd, io))) else Ended(p, Input.Received(cmd, io))
    {
      done := !r.Done? || r.stop;
      end := Conclude(Answer(cmd, if r.Done? then r.status else EINVAL, shown), io);
    }

    /** One turn of the loop on a received command. Any error makes it the last one. A command of the command line gets
        at most one status, and exactly one unless the loop ends; EINVAL goes with an error only. */
    method HandleReceived(cmd: Command, io: Io, ghost p: Past) returns (end: LoopEnd)
      requires Ready(p)
      modifies this
      ensures Kept() && end == EndAt(p, Input.Received(cmd, io))
      ensures if end.Waiting? then Ready(Add(p, Input.Received(cmd, io))) else Ended(p, Input.Received(cmd, io))
    {
      var r, shown := HandleCommand(cmd, io, p);
      if r.Panic? {
        assert Ended(p, Input.Received(cmd, io));
        return Crashed;
      }
      end := Finish(cmd, io, r, shown, p);
    }

    /** `EnclaveHandle::clear`, run by a termination thread on the handle that it shares with the loop. */
    method Clear(ghost p: Past)
      requires Follows(p) && clearing
      modifies `cid
      ensures Follows(Add(p, ThreadClears)) && cid == Some(0)
    {
      cid := Some(0);
    }

    /** The enclave of this Run is, or was, the only attempt, and has its ID and name. */
    ghost predicate Keeps(run: RunOutcome)
      reads this
    {
      && run.Creates? && attempts == [Created(run.id, run.cid, run.thread)]
      && enclaveId == run.id && enclaveName == run.name
    }

    /** What is left when the loop is over, whatever the last input was. */
    ghost predicate Remains(p: Past)
      reads this
    {
      && |attempts| <= 1 && joins <= |attempts| && (p.cid.Some? ==> cid.Some?)
      && (p.run.Some? ==> Keeps(p.run.value))
    }

    /** One turn of the loop. */
    method Turn(input: Input, ghost p: Past) returns (end: LoopEnd)
      requires Ready(p)
      modifies this
      ensures end == EndAt(p, input) && Remains(p)
      ensures if end.Waiting? then Ready(Add(p, input)) else Ended(p, input)
    {
      match input {
        case NoConnection => end := Left;
        case EnclaveHangUp => end := Left;
        case UnexpectedEvent => end := Waiting;
        case EventError => end := Left;
        case Unreadable => end := Left;
        case ThreadClears =>
          if clearing { Clear(p); }
          end := Waiting;
        case Received(cmd, io) => end := HandleReceived(cmd, io, p);
      }
    }

    /** `process_event_loop` on any sequence of inputs, with termination threads clearing the handle at any time. It
        ends at the first input after which it does not go on; `n` inputs came before. */
    method ProcessEventLoop(inputs: seq<Input>) returns (end: LoopEnd, n: nat)
      requires Ready(PastOf([]))
      modifies this
      ensures n <= |inputs| && Lasting(inputs[..n]) && Remains(PastOf(inputs[..n]))
      ensures end == if n < |inputs| then EndAt(PastOf(inputs[..n]), inputs[n]) else Waiting
      ensures if n < |inputs| then !GoesOn(PastOf(inputs[..n]), inputs[n]) && Ended(PastOf(inputs[..n]), inputs[n])
              else Ready(PastOf(inputs[..n]))
    {
      n := 0;
      ghost var p := PastOf([]);
      while n < |inputs|
        invariant n <= |inputs| && Ready(p) && p == PastOf(inputs[..n]) && Lasting(inputs[..n])
      {
        end := Turn(inputs[n], p);
        if !end.Waiting? { return end, n; }
        assert inputs[..n + 1] == inputs[..n] + [inputs[n]];
        LastingSnoc(inputs[..n], inputs[n]);
        OneMore(inputs[..n], inputs[n]);
        p := Add(p, inputs[n]);
        n := n + 1;
      }
      end := Waiting;
    }
  }

  /** Over a whole run from the start. The loop goes on until the first input that ends it, and until then answers
      exactly the commands that ask, in order: all with success except a Run after the first. Creation is attempted at
      most once and the thread joined at most once. The first Run, if the loop went on after it, created the enclave.
      Every Describe answered with status 0 after a Run that was showed what the thread of that creation computed, and
      every ID given to a caller is that of that creation. Told to stop, the process leaves the loop; if nothing goes
      wrong, it goes on. */
  method WholeRun(inputs: seq<Input>) returns (process: EnclaveProcess, end: LoopEnd, n: nat)
    ensures fresh(process) && n <= |inputs| && Lasting(inputs[..n]) && (end == Waiting <==> n == |inputs|)
    ensures n < |inputs| ==>
      !GoesOn(PastOf(inputs[..n]), inputs[n]) && end == EndAt(PastOf(inputs[..n]), inputs[n])
    ensures process.answers ==
      PastOf(inputs[..n]).answers + if n < |inputs| then LastWord(PastOf(inputs[..n]), inputs[n]) else []
    ensures end == Waiting ==> Commands(process.answers) == Asked(inputs)
    ensures forall i :: 0 <= i < |inputs| && Stop(inputs[i]) ==> n <= i && (n == i ==> end == Left)
    ensures AllHelpful(inputs) ==> end == Waiting
    ensures forall i: nat :: FirstRunAt(inputs, i) && Served(inputs[i].io) && i <= n ==> i < n
    ensures |process.attempts| <= 1 && process.joins <= |process.attempts|
    ensures forall i :: 0 <= i < n && FirstRunAt(inputs, i) ==>
      process.Keeps(inputs[i].io.run) && exists k :: 0 <= k < |process.answers| && RunOk(process.answers[k])
    ensures forall i, j :: 0 <= i < j < |process.answers| && RunOk(process.answers[i]) ==>
      (Described(process.answers[j]) ==>
         process.answers[j].shown.Some? && Measured(process.attempts, process.answers[j].shown.value))
    ensures forall i :: 0 <= i < |process.answers| && RunOk(process.answers[i]) ==>
      process.enclaveId != "" && exists run :: process.Keeps(run)
    ensures process.cid.None? ==> forall i :: 0 <= i < |process.answers| ==> !Described(process.answers[i])
    ensures process.given != [] ==> exists run :: process.Keeps(run)
    ensures forall i :: 0 <= i < |process.given| ==> process.given[i] == (process.enclaveName, process.enclaveId)
  {
    process := new EnclaveProcess();
    end, n := process.ProcessEventLoop(inputs);
    ghost var h, p := inputs[..n], PastOf(inputs[..n]);
    assert n == |inputs| ==> h == inputs;
    AllAnswered(h);
    assert AnswersOf(h, process.answers);
    TrueAnswers(h, process.answers);
    forall i | 0 <= i < |inputs| && Stop(inputs[i]) ensures n <= i && (n == i ==> end == Left) {
      StopEnds(inputs, n, i);
    }
    if AllHelpful(inputs) { HelpfulLasts(inputs); }
    forall i: nat | FirstRunAt(inputs, i) && Served(inputs[i].io) && i <= n ensures i < n {
      FirstRunServed(inputs, n, i);
    }
    forall i | 0 <= i < n && FirstRunAt(inputs, i) ensures p.run == Some(inputs[i].io.run) {
      RunOfPrefix(inputs, n, i);
    }
    forall i, j | 0 <= i < j < |process.answers| && RunOk(process.answers[i]) && Described(process.answers[j])
      ensures process.answers[j].shown.Some? && Measured(process.attempts, process.answers[j].shown.value)
    {
      TrueDescriptions(h, process.answers, i, j);
    }
    forall i | 0 <= i < |process.given|
      ensures p.run.Some? && process.given[i] == (process.enclaveName, process.enclaveId)
    {
      var argument := if n < |inputs| && inputs[n].Received? then inputs[n].io.argument else None;
      OursGiven(h, process.given, argument, i);
    }
    if process.given != [] { assert process.given[0] == (process.enclaveName, process.enclaveId); }
  }
}
