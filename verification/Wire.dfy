/** The byte streams between the command line and an enclave process: the length-prefixed frames of
    `common/mod.rs`, the readers in `connection_listener.rs` and `connection.rs`, and the output reader
    of `enclave_proc_comm.rs`. */
module Wire {
  import opened NeTypes

  type u64 = n: int | 0 <= n < 0x1_0000_0000_0000_0000 witness 0

  // ----- 64-bit little-endian values -----

  function Power(n: nat): nat { if n == 0 then 1 else 256 * Power(n - 1) }

  function ToLe(v: nat, n: nat): (bytes: seq<byte>)
    requires v < Power(n)
    ensures |bytes| == n
  {
    if n == 0 then [] else [v % 256] + ToLe(v / 256, n - 1)
  }

  function FromLe(bytes: seq<byte>): nat {
    if bytes == [] then 0 else bytes[0] + 256 * FromLe(bytes[1..])
  }

  lemma {:induction false} LeRoundTrip(v: nat, n: nat)
    requires v < Power(n)
    ensures FromLe(ToLe(v, n)) == v
  {
    if n > 0 {
      LeRoundTrip(v / 256, n - 1);
      assert ToLe(v, n)[1..] == ToLe(v / 256, n - 1);
    }
  }

  /** The less significant bytes come first. */
  lemma {:induction false} FromLeAppend(low: seq<byte>, high: seq<byte>)
    ensures FromLe(low + high) == FromLe(low) + Power(|low|) * FromLe(high)
    ensures |low| == 1 ==> FromLe(low) == low[0]
  {
    if low == [] {
      assert low + high == high;
    } else {
      assert (low + high)[1..] == low[1..] + high;
      FromLeAppend(low[1..], high);
      Distribute(low[0], FromLe(low[1..]), Power(|low| - 1), FromLe(high));
    }
  }

  lemma Distribute(a: int, b: int, p: int, h: int)
    ensures a + 256 * (b + p * h) == (a + 256 * b) + (256 * p) * h
  {
  }

  lemma PowerEight()
    ensures Power(8) == 0x1_0000_0000_0000_0000
  {
    assert Power(4) == 0x1_0000_0000;
  }

  function U64Bytes(v: u64): (bytes: seq<byte>)
    ensures |bytes| == 8 && FromLe(bytes) == v
  {
    PowerEight();
    LeRoundTrip(v, 8);
    ToLe(v, 8)
  }

  // ----- Frames -----

  /** A serialisation format. */
  datatype Codec<!T> = Codec(enc: T -> seq<byte>, dec: seq<byte> -> Option<T>)

  /** `t` is serialised to fewer than 2^64 bytes, from which it is recovered. */
  predicate Encodes<T(==)>(c: Codec<T>, t: T) {
    |c.enc(t)| < 0x1_0000_0000_0000_0000 && c.dec(c.enc(t)) == Some(t)
  }

  function Frame<T(==)>(c: Codec<T>, t: T): seq<byte>
    requires Encodes(c, t)
  {
    U64Bytes(|c.enc(t)|) + c.enc(t)
  }

  /** The object at the start of `data`, if there is one, and what is left to read. */
  function Receive<T>(c: Codec<T>, data: seq<byte>): (r: (Option<T>, seq<byte>))
    ensures r.0.Some? ==> |r.1| < |data|
  {
    if |data| < 8 then (None, [])
    else
      var size := FromLe(data[..8]);
      if |data| < 8 + size then (None, []) else (c.dec(data[8..8 + size]), data[8 + size..])
  }

  lemma ReceiveFrame<T>(c: Codec<T>, t: T, rest: seq<byte>)
    requires Encodes(c, t)
    ensures Receive(c, Frame(c, t) + rest) == (Some(t), rest)
  {
    var data := Frame(c, t) + rest;
    assert data[..8] == U64Bytes(|c.enc(t)|);
    assert data[8..8 + |c.enc(t)|] == c.enc(t) && data[8 + |c.enc(t)|..] == rest;
  }

  /** A frame of which the end is missing is not taken for an object. */
  lemma TruncatedFrame<T>(c: Codec<T>, t: T, n: nat)
    requires Encodes(c, t) && n < |Frame(c, t)|
    ensures Receive(c, Frame(c, t)[..n]) == (None, [])
  {
    var data := Frame(c, t)[..n];
    if n >= 8 { assert data[..8] == U64Bytes(|c.enc(t)|); }
  }

  /** One direction of a socket: the bytes written and not yet read. */
  class Stream {
    var data: seq<byte>

    constructor ()
      ensures data == []
    {
      data := [];
    }

    method WriteAll(bytes: seq<byte>)
      modifies this
      ensures data == old(data) + bytes
    {
      data := data + bytes;
    }

    method ReadExact(n: nat) returns (bytes: Option<seq<byte>>)
      modifies this
      ensures |old(data)| < n ==> bytes == None && data == []
      ensures |old(data)| >= n ==> bytes == Some(old(data)[..n]) && data == old(data)[n..]
    {
      if |data| < n {
        data := [];
        return None;
      }
      bytes := Some(data[..n]);
      data := data[n..];
    }

    method WriteU64(v: u64)
      modifies this
      ensures data == old(data) + U64Bytes(v)
    {
      WriteAll(U64Bytes(v));
    }

    method ReadU64() returns (v: Option<nat>)
      modifies this
      ensures |old(data)| < 8 ==> v == None && data == []
      ensures |old(data)| >= 8 ==> v == Some(FromLe(old(data)[..8])) && data == old(data)[8..]
    {
      var bytes := ReadExact(8);
      v := if bytes.None? then None else Some(FromLe(bytes.value));
    }

    /** A size and the serialised object, as every sender writes them. */
    method SendFrame<T(==)>(c: Codec<T>, t: T)
      requires Encodes(c, t)
      modifies this
      ensures data == old(data) + Frame(c, t)
    {
      WriteU64(|c.enc(t)|);
      WriteAll(c.enc(t));
    }

    /** `receive_from_stream`. */
    method ReceiveObject<T>(c: Codec<T>) returns (t: Option<T>)
      modifies this
      ensures (t, data) == Receive(c, old(data))
    {
      var size := ReadU64();
      if size.None? { return None; }
      var raw := ReadExact(size.value);
      if raw.None? { return None; }
      t := c.dec(raw.value);
      assert old(data)[8..][..size.value] == old(data)[8..8 + size.value];
    }
  }

  // ----- Commands -----

  datatype Command =
    | Run | Terminate | TerminateComplete | Describe | GetEnclaveCID | GetEnclaveFlags
    | GetEnclaveName | GetIDbyName | ConnectionListenerStop | NotPermitted

  /** What `enclave_proc_command_send_single` puts on the stream. */
  function CommandBytes<A(==)>(cc: Codec<Command>, ca: Codec<A>, cmd: Command, arg: Option<A>): seq<byte>
    requires Encodes(cc, cmd) && (arg.Some? ==> Encodes(ca, arg.value))
  {
    Frame(cc, cmd) + Frame(cc, cmd) + if arg.Some? then Frame(ca, arg.value) else []
  }

  function Copies(frame: seq<byte>, n: nat): seq<byte> {
    if n == 0 then [] else Copies(frame, n - 1) + frame
  }

  lemma OneMoreCopy(before: seq<byte>, frame: seq<byte>, n: nat)
    ensures before + Copies(frame, n) + frame == before + Copies(frame, n + 1)
  {
  }

  lemma TwoCopies(frame: seq<byte>)
    ensures Copies(frame, 2) == frame + frame
  {
    assert Copies(frame, 1) == frame;
  }

  method SendSingle<A(==)>(cc: Codec<Command>, ca: Codec<A>, cmd: Command, arg: Option<A>, socket: Stream)
    requires Encodes(cc, cmd) && (arg.Some? ==> Encodes(ca, arg.value))
    modifies socket
    ensures socket.data == old(socket.data) + CommandBytes(cc, ca, cmd, arg)
  {
    ghost var frame, before := Frame(cc, cmd), socket.data;
    for i := 0 to 2
      invariant socket.data == before + Copies(frame, i)
    {
      OneMoreCopy(before, frame, i);
      socket.SendFrame(cc, cmd);
    }
    TwoCopies(frame);
    if arg.Some? {
      socket.SendFrame(ca, arg.value);
    }
  }

  /** `handle_new_connection`: the listener takes the first copy; the stream is kept unless it says stop. */
  method HandleNewConnection(cc: Codec<Command>, stream: Stream) returns (cmd: Option<Command>, registered: bool)
    modifies stream
    ensures (cmd, stream.data) == Receive(cc, old(stream.data))
    ensures registered <==> cmd.Some? && cmd != Some(ConnectionListenerStop)
  {
    cmd := stream.ReceiveObject(cc);
    registered := cmd.Some? && cmd.value != ConnectionListenerStop;
  }

  /** `Connection::read_command`; `permitted` is the access policy for the peer's credentials. */
  method ReadCommand(cc: Codec<Command>, stream: Stream, permitted: Command -> bool) returns (cmd: Option<Command>)
    modifies stream
    ensures var r := Receive(cc, old(stream.data));
            stream.data == r.1
            && cmd == match r.0 case None => None case Some(c) => Some(if permitted(c) then c else NotPermitted)
  {
    cmd := stream.ReceiveObject(cc);
    if cmd.Some? && !permitted(cmd.value) { cmd := Some(NotPermitted); }
  }

  /** What the three readers of one connection recover. */
  datatype Received<A> = Received(first: Option<Command>, second: Option<Command>, arg: Option<A>, left: seq<byte>)

  function ReadConnection<A>(cc: Codec<Command>, ca: Codec<A>, data: seq<byte>, hasArg: bool): Received<A> {
    var (first, afterFirst) := Receive(cc, data);
    var (second, afterSecond) := Receive(cc, afterFirst);
    if hasArg then
      var (arg, left) := Receive(ca, afterSecond);
      Received(first, second, arg, left)
    else Received(first, second, None, afterSecond)
  }

  /** The listener, the command reader and the argument reader recover what was sent, and leave exactly the
      bytes that were behind it. */
  lemma CommandRoundTrip<A>(cc: Codec<Command>, ca: Codec<A>, cmd: Command, arg: Option<A>, rest: seq<byte>)
    requires Encodes(cc, cmd) && (arg.Some? ==> Encodes(ca, arg.value))
    ensures ReadConnection(cc, ca, CommandBytes(cc, ca, cmd, arg) + rest, arg.Some?)
         == Received(Some(cmd), Some(cmd), arg, rest)
  {
    var tail := (if arg.Some? then Frame(ca, arg.value) else []) + rest;
    assert CommandBytes(cc, ca, cmd, arg) + rest == Frame(cc, cmd) + (Frame(cc, cmd) + tail);
    ReceiveFrame(cc, cmd, Frame(cc, cmd) + tail);
    ReceiveFrame(cc, cmd, tail);
    if arg.Some? { ReceiveFrame(ca, arg.value, rest); }
  }

  // ----- Replies -----

  datatype Reply = StdOut(text: string) | StdErr(text: string) | Status(code: int)

  function Frames(c: Codec<Reply>, replies: seq<Reply>): seq<byte>
    requires forall r :: r in replies ==> Encodes(c, r)
  {
    if replies == [] then [] else Frame(c, replies[0]) + Frames(c, replies[1..])
  }

  /** The replies the output loop reads before the first failure. */
  function Decoded(c: Codec<Reply>, data: seq<byte>): seq<Reply>
    decreases |data|
  {
    var (r, rest) := Receive(c, data);
    if r.None? then [] else [r.value] + Decoded(c, rest)
  }

  function StdOutOf(replies: seq<Reply>): string {
    if replies == [] then ""
    else StdOutOf(replies[..|replies| - 1]) + if replies[|replies| - 1].StdOut? then replies[|replies| - 1].text else ""
  }

  function StdErrOf(replies: seq<Reply>): string {
    if replies == [] then ""
    else StdErrOf(replies[..|replies| - 1]) + if replies[|replies| - 1].StdErr? then replies[|replies| - 1].text else ""
  }

  function LastStatus(replies: seq<Reply>): Option<int> {
    if replies == [] then None
    else if replies[|replies| - 1].Status? then Some(replies[|replies| - 1].code)
    else LastStatus(replies[..|replies| - 1])
  }

  lemma OutputSnoc(seen: seq<Reply>, r: Reply)
    ensures StdOutOf(seen + [r]) == StdOutOf(seen) + if r.StdOut? then r.text else ""
    ensures StdErrOf(seen + [r]) == StdErrOf(seen) + if r.StdErr? then r.text else ""
    ensures LastStatus(seen + [r]) == if r.Status? then Some(r.code) else LastStatus(seen)
  {
    assert (seen + [r])[..|seen|] == seen;
  }

  lemma {:induction false} StdOutAppend(a: seq<Reply>, b: seq<Reply>)
    ensures StdOutOf(a + b) == StdOutOf(a) + StdOutOf(b)
  {
    if b == [] {
      assert a + b == a;
    } else {
      StdOutAppend(a, b[..|b| - 1]);
      assert (a + b)[..|a + b| - 1] == a + b[..|b| - 1];
    }
  }

  lemma {:induction false} StdErrAppend(a: seq<Reply>, b: seq<Reply>)
    ensures StdErrOf(a + b) == StdErrOf(a) + StdErrOf(b)
  {
    if b == [] {
      assert a + b == a;
    } else {
      StdErrAppend(a, b[..|b| - 1]);
      assert (a + b)[..|a + b| - 1] == a + b[..|b| - 1];
    }
  }

  /** Reply `i` is the last status, with this code. */
  ghost predicate LastStatusAt(replies: seq<Reply>, i: int, code: int) {
    0 <= i < |replies| && replies[i] == Status(code) && forall j :: i < j < |replies| ==> !replies[j].Status?
  }

  /** The status is that of the last status frame, and there is none exactly if no frame is a status. */
  lemma {:induction false} LastStatusExact(replies: seq<Reply>) returns (i: int)
    ensures LastStatus(replies).None? <==> NoStatus(replies)
    ensures LastStatus(replies).Some? ==> LastStatusAt(replies, i, LastStatus(replies).value)
  {
    i := |replies| - 1;
    if replies != [] {
      var init, last := replies[..i], replies[i];
      assert replies == init + [last];
      if !last.Status? {
        i := LastStatusExact(init);
        assert forall j :: 0 <= j < |init| ==> init[j] == replies[j];
      }
    }
  }

  lemma DecodedStep(c: Codec<Reply>, data: seq<byte>, seen: seq<Reply>)
    requires Receive(c, data).0.Some?
    ensures seen + Decoded(c, data) == seen + [Receive(c, data).0.value] + Decoded(c, Receive(c, data).1)
  {
  }

  /** `Connection::write_reply`, atomic under the connection's lock. */
  method WriteReply(c: Codec<Reply>, stream: Stream, reply: Reply)
    requires Encodes(c, reply)
    modifies stream
    ensures stream.data == old(stream.data) + Frame(c, reply)
  {
    stream.SendFrame(c, reply);
  }

  /** The loop of `enclave_proc_handle_output`. */
  method HandleOutput(c: Codec<Reply>, conn: Stream) returns (out: string, err: string, status: Option<int>)
    modifies conn
    ensures var replies := Decoded(c, old(conn.data));
            out == StdOutOf(replies) && err == StdErrOf(replies) && status == LastStatus(replies)
    ensures old(conn.data) == [] ==> out == "" && err == "" && status == None
    ensures status == None <==> NoStatus(Decoded(c, old(conn.data)))
  {
    var _ := LastStatusExact(Decoded(c, conn.data));
    out, err, status := "", "", None;
    ghost var seen: seq<Reply> := [];
    while true
      invariant seen + Decoded(c, conn.data) == Decoded(c, old(conn.data))
      invariant out == StdOutOf(seen) && err == StdErrOf(seen) && status == LastStatus(seen)
      decreases |conn.data|
    {
      ghost var before := conn.data;
      var reply := conn.ReceiveObject(c);
      if reply.None? { break; }
      OutputSnoc(seen, reply.value);
      DecodedStep(c, before, seen);
      seen := seen + [reply.value];
      match reply.value {
        case StdOut(text) => out := out + text;
        case StdErr(text) => err := err + text;
        case Status(code) => status := Some(code);
      }
    }
    assert seen + [] == seen;
  }

  /** The reader gets back every reply written before the end of the stream or the first bad frame. */
  lemma {:induction false} RepliesRoundTrip(c: Codec<Reply>, replies: seq<Reply>, tail: seq<byte>)
    requires Receive(c, tail).0.None? && forall r :: r in replies ==> Encodes(c, r)
    ensures Decoded(c, Frames(c, replies) + tail) == replies
  {
    if replies == [] {
      assert Frames(c, replies) + tail == tail;
    } else {
      var rest := Frames(c, replies[1..]) + tail;
      assert Frames(c, replies) + tail == Frame(c, replies[0]) + rest;
      ReceiveFrame(c, replies[0], rest);
      RepliesRoundTrip(c, replies[1..], tail);
    }
  }

  /** `c` is an interleaving of `a` and `b`. */
  ghost predicate Interleaves<T>(a: seq<T>, b: seq<T>, c: seq<T>) {
    if c == [] then a == [] && b == []
    else
      var last, rest := c[|c| - 1], c[..|c| - 1];
      || (a != [] && last == a[|a| - 1] && Interleaves(a[..|a| - 1], b, rest))
      || (b != [] && last == b[|b| - 1] && Interleaves(a, b[..|b| - 1], rest))
  }

  ghost predicate NoOutput(replies: seq<Reply>) {
    forall r :: r in replies ==> r.Status?
  }

  ghost predicate NoStatus(replies: seq<Reply>) {
    forall r :: r in replies ==> !r.Status?
  }

  /** Interleaving a writer of messages with a writer of statuses changes neither text nor status. */
  lemma {:induction false} InterleavingIsInvisible(messages: seq<Reply>, statuses: seq<Reply>, sent: seq<Reply>)
    requires Interleaves(messages, statuses, sent) && NoStatus(messages) && NoOutput(statuses)
    ensures StdOutOf(sent) == StdOutOf(messages) && StdErrOf(sent) == StdErrOf(messages)
    ensures LastStatus(sent) == LastStatus(statuses)
  {
    if sent != [] {
      var last, rest := sent[|sent| - 1], sent[..|sent| - 1];
      if messages != [] && last == messages[|messages| - 1] && Interleaves(messages[..|messages| - 1], statuses, rest) {
        assert last in messages;
        InterleavingIsInvisible(messages[..|messages| - 1], statuses, rest);
      } else {
        assert last in statuses;
        InterleavingIsInvisible(messages, statuses[..|statuses| - 1], rest);
      }
    }
  }

  /** Whatever order the two writers' frames take on the reply stream, the command line sees the same text and
      status. */
  lemma ReplyStream(c: Codec<Reply>, messages: seq<Reply>, statuses: seq<Reply>, sent: seq<Reply>, tail: seq<byte>)
    requires Receive(c, tail).0.None? && forall r :: r in sent ==> Encodes(c, r)
    requires Interleaves(messages, statuses, sent) && NoStatus(messages) && NoOutput(statuses)
    ensures var got := Decoded(c, Frames(c, sent) + tail);
            && StdOutOf(got) == StdOutOf(messages) && StdErrOf(got) == StdErrOf(messages)
            && LastStatus(got) == LastStatus(statuses)
  {
    RepliesRoundTrip(c, sent, tail);
    InterleavingIsInvisible(messages, statuses, sent);
  }
}
