// The loopback handshake as a transition system: client and server joined by two byte channels, driven by poll
// callbacks, with the response sent in two halves.
module LoopbackSpec {
  import opened Bytes
  import opened Framing
  import opened Codec
  import opened ServerSpec
  import opened ServerTheorems
  import opened EndToEnd
  import Cl = ClientSpec

  datatype Phase = ServerRecv | ClientRecv | Done

  datatype Loop = Loop(
    srv: Srv, cli: Cl.Cli,
    toSrv: Bytes, toCli: Bytes,          // what is in flight
    segPending: bool,                    // the second half of the response is still to be sent
    srvPolling: bool, cliPolling: bool,  // which descriptor is watched
    phase: Phase, stopped: bool)

  // The read completed or failed: either way the event loop stops.
  function OnDone(l: Loop, r: Cl.Result): Loop {
    if r.regs.None? then l.(stopped := true) else l.(phase := Done, stopped := true)
  }

  // The first half of a response that is ready: sent at once, and the client is watched instead of the server.
  function FirstHalf(l: Loop): Loop {
    match l.srv.pending
    case None => l
    case Some(r) =>
      l.(toCli := l.toCli + r[..|r| / 2], segPending := true, srvPolling := false, cliPolling := true)
  }

  // The second half, left to the client's poll.
  ghost function SecondHalf(cfg: Config, l: Loop): Loop {
    if !l.segPending then l
    else match l.srv.pending
      case None => l.(segPending := false)
      case Some(r) =>
        l.(segPending := false, toCli := l.toCli + r[|r| / 2..], srv := ResponseSent(cfg, l.srv))
  }

  // The server's poll callback, when the transport delivers the first n bytes of its channel.
  ghost function SlaveOnPoll(cfg: Config, l: Loop, n: nat): Loop
    requires n <= |l.toSrv|
  {
    FirstHalf(l.(srv := Commit(cfg, l.srv, l.toSrv[..n]), toSrv := l.toSrv[n..]))
  }

  // What the client's poll callback reads, with the completion it may bring.
  ghost function ClientReads(recvCap: nat, l: Loop, n: nat): Loop
    requires n <= |l.toCli| && Cl.Ok(l.cli)
  {
    var c := Cl.Take(recvCap, l.cli, l.toCli[..n]);
    var l1 := l.(cli := c, toCli := l.toCli[n..]);
    if |c.done| > |l.cli.done| then OnDone(l1, c.done[|c.done| - 1]) else l1
  }

  // The client's poll callback.
  ghost function MasterOnPoll(cfg: Config, recvCap: nat, l: Loop, n: nat): Loop
    requires n <= |l.toCli| && Cl.Ok(l.cli)
  {
    SecondHalf(cfg, ClientReads(recvCap, l, n))
  }

  // n bytes can be read: some are in flight, and the reader has room for them.
  ghost predicate Enabled(cfg: Config, recvCap: nat, l: Loop, n: nat) {
    !l.stopped && n > 0 && Cl.Ok(l.cli) &&
    (if l.srvPolling then n <= |l.toSrv| && l.srv.pending.None? && n <= Free(cfg, l.srv)
     else l.cliPolling && n <= |l.toCli| && l.cli.current.Some? && |l.cli.recv| + n <= recvCap)
  }

  ghost function Poll(cfg: Config, recvCap: nat, l: Loop, n: nat): Loop
    requires Enabled(cfg, recvCap, l, n)
  {
    if l.srvPolling then SlaveOnPoll(cfg, l, n) else MasterOnPoll(cfg, recvCap, l, n)
  }

  // A run is determined by how many bytes each poll reads.
  ghost predicate IsRun(cfg: Config, recvCap: nat, l: Loop, sizes: seq<nat>)
    decreases |sizes|
  {
    sizes == [] ||
    (Enabled(cfg, recvCap, l, sizes[0]) && IsRun(cfg, recvCap, Poll(cfg, recvCap, l, sizes[0]), sizes[1..]))
  }

  ghost function End(cfg: Config, recvCap: nat, l: Loop, sizes: seq<nat>): Loop
    requires IsRun(cfg, recvCap, l, sizes)
    decreases |sizes|
  {
    if sizes == [] then l else End(cfg, recvCap, Poll(cfg, recvCap, l, sizes[0]), sizes[1..])
  }

  // ---------------------------------------------------------------------------------------------------------------

  // The set-up: sizes, and a read request that the server can answer.
  ghost predicate Setup(cfg: Config, recvCap: nat, units: set<nat>, p: EncodeParams) {
    && cfg.readCb.Some? && cfg.cap > 8 && cfg.respCap >= MAX_ADU && recvCap >= MAX_ADU
    && p.FromParams? && IsRead(p.funccode) && p.unitId != 0 && ByteVal(p.unitId) in units
    && InBounds(p.funccode, WordVal(p.count), StoredFor(cfg, p)) && Encodable(p) && Adu(Rtu, p).Some?
  }

  function Response(cfg: Config, p: EncodeParams): Bytes
    requires cfg.readCb.Some? && p.FromParams?
  {
    ReadResponse(p.unitId, p.funccode, Answer(cfg, p))
  }

  ghost predicate Start(l: Loop, units: set<nat>, p: EncodeParams)
    requires Encodable(p) && Adu(Rtu, p).Some? && p.FromParams?
  {
    var frame := Adu(Rtu, p).value;
    && l.srv == Srv([], None, units, [], false)
    && l.cli == Cl.Cli([], Some(Cl.Request(p.unitId, p.addr, frame)), l.cli.rxCount, [], false)
    && l.toSrv == frame && l.toCli == []
    && !l.segPending && l.srvPolling && !l.cliPolling && l.phase == ServerRecv && !l.stopped
  }

  // The three stages of the handshake. In all of them the client's buffer and the bytes in flight to it are a prefix
  // of the response, and what is missing is its second half while segPending.

  ghost predicate Requesting(units: set<nat>, p: EncodeParams, l: Loop)
    requires Encodable(p) && Adu(Rtu, p).Some?
  {
    && l.srvPolling && !l.cliPolling && !l.segPending && !l.stopped && l.phase == ServerRecv
    && l.srv == Srv(l.srv.queue, None, units, [], false)
    && l.srv.queue + l.toSrv == Adu(Rtu, p).value && l.toSrv != []
    && l.toCli == [] && l.cli.recv == [] && l.cli.done == []
  }

  ghost predicate HalfSent(cfg: Config, units: set<nat>, p: EncodeParams, l: Loop)
    requires cfg.readCb.Some? && p.FromParams?
  {
    var r := Response(cfg, p);
    && !l.srvPolling && l.cliPolling && l.segPending && !l.stopped && l.phase == ServerRecv
    && l.srv == Srv([], Some(r), units, [ReadCall(p.unitId, p.addr, p.count)], false)
    && l.toSrv == [] && l.toCli == r[..|r| / 2] && l.cli.recv == [] && l.cli.done == []
  }

  ghost predicate Responding(cfg: Config, units: set<nat>, p: EncodeParams, l: Loop)
    requires cfg.readCb.Some? && p.FromParams?
  {
    && !l.srvPolling && l.cliPolling && !l.segPending
    && l.srv == Srv([], None, units, [ReadCall(p.unitId, p.addr, p.count)], false)
    && l.toSrv == [] && l.cli.recv + l.toCli == Response(cfg, p)
    && (l.toCli != [] ==> l.cli.done == [] && !l.stopped && l.phase == ServerRecv)
    && (l.toCli == [] ==>
          && l.cli.done == [Cl.Result(p.unitId, p.addr, Meant(p.funccode, Answer(cfg, p)))]
          && l.stopped && l.phase == if Answer(cfg, p).Some? then Done else ServerRecv)
  }

  ghost predicate Inv(cfg: Config, units: set<nat>, p: EncodeParams, l: Loop)
    requires cfg.readCb.Some? && p.FromParams? && Encodable(p) && Adu(Rtu, p).Some?
  {
    && l.cli.current == Some(Cl.Request(p.unitId, p.addr, Adu(Rtu, p).value))
    && !l.cli.overrun
    && (Requesting(units, p, l) || HalfSent(cfg, units, p, l) || Responding(cfg, units, p, l))
  }

  // The bytes that are still to be delivered.
  ghost function Rank(cfg: Config, p: EncodeParams, l: Loop): nat
    requires cfg.readCb.Some? && p.FromParams?
  {
    |l.toSrv| + if l.cliPolling && !l.segPending then |l.toCli| else |Response(cfg, p)|
  }

  lemma RequestStep(cfg: Config, recvCap: nat, units: set<nat>, p: EncodeParams, l: Loop, n: nat)
    requires Setup(cfg, recvCap, units, p) && Inv(cfg, units, p, l) && Requesting(units, p, l)
    requires Enabled(cfg, recvCap, l, n)
    ensures Inv(cfg, units, p, Poll(cfg, recvCap, l, n))
    ensures Rank(cfg, p, Poll(cfg, recvCap, l, n)) < Rank(cfg, p, l)
  {
    hide Handle, Adu, ReadResponse, IsRead, InBounds, WholeRequest, Encodable, TryProcess, Meant, Answer;
    var f, data := Adu(Rtu, p).value, l.toSrv[..n];
    RequestIsAnswered(cfg, recvCap, units, p);
    assert l.toSrv == data + l.toSrv[n..];
    PartOf(l.srv.queue, data, l.toSrv[n..], f);
    RequestBytes(cfg, l.srv, data, f);
  }

  lemma RequestIsAnswered(cfg: Config, recvCap: nat, units: set<nat>, p: EncodeParams)
    requires Setup(cfg, recvCap, units, p)
    ensures WholeRequest(Adu(Rtu, p).value) && |Adu(Rtu, p).value| == 8 && Adu(Rtu, p).value[1] == p.funccode
    ensures Handle(cfg, units, Adu(Rtu, p).value)
         == Outcome(Some(Response(cfg, p)), [ReadCall(p.unitId, p.addr, p.count)], false)
  {
    hide Handle, Adu, ReadResponse, IsRead, InBounds, WholeRequest, Encodable, Answer;
    InBoundsIsInRange(p.funccode, WordVal(p.count), StoredFor(cfg, p));
    ReadAnswered(cfg, units, p);
  }

  // The middle of three parts of f, taken in behind the first.
  lemma PartOf(a: Bytes, b: Bytes, c: Bytes, f: Bytes)
    requires a + (b + c) == f
    ensures a + b <= f && (a + b) + c == f && (a + b == f <==> c == [])
  {
    assert (a + b) + c == a + (b + c);
  }

  lemma RequestBytes(cfg: Config, s: Srv, data: Bytes, f: Bytes)
    requires s.pending.None? && data != [] && s.queue + data <= f
    requires WholeRequest(f) && |f| <= MAX_FRAME && |f| < cfg.cap && !Handle(cfg, s.units, f).overrun
    ensures s.queue + data != f ==> Commit(cfg, s, data) == s.(queue := s.queue + data)
    ensures s.queue + data == f ==>
            var o := Handle(cfg, s.units, f);
            Commit(cfg, s, data) == s.(queue := [], pending := o.response, calls := s.calls + o.calls)
  {
    hide Handle, ParseRequest, WholeRequest;
    RequestPrefixCorrect(f, s.queue + data);
    OneStep(cfg, s, CommitEvent(data), f);
  }

  // The response is one whole frame, and completes the request as it is meant to.
  lemma ResponseFacts(cfg: Config, recvCap: nat, units: set<nat>, p: EncodeParams)
    requires Setup(cfg, recvCap, units, p)
    ensures WholeResponse(Response(cfg, p)) && 5 <= |Response(cfg, p)| <= MAX_ADU
    ensures |Adu(Rtu, p).value| == 8
    ensures Cl.Complete(Cl.Request(p.unitId, p.addr, Adu(Rtu, p).value), Response(cfg, p))
         == Cl.Result(p.unitId, p.addr, Meant(p.funccode, Answer(cfg, p)))
  {
    hide Adu, Encodable, ReadResponse, Cl.Complete, WholeResponse, WholeRequest, Meant, IsRead, InBounds, Handle,
         Answer;
    AnswerLength(cfg, p);
    RequestIsAnswered(cfg, recvCap, units, p);
    ReadResponseWhole(p.unitId, p.funccode, Answer(cfg, p));
    Cl.WholeResponseNonEmpty(Response(cfg, p));
    ReadCompletes(Cl.Request(p.unitId, p.addr, Adu(Rtu, p).value), p.funccode, Answer(cfg, p));
  }

  lemma HalfStep(cfg: Config, recvCap: nat, units: set<nat>, p: EncodeParams, l: Loop, n: nat)
    requires Setup(cfg, recvCap, units, p) && Inv(cfg, units, p, l) && HalfSent(cfg, units, p, l)
    requires Enabled(cfg, recvCap, l, n)
    ensures Inv(cfg, units, p, Poll(cfg, recvCap, l, n))
    ensures Rank(cfg, p, Poll(cfg, recvCap, l, n)) < Rank(cfg, p, l)
  {
    hide Adu, Encodable, ReadResponse, WholeResponse, Cl.Complete, Cl.Receive, Meant, TryProcess, IsRead, InBounds,
         Requesting;
    var r := Response(cfg, p);
    ResponseFacts(cfg, recvCap, units, p);
    var data := l.toCli[..n];
    assert r == l.toCli + r[|r| / 2..] && l.toCli == data + l.toCli[n..];
    assert data + (l.toCli[n..] + r[|r| / 2..]) == r;
    assert l.cli.recv + data == data;
    Cl.ResponseBytes(recvCap, l.cli, r, data);
    EmptyQueueStays(cfg, l.srv.(pending := None));
  }

  lemma ResponseStep(cfg: Config, recvCap: nat, units: set<nat>, p: EncodeParams, l: Loop, n: nat)
    requires Setup(cfg, recvCap, units, p) && Inv(cfg, units, p, l) && Responding(cfg, units, p, l)
    requires Enabled(cfg, recvCap, l, n)
    ensures Inv(cfg, units, p, Poll(cfg, recvCap, l, n))
    ensures Rank(cfg, p, Poll(cfg, recvCap, l, n)) < Rank(cfg, p, l)
  {
    hide Adu, Encodable, Response, WholeResponse, Cl.Complete, Cl.Receive, ResponseSent, Commit, IsRead, InBounds,
         Requesting, HalfSent;
    var r := Response(cfg, p);
    ResponseFacts(cfg, recvCap, units, p);
    var data := l.toCli[..n];
    assert l.toCli == data + l.toCli[n..];
    PartOf(l.cli.recv, data, l.toCli[n..], r);
    Cl.ResponseBytes(recvCap, l.cli, r, data);
    assert r + l.toCli[n..] == r <== l.toCli[n..] == [];
  }

  // Until the loop stops, bytes can be read.
  lemma NeverStuck(cfg: Config, recvCap: nat, units: set<nat>, p: EncodeParams, l: Loop)
    requires Setup(cfg, recvCap, units, p) && Inv(cfg, units, p, l)
    ensures Enabled(cfg, recvCap, l, 1) <==> !l.stopped
  {
    hide Adu, Encodable, ReadResponse, IsRead, InBounds, WholeResponse, Meant, Cl.Complete;
    ResponseFacts(cfg, recvCap, units, p);
    var r := Response(cfg, p);
    if Requesting(units, p, l) {
      assert |l.srv.queue| + |l.toSrv| == 8;
    } else if Responding(cfg, units, p, l) {
      assert |l.cli.recv| + |l.toCli| == |r|;
    }
  }

  lemma {:induction false} RunInvariant(cfg: Config, recvCap: nat, units: set<nat>, p: EncodeParams, l: Loop,
                                        sizes: seq<nat>)
    requires Setup(cfg, recvCap, units, p) && Inv(cfg, units, p, l) && IsRun(cfg, recvCap, l, sizes)
    ensures Inv(cfg, units, p, End(cfg, recvCap, l, sizes))
    ensures Rank(cfg, p, End(cfg, recvCap, l, sizes)) + |sizes| <= Rank(cfg, p, l)
    decreases |sizes|
  {
    hide Poll, Enabled, Rank, IsRead, InBounds, Adu, ReadResponse;
    if sizes != [] {
      var l' := Poll(cfg, recvCap, l, sizes[0]);
      if Requesting(units, p, l) {
        RequestStep(cfg, recvCap, units, p, l, sizes[0]);
      } else if HalfSent(cfg, units, p, l) {
        HalfStep(cfg, recvCap, units, p, l, sizes[0]);
      } else {
        ResponseStep(cfg, recvCap, units, p, l, sizes[0]);
      }
      RunInvariant(cfg, recvCap, units, p, l', sizes[1..]);
    }
  }

  lemma StartInvariant(cfg: Config, recvCap: nat, units: set<nat>, p: EncodeParams, l: Loop)
    requires Setup(cfg, recvCap, units, p) && Start(l, units, p)
    ensures Inv(cfg, units, p, l) && Rank(cfg, p, l) == 8 + |Response(cfg, p)|
  {
    hide Adu, Encodable, ReadResponse, IsRead, InBounds, WholeResponse, Meant, Cl.Complete, HalfSent, Responding;
    ResponseFacts(cfg, recvCap, units, p);
    assert [] + l.toSrv == l.toSrv;
  }

  // Every run of the handshake, whatever the sizes of its reads: it never has more polls than there are bytes to
  // deliver; it can always go on until it stops; and it stops exactly when the client has completed, once, with what
  // the server's single callback produced - in phase Done if that succeeded, and short of it if it failed.
  lemma HandshakeCompletes(cfg: Config, recvCap: nat, units: set<nat>, p: EncodeParams, l: Loop, sizes: seq<nat>)
    requires Setup(cfg, recvCap, units, p) && Start(l, units, p) && IsRun(cfg, recvCap, l, sizes)
    ensures |sizes| <= 8 + |Response(cfg, p)|
    ensures var e := End(cfg, recvCap, l, sizes);
            && (Enabled(cfg, recvCap, e, 1) <==> !e.stopped)
            && (e.stopped <==> e.cli.done != [])
            && (e.stopped ==>
                  && e.cli.done == [Cl.Result(p.unitId, p.addr, Meant(p.funccode, Answer(cfg, p)))]
                  && Delivered(p.funccode, WordVal(p.count), cfg.readCb.value(p.unitId, p.addr, p.count),
                               e.cli.done[0].regs)
                  && e.srv == Srv([], None, units, [ReadCall(p.unitId, p.addr, p.count)], false)
                  && !e.cli.overrun && (e.phase == Done <==> Answer(cfg, p).Some?))
  {
    MeantIsDelivered(cfg, p);
    hide Delivered;
    hide Setup, Adu, Encodable, ReadResponse, Meant, Enabled, InBounds, IsRead, IsRun;
    StartInvariant(cfg, recvCap, units, p, l);
    RunInvariant(cfg, recvCap, units, p, l, sizes);
    NeverStuck(cfg, recvCap, units, p, End(cfg, recvCap, l, sizes));
  }
}
