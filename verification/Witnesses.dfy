// Inputs on which the code does not do what its documentation or evident intention says: one for each property that the
// other modules show to be false, or true only under a condition.
module Witnesses {
  import opened Bytes
  import opened Crc
  import opened Framing
  import opened Payload
  import opened Codec
  import opened ServerSpec
  import opened ServerBounds
  import opened ServerAnswers
  import opened ServerTheorems
  import opened Server
  import Cl = ClientSpec
  import P = Persist

  lemma Sealed(body: Bytes)
    ensures |Seal(body)| == |body| + 2 && body < Seal(body) && ValidFrame(Seal(body))
    ensures Seal(body)[..|Seal(body)|] == Seal(body)
  {
    hide Crc16;
    ValidIffSealed(Seal(body));
    assert Seal(body)[..|body|] == body;
  }

  lemma SmallBytes()
    ensures ByteVal(0) == 0 && ByteVal(1) == 1 && ByteVal(2) == 2 && ByteVal(0xFF) == 255
  {
    assert Count(0) == 0 && Count(1) == 1 && Count(2) == 2;
    CountTop();
  }

  // ---------------------------------------------------------------------------------------------------------------
  // The server.

  // An exception response, to a request for any unit, is a whole request that is answered by itself, whatever units are
  // registered.
  lemma ExceptionAnswersItself(cfg: Config, units: set<nat>, u: bv8, fc: bv8)
    requires cfg.respCap >= 5
    ensures var f := Seal([u, fc | 0x80, 0]);
            WholeRequest(f) && |f| == 5 && Handle(cfg, units, f) == Outcome(Some(f), [], false)
  {
    var f := Seal([u, fc | 0x80, 0]);
    Sealed([u, fc | 0x80, 0]);
    ExceptionBits(fc);
    assert f[0] == u && f[1] == fc | 0x80;
    assert (fc | 0x80) | 0x80 == fc | 0x80;
    RefuseFits(cfg, u, fc | 0x80, EXC_ILLEGAL_DATA_ADDR);
    hide ValidFrame, Seal, Refuse, IsRead, IsWriteSingle, IsWriteMultiple, IsException;
    WholeRequestParsed(f, cfg.stale);
    WholeRequestParts(f);
  }

  // So two idle servers on one line that see one such frame go on answering each other: each of them returns it, and is
  // as it was before.
  lemma ExceptionsForever(cfg: Config, s: Srv, u: bv8, fc: bv8)
    requires cfg.respCap >= 5 && cfg.cap > 5 && s.queue == [] && s.pending.None?
    ensures var f := Seal([u, fc | 0x80, 0]); var s' := Feed(cfg, s, f);
            s'.pending == Some(f) && ResponseSent(cfg, s') == s
  {
    ExceptionAnswersItself(cfg, s.units, u, fc);
    hide Handle, WholeRequest, Seal;
    FedBack(cfg, s, Seal([u, fc | 0x80, 0]));
  }

  lemma FedBack(cfg: Config, s: Srv, f: Bytes)
    requires s.queue == [] && s.pending.None? && WholeRequest(f) && 0 < |f| <= MAX_FRAME && |f| < cfg.cap
    requires Handle(cfg, s.units, f) == Outcome(Some(f), [], false)
    ensures Feed(cfg, s, f).pending == Some(f) && ResponseSent(cfg, Feed(cfg, s, f)) == s
  {
    hide Handle, ParseRequest;
    assert s.queue + f == f && View(f) == f && f[..|f|] == f && f[|f|..] == [];
  }

  // The code that reports a failing device is not the code on the wire.
  lemma DeviceFailureIsLost(cfg: Config, u: bv8, fc: bv8)
    requires cfg.respCap >= 5
    ensures Refuse(cfg, u, fc, EXC_SLAVE_DEVICE_FAILURE) == Some(Seal([u, fc | 0x80, 0]))
    ensures Refuse(cfg, u, fc, EXC_SLAVE_DEVICE_FAILURE)
         != Some(Wrap(Rtu, FromException(0, u, fc, EXC_SLAVE_DEVICE_FAILURE), [fc | 0x80, EXC_SLAVE_DEVICE_FAILURE]))
  {
    RefuseFits(cfg, u, fc, EXC_SLAVE_DEVICE_FAILURE);
    ExceptionCodeIsLost(cfg, u, fc, EXC_SLAVE_DEVICE_FAILURE);
  }

  // Unit 1, read 65535 registers: a callback that succeeds leads out of the arrays, however many registers it stores.
  lemma ReadOverruns(cfg: Config, units: set<nat>)
    requires 1 in units
    ensures var f := Seal([1, 0x03, 0, 0, 0xFF, 0xFF]);
            WholeRequest(f) && |f| >= 2 && (Callback(cfg, f).Some? ==> Handle(cfg, units, f).overrun)
  {
    var f := Seal([1, 0x03, 0, 0, 0xFF, 0xFF]);
    Sealed([1, 0x03, 0, 0, 0xFF, 0xFF]);
    SmallBytes();
    WordFF();
    assert f[0] == 1 && f[1] == 0x03 && f[4] == 0xFF && f[5] == 0xFF;
    hide ValidFrame, Seal, Handle, OutOfRange, ByteVal, WordVal, Word, Callback, Stored;
    OverrunIff(cfg, units, f);
  }

  lemma WordFF()
    ensures WordVal(Word(0xFF, 0xFF)) == 65535
  {
    BytesOfWord(0xFF, 0xFF);
    SmallBytes();
  }

  // 257 coils, with a callback that stores as many registers as it is asked for.
  lemma CoilReadOverruns(cfg: Config, units: set<nat>)
    requires 1 in units
    ensures var f := Seal([1, 0x01, 0, 0, 1, 1]);
            WholeRequest(f) && |f| >= 2
            && (Callback(cfg, f).Some? && Stored(cfg, f) == CountOf(f) == 257 ==> Handle(cfg, units, f).overrun)
            && CountOf(f) == 257
  {
    var f := Seal([1, 0x01, 0, 0, 1, 1]);
    Sealed([1, 0x01, 0, 0, 1, 1]);
    SmallBytes();
    BytesOfWord(1, 1);
    assert f[0] == 1 && f[1] == 0x01 && f[4] == 1 && f[5] == 1;
    hide ValidFrame, Seal, Handle, OutOfRange, ByteVal, Word, Callback, Stored;
    OverrunIff(cfg, units, f);
  }

  // A write of 65535 registers or coils that brings no data reads what it does not have.
  lemma WriteOverruns(cfg: Config, units: set<nat>, fc: bv8)
    requires 1 in units && IsWriteMultiple(fc)
    ensures var f := Seal([1, fc, 0, 0, 0xFF, 0xFF, 0]);
            WholeRequest(f) && |f| == 9 && Handle(cfg, units, f).overrun
  {
    var f := Seal([1, fc, 0, 0, 0xFF, 0xFF, 0]);
    Sealed([1, fc, 0, 0, 0xFF, 0xFF, 0]);
    SmallBytes();
    WordFF();
    FunctionsAreNotExceptions(fc);
    ReadsAreNotWrites(fc);
    assert f[0] == 1 && f[1] == fc && f[4] == 0xFF && f[5] == 0xFF && f[6] == 0;
    hide ValidFrame, Seal, Handle, OutOfRange, ByteVal, WordVal, Word, Callback, Stored, IsException;
    OverrunIff(cfg, units, f);
  }

  // 124 registers with their data make a frame of 257 bytes: too long for the request buffer, whatever its unit.
  lemma LongFrameOverruns(cfg: Config, units: set<nat>, u: bv8)
    ensures var f := Seal([u, 0x10, 0, 0, 0, ByteOf(124), ByteOf(248)] + seq(248, _ => 0));
            WholeRequest(f) && |f| == 257 && Handle(cfg, units, f).overrun
  {
    var body := [u, 0x10, 0, 0, 0, ByteOf(124), ByteOf(248)] + seq(248, _ => 0);
    var f := Seal(body);
    Sealed(body);
    ByteOfVal(248);
    assert f[1] == 0x10 && f[6] == ByteOf(248);
    hide ValidFrame, Seal, Handle, OutOfRange, ByteVal, ByteOf, CountInRange;
    OverrunIff(cfg, units, f);
  }

  // A request behind a broadcast waits although it is whole, and nothing is there to be sent.
  lemma BroadcastStalls(cfg: Config, s: Srv)
    requires cfg.cap > 16 && s.queue == [] && s.pending.None?
    ensures var f := Seal([0, 0x06, 0, 0, 0, 7]);
            WholeRequest(f) && Feed(cfg, s, f + f).queue == f && Feed(cfg, s, f + f).pending.None?
  {
    var f := Seal([0, 0x06, 0, 0, 0, 7]);
    Sealed([0, 0x06, 0, 0, 0, 7]);
    assert f[0] == 0 && f[1] == 0x06;
    hide ValidFrame, Seal, OutOfRange, CountOf, Stored, Callback, AnyUnit;
    InRangeIsSafe(cfg, s.units, f, 0);
    hide Safe, InRange;
    BroadcastIsSilent(cfg, s.units, f);
    StallsBehindUnanswered(cfg, s, f, f);
  }

  lemma BroadcastIsSilent(cfg: Config, units: set<nat>, f: Bytes)
    requires WholeRequest(f) && |f| >= 5 && Safe(cfg, units, f) && f[0] == 0 && !IsException(f[1])
    ensures Handle(cfg, units, f).response.None?
  {
    hide ParsePdu, BroadcastCalls, IsException, Padded, Safe, OutOfRange;
    OverrunIff(cfg, units, f);
    WholeRequestParts(f);
    SafeLength(cfg, units, f);
    WholeRequestParsed(f, cfg.stale);
  }

  // Three bytes are lost by committing one byte more than is free.
  method CommitForgets(readCb: Option<ReadCb>, writeCb: Option<WriteCb>, stale: nat -> bv8, staleRegs: nat -> bv16)
    returns (before: nat, after: nat)
    ensures before == 3 && after == 0
  {
    var s := new ModbusServer(8, 0, [1, 0, 0, 0], readCb, writeCb, stale, staleRegs);
    assert View([1, 3, 0]) == [1, 3, 0] && [] + [1, 3, 0] == [1, 3, 0];
    s.Feed([1, 3, 0]);
    before := s.BufUsed();
    s.Commit(5);
    after := s.BufUsed();
  }

  // ---------------------------------------------------------------------------------------------------------------
  // The client.

  // A write of one register, encoded from parameters: the server waits for a byte that has not been sent.
  lemma WriteNeverArrives()
    ensures var p := FromParams(0, 1, 0x10, 0, 1, Some([0, 7]));
            Encodable(p) && Adu(Rtu, p).Some? && |Adu(Rtu, p).value| == 10
            && !WholeRequest(Adu(Rtu, p).value) && ParseRequest(Adu(Rtu, p).value) == NeedMore
  {
    var p := FromParams(0, 1, 0x10, 0, 1, Some([0, 7]));
    SmallBytes();
    assert Hi(1) == 0 && Lo(1) == 1;
    assert WordVal(1) == 1;
    assert ByteOf(2) == 2 && ByteCount(0x10, 1) == 2;
    hide ByteVal, WordVal, ByteCount, Seal, WholeRequest, ParseRequest;
    RequestArrivesIff(p);
  }

  // One register, then one byte more: the request completes twice.
  lemma CompletesTwice(cap: nat, c: Cl.Cli, b: bv8)
    requires Cl.Ok(c) && c.current.Some? && c.recv == [] && cap >= 8
    ensures var f := Seal([1, 0x03, 2, 0, 7]);
            WholeResponse(f) && |f| == 7
            && Cl.TakeAll(cap, c, [f, [b]]).done
               == c.done + [Cl.Complete(c.current.value, f), Cl.Complete(c.current.value, f)]
  {
    var f := Seal([1, 0x03, 2, 0, 7]);
    Sealed([1, 0x03, 2, 0, 7]);
    SmallBytes();
    assert f[1] == 0x03 && f[2] == 2;
    hide ValidFrame, Seal, ByteVal;
    assert WholeResponse(f);
    hide WholeResponse;
    OneAndOneMore(cap, c, f, [b]);
  }

  lemma OneAndOneMore(cap: nat, c: Cl.Cli, f: Bytes, more: Bytes)
    requires Cl.Ok(c) && c.current.Some? && c.recv == [] && WholeResponse(f) && 5 <= |f| <= MAX_ADU
    requires more != [] && |f| + |more| <= cap
    ensures Cl.TakeAll(cap, c, [f, more]).done
         == c.done + [Cl.Complete(c.current.value, f), Cl.Complete(c.current.value, f)]
  {
    hide Cl.Complete, Cl.Take, Cl.TakeAll, WholeResponse;
    var chunks := [f, more];
    assert chunks[..0] == [] && chunks[..1] == [f] && chunks[1..] == [more];
    assert [f][..0] == [] && [] + f == f && [more][..0] == [];
    Cl.CompletionsExactly(cap, c, f, chunks, 0);
    assert Cl.Repeated(Cl.Complete(c.current.value, f), 2)
        == [Cl.Complete(c.current.value, f), Cl.Complete(c.current.value, f)];
  }

  // The echo of a single write, which is what a server answers if the write succeeded, completes it as a failure.
  lemma WriteFails(addr: bv16, f: Bytes)
    requires f == Seal([1, 0x06, 0, 0, 0, 7])
    ensures WholeRequest(f) && WholeResponse(f) && |f| == 8
    ensures Cl.Complete(Cl.Request(1, addr, f), f) == Cl.Result(1, addr, None)
  {
    Sealed([1, 0x06, 0, 0, 0, 7]);
    assert f[0] == 1 && f[1] == 0x06;
    hide ValidFrame, Seal;
  }

  // And the echo of a multiple write is not a response to the client at all.
  lemma MultipleEchoIsNoResponse()
    ensures var f := Seal([1, 0x10, 0, 0, 0, 1, 2, 0, 7]); WholeRequest(f) && !WholeResponse(f)
  {
    var f := Seal([1, 0x10, 0, 0, 0, 1, 2, 0, 7]);
    Sealed([1, 0x10, 0, 0, 0, 1, 2, 0, 7]);
    SmallBytes();
    assert f[1] == 0x10 && f[6] == 2;
    assert IsWriteMultiple(0x10) && !IsWriteSingle(0x10) && !IsRead(0x10) && !IsException(0x10);
    hide ValidFrame, Seal, ByteVal, IsWriteMultiple, IsWriteSingle, IsRead, IsException;
    assert WholeRequest(f);
    hide ParseResponse;
    EchoWholeIff(f);
  }

  // A response with 255 bytes of data does not fit the client's PDU array.
  lemma ResponseOverruns(cap: nat, c: Cl.Cli)
    requires Cl.Ok(c) && c.current.Some? && c.recv == [] && !c.overrun && cap >= MAX_FRAME
    ensures var f := Seal([1, 0x03, 0xFF] + seq(255, _ => 0));
            WholeResponse(f) && |f| == 260 && Cl.Take(cap, c, f).overrun
  {
    var f := Seal([1, 0x03, 0xFF] + seq(255, _ => 0));
    Sealed([1, 0x03, 0xFF] + seq(255, _ => 0));
    SmallBytes();
    assert f[1] == 0x03 && f[2] == 0xFF;
    hide ValidFrame, Seal, ByteVal, Cl.Complete;
    assert c.recv + f == f;
    Cl.OverrunIff(cap, c, f, f);
  }

  // ---------------------------------------------------------------------------------------------------------------
  // Persistence.

  function Fresh(): P.Sys {
    P.Sys([], true, true, P.Opening, map[], map[], [], [], 0, false, false)
  }

  // An item that has been put, by a consumer that runs on, is not on the disk.
  lemma PutIsNotDurable(item: P.Item)
    requires P.WellFormed(item)
    ensures var t, s := P.Tables({}, {}, [], []), Fresh();
            var events := [P.Dump, P.Enqueue(item), P.CheckRunning, P.PollReady, P.Read];
            && P.Init(s, map[]) && P.IsRun(t, s, events)
            && (var e := P.End(t, s, events);
                && e.running && e.writeOpen && !e.readFailed && e.pipe == []
                && e.enqueued == e.puts == [item] && P.KeyOf(item) in e.work && e.disk == map[])
  {
    hide P.ItemBytes, P.ItemsOf, P.PutAll, P.KeyOf;
    var t, s := P.Tables({}, {}, [], []), Fresh();
    var dumped := s.(pc := P.Checking);
    assert P.Step(t, s, P.Dump) == dumped;
    var b := P.ItemBytes(item);
    var filled := dumped.(pipe := b, enqueued := [item]);
    assert P.Step(t, dumped, P.Enqueue(item)) == filled by { assert [] + b == b && [] + [item] == [item]; }
    var reading := filled.(pc := P.Reading);
    assert P.Step(t, P.Step(t, filled, P.CheckRunning), P.PollReady) == reading;
    assert b[..|b|] == b && b[|b|..] == [];
    OneItem(item);
    assert [] + [item] == [item];
    FiveSteps(t, s, P.Dump, P.Enqueue(item), P.CheckRunning, P.PollReady, P.Read);
  }

  lemma OneItem(item: P.Item)
    requires P.WellFormed(item)
    ensures P.ItemsOf(P.ItemBytes(item)) == [item]
    ensures P.KeyOf(item) in P.PutAll(map[], [item])
  {
    hide P.ItemBytes, P.KeyOf;
    assert [item][1..] == [] && [item][..0] == [];
    assert P.AllBytes([item]) == P.ItemBytes(item) + [] == P.ItemBytes(item);
    P.ItemsRoundTrip([item]);
  }

  lemma FiveSteps(t: P.Tables, s: P.Sys, e1: P.Event, e2: P.Event, e3: P.Event, e4: P.Event, e5: P.Event)
    requires P.Enabled(s, e1)
    requires var s1 := P.Step(t, s, e1); var s2 := P.Step(t, s1, e2); var s3 := P.Step(t, s2, e3);
             P.Enabled(s1, e2) && P.Enabled(s2, e3) && P.Enabled(s3, e4) && P.Enabled(P.Step(t, s3, e4), e5)
    ensures var s3 := P.Step(t, P.Step(t, P.Step(t, s, e1), e2), e3); var events := [e1, e2, e3, e4, e5];
            P.IsRun(t, s, events) && P.End(t, s, events) == P.Step(t, P.Step(t, s3, e4), e5)
  {
    hide P.Step, P.Enabled;
    var s1 := P.Step(t, s, e1);
    var s2 := P.Step(t, s1, e2);
    var s3 := P.Step(t, s2, e3);
    var s4 := P.Step(t, s3, e4);
    FirstStep(t, s4, e5, [], [e5]);
    FirstStep(t, s3, e4, [e5], [e4, e5]);
    FirstStep(t, s2, e3, [e4, e5], [e3, e4, e5]);
    FirstStep(t, s1, e2, [e3, e4, e5], [e2, e3, e4, e5]);
    FirstStep(t, s, e1, [e2, e3, e4, e5], [e1, e2, e3, e4, e5]);
  }

  lemma FirstStep(t: P.Tables, s: P.Sys, e: P.Event, rest: seq<P.Event>, events: seq<P.Event>)
    requires events == [e] + rest && P.Enabled(s, e) && P.IsRun(t, P.Step(t, s, e), rest)
    ensures P.IsRun(t, s, events) && P.End(t, s, events) == P.End(t, P.Step(t, s, e), rest)
  {
    hide P.Step, P.Enabled;
    assert events[1..] == rest;
  }
}
