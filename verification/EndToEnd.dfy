// Client, byte stream, server, byte stream, client: what a read delivers, in whatever pieces the bytes arrive.
module EndToEnd {
  import opened Bytes
  import opened Crc
  import opened Framing
  import opened Payload
  import opened Codec
  import opened ServerSpec
  import opened ServerBounds
  import opened ServerTheorems
  import opened ServerAnswers
  import Cl = ClientSpec

  // However a request arrives, by copy or by zero-copy or by both, the server does nothing before its last byte and
  // answers it with the last one.
  lemma {:induction false} RequestInChunks(cfg: Config, s: Srv, f: Bytes, events: seq<Event>)
    requires s.queue == [] && s.pending.None? && WholeRequest(f) && |f| < cfg.cap
    requires Safe(cfg, s.units, f) && SentEvent !in events
    ensures Fed(events) < f ==> Run(cfg, s, events) == s.(queue := Fed(events))
    ensures Fed(events) == f ==>
            var o := Handle(cfg, s.units, f);
            Run(cfg, s, events) == s.(pending := o.response, calls := s.calls + o.calls)
  {
    hide Handle, WholeRequest, ParseRequest, OutOfRange, Safe;
    OverrunIff(cfg, s.units, f);
    SafeLength(cfg, s.units, f);
    if events != [] {
      var before, e := events[..|events| - 1], events[|events| - 1];
      assert e in events;
      RequestInChunks(cfg, s, f, before);
      assert e.data == [] ==> Fed(events) == Fed(before);
      if e.data != [] && Fed(events) <= f {
        var q := Fed(events);
        assert q == Fed(before) + e.data && Fed(before) < f;
        RequestPrefixCorrect(f, q);
        assert View(q) == q;
        OneStep(cfg, s.(queue := Fed(before)), e, f);
      }
    }
  }

  lemma OneStep(cfg: Config, s: Srv, e: Event, f: Bytes)
    requires !e.SentEvent? && e.data != [] && s.pending.None? && s.queue + e.data <= f
    requires |f| <= MAX_FRAME && |f| < cfg.cap && !Handle(cfg, s.units, f).overrun
    requires ParseRequest(s.queue + e.data) == if s.queue + e.data == f then Ready(|f|) else NeedMore
    ensures s.queue + e.data != f ==> Step(cfg, s, e) == s.(queue := s.queue + e.data)
    ensures s.queue + e.data == f ==>
            var o := Handle(cfg, s.units, f);
            Step(cfg, s, e) == s.(queue := [], pending := o.response, calls := s.calls + o.calls)
  {
    hide Handle, ParseRequest;
    var q := s.queue + e.data;
    assert View(q) == q && q[..|q|] == q && q[|q|..] == [];
    CommitIsFeed(cfg, s, e.data);
  }

  // ---------------------------------------------------------------------------------------------------------------
  // The response to a read.

  // The registers that a read puts on the wire: the first of the array, after the callback has stored what it stores.
  function Answer(cfg: Config, p: EncodeParams): Option<seq<bv16>>
    requires cfg.readCb.Some? && p.FromParams?
  {
    match cfg.readCb.value(p.unitId, p.addr, p.count)
    case None => None
    case Some(stored) => Some(Taken(stored, Wanted(p.funccode, WordVal(p.count)), cfg.staleRegs))
  }

  function StoredFor(cfg: Config, p: EncodeParams): nat
    requires cfg.readCb.Some? && p.FromParams?
  {
    var r := cfg.readCb.value(p.unitId, p.addr, p.count);
    if r.None? then 0 else |r.value|
  }

  // What the client is meant to get: these registers, for coils the low byte of each, and a failure if the callback
  // failed.
  function Meant(fc: bv8, r: Option<seq<bv16>>): Option<seq<bv16>> {
    match r
    case None => None
    case Some(regs) => Some(if IsCoilRead(fc) then Widen(LowBytes(regs)) else regs)
  }

  // What a client must get for the registers that a callback stored, or for its failure: for a coil read one register
  // for each eight coils, with the low byte of the one stored; for a register read as many as were asked for, as
  // stored.
  function Item(fc: bv8, v: bv16): bv16 {
    if fc == 0x01 || fc == 0x02 then v & 0xFF else v
  }

  ghost predicate Delivered(fc: bv8, count: nat, stored: Option<seq<bv16>>, got: Option<seq<bv16>>) {
    match stored
    case None => got.None?
    case Some(values) =>
      var coils := fc == 0x01 || fc == 0x02;
      && got.Some? && |got.value| == (if coils then (count + 7) / 8 else count)
      && forall i :: 0 <= i < |got.value| && i < |values| ==>
           got.value[i] == Item(fc, values[i])
  }

  lemma MeantIsDelivered(cfg: Config, p: EncodeParams)
    requires cfg.readCb.Some? && p.FromParams?
    ensures Delivered(p.funccode, WordVal(p.count), cfg.readCb.value(p.unitId, p.addr, p.count),
                      Meant(p.funccode, Answer(cfg, p)))
  {
    hide WordVal, Widen, LowBytes;
    var r := Answer(cfg, p);
    if r.Some? && IsCoilRead(p.funccode) {
      CoilRoundTrip(p.funccode, WordVal(p.count), r.value);
    }
  }

  // The counts that all arrays on the way have room for, in server and client.
  predicate InBounds(fc: bv8, count: nat, stored: nat) {
    stored <= 256 && count <= if IsCoilRead(fc) then 1024 else 125
  }

  lemma InBoundsIsInRange(fc: bv8, count: nat, stored: nat)
    requires IsRead(fc) && InBounds(fc, count, stored)
    ensures CountInRange(fc, count, stored) && 3 + 2 + RawLength(fc, count) <= MAX_ADU
  {
    hide IsRead, IsCoilRead;
  }

  function ResponsePdu(fc: bv8, r: Option<seq<bv16>>): Bytes {
    match r
    case None => [fc | 0x80, 0]
    case Some(regs) => ReadPdu(fc, ReadData(fc, regs))
  }

  function ReadResponse(unitId: bv8, fc: bv8, r: Option<seq<bv16>>): Bytes {
    Seal([unitId] + ResponsePdu(fc, r))
  }

  lemma ReadResponseWhole(unitId: bv8, fc: bv8, r: Option<seq<bv16>>)
    requires IsRead(fc)
    ensures WholeResponse(ReadResponse(unitId, fc, r)) && |ReadResponse(unitId, fc, r)| == 3 + |ResponsePdu(fc, r)|
  {
    FunctionsAreNotExceptions(fc);
    ExceptionBits(fc);
    hide Crc16, Hi, Lo, IsException, IsRead, ReadPdu, ReadData, ByteVal;
    var pdu := ResponsePdu(fc, r);
    var f := ReadResponse(unitId, fc, r);
    if r.Some? {
      ReadPduFields(fc, ReadData(fc, r.value));
    }
    assert f[1] == pdu[0] && f[2] == pdu[1] && |f| == |pdu| + 3;
    RtuRoundTrip(FromPdu(0, unitId, pdu), pdu);
    assert f[..|f|] == f;
  }

  // What the client makes of it.
  lemma ReadParses(fc: bv8, r: Option<seq<bv16>>)
    requires IsRead(fc)
    requires r.Some? ==> |r.value| <= if IsCoilRead(fc) then 128 else 125
    ensures 2 <= |ResponsePdu(fc, r)| <= MAX_PDU
    ensures ParseReadPdu(ResponsePdu(fc, r), fc, 128)
         == if r.None? then ReadFailed(-100) else Registers(Meant(fc, r).value)
  {
    ExceptionIsFailure(fc, 0);
    assert IsCoilRead(fc) || fc == 0x03 || fc == 0x04;
    hide ParseReadPdu, IsRead, IsCoilRead, ReadPdu, Widen, LowBytes, PackRegs;
    if r.Some? {
      ReadPduFields(fc, ReadData(fc, r.value));
      if IsCoilRead(fc) {
        CoilRoundTrip(fc, 8 * |r.value|, r.value);
      } else {
        RegisterRoundTrip(fc, r.value);
      }
    }
  }

  lemma ReadCompletes(req: Cl.Request, fc: bv8, r: Option<seq<bv16>>)
    requires IsRead(fc) && |req.frame| >= 2 && req.frame[1] == fc
    requires r.Some? ==> |r.value| <= if IsCoilRead(fc) then 128 else 125
    ensures 5 <= |ReadResponse(req.unitId, fc, r)| <= MAX_ADU
    ensures Cl.Complete(req, ReadResponse(req.unitId, fc, r)) == Cl.Result(req.unitId, req.addr, Meant(fc, r))
  {
    hide Seal, Decode, ParseReadPdu, IsRead, IsCoilRead, ResponsePdu, Widen, LowBytes, PackRegs, WholeResponse;
    ReadParses(fc, r);
    ReadResponseWhole(req.unitId, fc, r);
    var pdu := ResponsePdu(fc, r);
    RtuRoundTrip(FromPdu(0, req.unitId, pdu), pdu);
  }

  // Beyond these counts, in responses that the arrays of both ends still hold: coils are a failure, because the client
  // has 128 registers; and a register count of 128 or more completes with success, but without the 128 registers by
  // which the byte count has wrapped.
  lemma ReadCompletesBeyond(req: Cl.Request, fc: bv8, regs: seq<bv16>)
    requires IsRead(fc) && |req.frame| >= 2 && req.frame[1] == fc
    requires if IsCoilRead(fc) then 128 < |regs| <= 251 else 128 <= |regs| <= 253
    ensures 5 <= |ReadResponse(req.unitId, fc, Some(regs))| <= MAX_ADU
    ensures Cl.Complete(req, ReadResponse(req.unitId, fc, Some(regs)))
         == Cl.Result(req.unitId, req.addr, if IsCoilRead(fc) then None else Some(regs[..|regs| - 128]))
  {
    assert IsCoilRead(fc) || fc == 0x03 || fc == 0x04;
    var pdu := ResponsePdu(fc, Some(regs));
    ParsesBeyond(fc, regs);
    hide Seal, Decode, ParseReadPdu, IsRead, IsCoilRead, ResponsePdu, WholeResponse;
    ReadResponseWhole(req.unitId, fc, Some(regs));
    RtuRoundTrip(FromPdu(0, req.unitId, pdu), pdu);
  }

  lemma ParsesBeyond(fc: bv8, regs: seq<bv16>)
    requires IsRead(fc)
    requires if IsCoilRead(fc) then 128 < |regs| <= 251 else 128 <= |regs| <= 253
    ensures 2 <= |ResponsePdu(fc, Some(regs))| <= MAX_PDU
    ensures ParseReadPdu(ResponsePdu(fc, Some(regs)), fc, 128)
         == if IsCoilRead(fc) then ReadFailed(-1) else Registers(regs[..|regs| - 128])
  {
    hide ParseReadPdu, IsRead, ReadPdu, Widen, LowBytes, PackRegs, UnpackRegs;
    var data := ReadData(fc, regs);
    ReadPduFields(fc, data);
    ParseReadResponse(fc, data);
    if !IsCoilRead(fc) {
      hide ReadData, IsCoilRead;
      WrappedCount(|regs|);
      PackPrefix(regs, |regs| - 128);
      UnpackPack(regs[..|regs| - 128]);
    }
  }

  lemma WrappedCount(n: nat)
    requires 128 <= n <= 253
    ensures 2 * n % 256 == 2 * (n - 128) <= 250
  {
  }

  // The server's answer to a read request for a registered unit.
  lemma ReadAnswered(cfg: Config, units: set<nat>, p: EncodeParams)
    requires p.FromParams? && IsRead(p.funccode) && p.unitId != 0 && ByteVal(p.unitId) in units
    requires cfg.readCb.Some? && cfg.respCap >= MAX_ADU
    requires CountInRange(p.funccode, WordVal(p.count), StoredFor(cfg, p))
    ensures Encodable(p) && Adu(Rtu, p).Some? && WholeRequest(Adu(Rtu, p).value) && |Adu(Rtu, p).value| == 8
    ensures Adu(Rtu, p).value[1] == p.funccode
    ensures Handle(cfg, units, Adu(Rtu, p).value)
         == Outcome(Some(ReadResponse(p.unitId, p.funccode, Answer(cfg, p))),
                    [ReadCall(p.unitId, p.addr, p.count)], false)
  {
    ReadsAreNotWrites(p.funccode);
    var pdu := Pdu(p).value;
    var padded := Padded(pdu, cfg.stale);
    RequestRoundTrip(p, padded);
    FixedPdu(p);
    ReadInRange(p.funccode, WordVal(p.count), StoredFor(cfg, p));
    hide Padded, Decode, ParsePdu, WholeRequest, ByteVal, WordVal, IsRead, IsWriteSingle, IsWriteMultiple,
         ReadPdu, ReadData, Taken, Wanted, RawLength, Hi, Lo, Refuse, RespondPdu, CountInRange;
    assert Adu(Rtu, p).value[1] == pdu[0];
    RefuseFits(cfg, p.unitId, p.funccode, EXC_SLAVE_DEVICE_FAILURE);
    match Answer(cfg, p)
    case None =>
      assert [p.unitId, p.funccode | 0x80, 0] == [p.unitId] + [p.funccode | 0x80, 0];
    case Some(regs) =>
      ReadPduLength(p.funccode, WordVal(p.count), regs);
      RespondFits(cfg, p.unitId, ReadPdu(p.funccode, ReadData(p.funccode, regs)));
  }

  // The whole way. The client awaits the request p; the server is idle. For every way of cutting the request into
  // pieces on its way in and the response on its way out: the server makes one callback and holds one response, and
  // the client completes once, with the last byte, with what the callback stored, or with a failure if it failed.
  lemma EndToEndRead(cfg: Config, s: Srv, recvCap: nat, c: Cl.Cli, p: EncodeParams, events: seq<Event>,
                     chunks: seq<Bytes>)
    requires p.FromParams? && IsRead(p.funccode) && p.unitId != 0 && ByteVal(p.unitId) in s.units
    requires cfg.readCb.Some? && cfg.cap > 8 && cfg.respCap >= MAX_ADU && recvCap >= MAX_ADU
    requires InBounds(p.funccode, WordVal(p.count), StoredFor(cfg, p))
    requires s.queue == [] && s.pending.None?
    requires Encodable(p) && Adu(Rtu, p).Some?
    requires c.recv == [] && c.current == Some(Cl.Request(p.unitId, p.addr, Adu(Rtu, p).value)) && Cl.Ok(c)
    requires SentEvent !in events
    ensures Fed(events) < Adu(Rtu, p).value ==>
            Run(cfg, s, events).pending.None? && Run(cfg, s, events).calls == s.calls
    ensures Fed(events) == Adu(Rtu, p).value ==>
            var s' := Run(cfg, s, events);
            && s'.pending.Some? && s'.queue == [] && s'.overrun == s.overrun
            && s'.calls == s.calls + [ReadCall(p.unitId, p.addr, p.count)]
            && (Flatten(chunks) < s'.pending.value ==> Cl.TakeAll(recvCap, c, chunks).done == c.done)
            && (Flatten(chunks) == s'.pending.value ==>
                  Cl.TakeAll(recvCap, c, chunks).overrun == c.overrun
                  && Cl.TakeAll(recvCap, c, chunks).done
                     == c.done + [Cl.Result(p.unitId, p.addr, Meant(p.funccode, Answer(cfg, p)))]
                  && Delivered(p.funccode, WordVal(p.count), cfg.readCb.value(p.unitId, p.addr, p.count),
                               Cl.TakeAll(recvCap, c, chunks).done[|c.done|].regs))
  {
    InBoundsIsInRange(p.funccode, WordVal(p.count), StoredFor(cfg, p));
    AnswerLength(cfg, p);
    ReadAnswered(cfg, s.units, p);
    var r := Answer(cfg, p);
    ReadResponseWhole(p.unitId, p.funccode, r);
    ReadCompletes(c.current.value, p.funccode, r);
    ReadIsSafe(cfg, s.units, p);
    MeantIsDelivered(cfg, p);
    hide Delivered;
    hide Handle, Adu, ReadResponse, Cl.Complete, Meant, Answer, WholeResponse, WholeRequest, IsRead, InBounds, Safe,
         CountInRange;
    RequestInChunks(cfg, s, Adu(Rtu, p).value, events);
    Cl.ResponseInChunks(recvCap, c, ReadResponse(p.unitId, p.funccode, r), chunks);
  }

  lemma AnswerLength(cfg: Config, p: EncodeParams)
    requires p.FromParams? && cfg.readCb.Some? && InBounds(p.funccode, WordVal(p.count), StoredFor(cfg, p))
    ensures Answer(cfg, p).Some? ==> |Answer(cfg, p).value| <= if IsCoilRead(p.funccode) then 128 else 125
  {
    hide Taken, WordVal, IsCoilRead;
  }

  // ---------------------------------------------------------------------------------------------------------------
  // Many reads, back to back.

  // A read for a registered unit whose count the server's arrays have room for.
  ghost predicate Readable(cfg: Config, units: set<nat>, p: EncodeParams)
    requires cfg.readCb.Some?
  {
    p.FromParams? && IsRead(p.funccode) && p.unitId != 0 && ByteVal(p.unitId) in units
    && CountInRange(p.funccode, WordVal(p.count), StoredFor(cfg, p))
  }

  ghost predicate AllReadable(cfg: Config, units: set<nat>, ps: seq<EncodeParams>)
    requires cfg.readCb.Some?
  {
    forall i :: 0 <= i < |ps| ==> Readable(cfg, units, ps[i])
  }

  ghost function RequestFrame(cfg: Config, units: set<nat>, p: EncodeParams): Bytes
    requires cfg.readCb.Some? && cfg.respCap >= MAX_ADU && Readable(cfg, units, p)
  {
    ReadAnswered(cfg, units, p);
    Adu(Rtu, p).value
  }

  ghost function RequestFrames(cfg: Config, units: set<nat>, ps: seq<EncodeParams>): seq<Bytes>
    requires cfg.readCb.Some? && cfg.respCap >= MAX_ADU && AllReadable(cfg, units, ps)
  {
    seq(|ps|, i requires 0 <= i < |ps| => RequestFrame(cfg, units, ps[i]))
  }

  function ReadResult(cfg: Config, p: EncodeParams): Bytes
    requires p.FromParams? && cfg.readCb.Some?
  {
    ReadResponse(p.unitId, p.funccode, Answer(cfg, p))
  }

  lemma ReadIsSafe(cfg: Config, units: set<nat>, p: EncodeParams)
    requires cfg.readCb.Some? && cfg.respCap >= MAX_ADU && Readable(cfg, units, p)
    ensures Encodable(p) && Adu(Rtu, p).Some? && |Adu(Rtu, p).value| == 8 && Safe(cfg, units, Adu(Rtu, p).value)
  {
    hide Adu, Handle, ReadResponse, WholeRequest, IsRead, ByteVal, CountInRange, Safe, OutOfRange, Readable;
    ReadAnsweredIfReadable(cfg, units, p);
    OverrunIff(cfg, units, Adu(Rtu, p).value);
  }

  lemma ReadAnsweredIfReadable(cfg: Config, units: set<nat>, p: EncodeParams)
    requires cfg.readCb.Some? && cfg.respCap >= MAX_ADU && Readable(cfg, units, p)
    ensures p.FromParams? && Encodable(p) && Adu(Rtu, p).Some? && RequestFrame(cfg, units, p) == Adu(Rtu, p).value
    ensures WholeRequest(Adu(Rtu, p).value) && |Adu(Rtu, p).value| == 8
    ensures Handle(cfg, units, Adu(Rtu, p).value)
         == Outcome(Some(ReadResult(cfg, p)), [ReadCall(p.unitId, p.addr, p.count)], false)
  {
    hide Adu, Handle, ReadResponse, WholeRequest, IsRead, ByteVal, CountInRange;
    ReadAnswered(cfg, units, p);
  }

  lemma ReadFrameAnswered(cfg: Config, units: set<nat>, p: EncodeParams)
    requires cfg.readCb.Some? && cfg.respCap >= MAX_ADU && Readable(cfg, units, p)
    ensures p.FromParams?
    ensures var f := RequestFrame(cfg, units, p);
            && WholeRequest(f) && |f| >= 5 && Safe(cfg, units, f)
            && Handle(cfg, units, f) == Outcome(Some(ReadResult(cfg, p)), [ReadCall(p.unitId, p.addr, p.count)], false)
  {
    hide Adu, Handle, ReadResponse, WholeRequest, IsRead, ByteVal, Readable, Safe, RequestFrame, ReadResult;
    ReadAnsweredIfReadable(cfg, units, p);
    ReadIsSafe(cfg, units, p);
  }

  lemma ReadsAnswered(cfg: Config, units: set<nat>, ps: seq<EncodeParams>)
    requires cfg.readCb.Some? && cfg.respCap >= MAX_ADU && AllReadable(cfg, units, ps)
    ensures forall i :: 0 <= i < |ps| ==> ps[i].FromParams?
    ensures Answered(cfg, units, RequestFrames(cfg, units, ps))
  {
    hide RequestFrame, Handle, ReadResult, WholeRequest, Readable, Safe;
    var frames := RequestFrames(cfg, units, ps);
    forall i | 0 <= i < |ps|
      ensures WholeRequest(frames[i]) && |frames[i]| >= 5 && Safe(cfg, units, frames[i])
      ensures ps[i].FromParams? && Handle(cfg, units, frames[i]).response.Some?
    {
      ReadFrameAnswered(cfg, units, ps[i]);
    }
  }

  lemma {:induction false} ReadResponses(cfg: Config, units: set<nat>, ps: seq<EncodeParams>)
    requires cfg.readCb.Some? && cfg.respCap >= MAX_ADU && AllReadable(cfg, units, ps)
    requires forall i :: 0 <= i < |ps| ==> ps[i].FromParams?
    ensures var frames := RequestFrames(cfg, units, ps);
            && Responses(cfg, units, frames) == seq(|ps|, i requires 0 <= i < |ps| => ReadResult(cfg, ps[i]))
            && CallsFor(cfg, units, frames)
            == seq(|ps|, i requires 0 <= i < |ps| => ReadCall(ps[i].unitId, ps[i].addr, ps[i].count))
  {
    hide RequestFrame, Handle, ReadResult, Readable;
    if ps != [] {
      var n := |ps| - 1;
      ReadResponses(cfg, units, ps[..n]);
      ReadFrameAnswered(cfg, units, ps[n]);
      assert RequestFrames(cfg, units, ps)[..n] == RequestFrames(cfg, units, ps[..n]);
    }
  }

  // Item i of the response f is the register v: for coils its low byte, for registers both, the high byte first.
  predicate HoldsItem(f: Bytes, fc: bv8, i: nat, v: bv16) {
    if fc == 0x01 || fc == 0x02 then 3 + i < |f| && f[3 + i] as bv16 == v & 0xFF
    else 4 + 2 * i < |f| && f[3 + 2 * i] as bv16 == v >> 8 && f[4 + 2 * i] as bv16 == v & 0xFF
  }

  // The response to a read, byte for byte: unit, function, byte count, and the registers or the low bytes stored; or
  // the exception.
  lemma ReadResultBytes(cfg: Config, p: EncodeParams, i: nat)
    requires cfg.readCb.Some? && p.FromParams? && IsRead(p.funccode)
    requires RawLength(p.funccode, WordVal(p.count)) <= 251
    ensures ValidFrame(ReadResult(cfg, p))
    ensures var f, count, coils := ReadResult(cfg, p), WordVal(p.count), p.funccode == 0x01 || p.funccode == 0x02;
            match cfg.readCb.value(p.unitId, p.addr, p.count)
            case None => f == Seal([p.unitId, p.funccode | 0x80, 0])
            case Some(stored) =>
              var n := if coils then (count + 7) / 8 else 2 * count;
              && |f| == 5 + n && f[0] == p.unitId && f[1] == p.funccode && ByteVal(f[2]) == n
              && (i < (if coils then n else count) && i < |stored| ==> HoldsItem(f, p.funccode, i, stored[i]))
  {
    hide WordVal, Crc16, ResponsePdu, HoldsItem;
    var r := Answer(cfg, p);
    ReadResponseWhole(p.unitId, p.funccode, r);
    WholeResponseIsLong(ReadResult(cfg, p));
    hide WholeResponse, IsRead;
    ResponsePduIs(p.funccode, r);
    match r
    case None =>
      assert [p.unitId] + [p.funccode | 0x80, 0] == [p.unitId, p.funccode | 0x80, 0];
    case Some(regs) =>
      hide Seal, ByteVal, ReadData;
      DataBytes(p.unitId, p.funccode, WordVal(p.count), regs, i);
  }

  lemma ResponsePduIs(fc: bv8, r: Option<seq<bv16>>)
    ensures ResponsePdu(fc, r) == if r.None? then [fc | 0x80, 0] else ReadPdu(fc, ReadData(fc, r.value))
  {
  }

  lemma DataBytes(unitId: bv8, fc: bv8, count: nat, regs: seq<bv16>, i: nat)
    requires |regs| == Wanted(fc, count) && RawLength(fc, count) <= 251
    ensures var f, coils := Seal([unitId] + ReadPdu(fc, ReadData(fc, regs))), fc == 0x01 || fc == 0x02;
            var n := if coils then (count + 7) / 8 else 2 * count;
            && |f| == 5 + n && f[0] == unitId && f[1] == fc && ByteVal(f[2]) == n
            && (i < |regs| ==> HoldsItem(f, fc, i, regs[i]))
  {
    hide Crc16, ByteVal, ReadPdu, PackRegs, LowBytes, Seal;
    var data := ReadData(fc, regs);
    ReadPduFields(fc, data);
    assert data[..|data|] == data;
    if i < |regs| {
      ReadDataBytes(fc, regs, i);
    }
    SealedData(unitId, ReadPdu(fc, data), data);
  }

  lemma SealedData(unitId: bv8, pdu: Bytes, data: Bytes)
    requires |pdu| == 2 + |data| && pdu[2..] == data
    ensures var f := Seal([unitId] + pdu);
            |f| == 5 + |data| && f[0] == unitId && f[1] == pdu[0] && f[2] == pdu[1]
            && forall k :: 0 <= k < |data| ==> f[3 + k] == data[k]
  {
    hide Crc16;
    assert forall k :: 0 <= k < |data| ==> pdu[2..][k] == pdu[2 + k];
  }

  // Any number of read requests to registered units, back to back: whenever they are all in and no response waits, the
  // server has read each of them once, in order, and sent exactly their responses, in order.
  lemma PipelinedReads(cfg: Config, s: Srv, ps: seq<EncodeParams>, events: seq<Event>)
    requires cfg.readCb.Some? && cfg.respCap >= MAX_ADU && AllReadable(cfg, s.units, ps)
    requires s.queue == [] && s.pending.None? && Admissible(cfg, s, events)
    requires Fed(events) == Flatten(RequestFrames(cfg, s.units, ps)) && Run(cfg, s, events).pending.None?
    ensures forall i :: 0 <= i < |ps| ==> ps[i].FromParams?
    ensures Sent(cfg, s, events) == seq(|ps|, i requires 0 <= i < |ps| => ReadResult(cfg, ps[i]))
    ensures Run(cfg, s, events) == s.(calls := s.calls
              + seq(|ps|, i requires 0 <= i < |ps| => ReadCall(ps[i].unitId, ps[i].addr, ps[i].count)))
  {
    hide RequestFrame, Handle, ReadResult, Answered, Responses, CallsFor;
    ReadsAnswered(cfg, s.units, ps);
    ReadResponses(cfg, s.units, ps);
    PipelinedRequests(cfg, s, RequestFrames(cfg, s.units, ps), events);
  }
}
