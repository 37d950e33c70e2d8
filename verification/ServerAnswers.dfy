// What one frame makes the server do: which frames are answered, what an exception carries, and what a write delivers.
module ServerAnswers {
  import opened Bytes
  import opened Crc
  import opened Framing
  import opened Payload
  import opened Codec
  import opened Units
  import opened ServerSpec
  import opened ServerBounds

  lemma SealLength(body: Bytes)
    ensures |Seal(body)| == |body| + 2
  {
  }

  lemma RefuseFits(cfg: Config, unitId: bv8, fc: bv8, code: bv8)
    requires cfg.respCap >= 5
    ensures Refuse(cfg, unitId, fc, code) == Some(Seal([unitId, fc | 0x80, 0]))
  {
    SealLength([unitId, fc | 0x80, 0]);
    assert [unitId] + [fc | 0x80, 0] == [unitId, fc | 0x80, 0];
  }

  // The code that the handlers mean never reaches the wire: every exception response carries code 0.
  lemma ExceptionCodeIsLost(cfg: Config, unitId: bv8, fc: bv8, code: bv8)
    requires cfg.respCap >= 5
    ensures Refuse(cfg, unitId, fc, code) == Some(Wrap(Rtu, FromException(0, unitId, fc, code), [fc | 0x80, code]))
            <==> code == 0
  {
    RefuseFits(cfg, unitId, fc, code);
    assert [unitId] + [fc | 0x80, code] == [unitId, fc | 0x80, code];
    if Seal([unitId, fc | 0x80, code]) == Seal([unitId, fc | 0x80, 0]) {
      assert Seal([unitId, fc | 0x80, code])[2] == code;
    }
  }

  // What does not fit the response buffer is not sent.
  function SentIfFits(cfg: Config, adu: Bytes): Option<Bytes> {
    if |adu| <= cfg.respCap then Some(adu) else None
  }

  lemma RefuseIs(cfg: Config, unitId: bv8, fc: bv8, code: bv8)
    ensures Refuse(cfg, unitId, fc, code) == SentIfFits(cfg, Seal([unitId, fc | 0x80, 0]))
  {
    SealLength([unitId, fc | 0x80, 0]);
    assert [unitId] + [fc | 0x80, 0] == [unitId, fc | 0x80, 0];
  }

  lemma RespondFits(cfg: Config, unitId: bv8, pdu: Bytes)
    requires |pdu| + 3 <= cfg.respCap
    ensures RespondPdu(cfg, unitId, pdu) == Some(Seal([unitId] + pdu))
  {
    SealLength([unitId] + pdu);
  }

  lemma RequestAnsweredIff(cfg: Config, units: set<nat>, unitId: bv8, pdu: Bytes, req: Request)
    requires !HandleRequest(cfg, units, unitId, pdu, req).overrun
    requires |pdu| + 3 <= MAX_ADU <= cfg.respCap
    ensures HandleRequest(cfg, units, unitId, pdu, req).response.Some? <==> unitId != 0 && ByteVal(unitId) in units
  {
    hide IsRead, ByteVal, WordVal, ReadPdu, ReadData, Refuse, RespondPdu, WriteOk, WriteCalls, DataSuffices, RawLength,
         Wanted, Taken;
    RefuseFits(cfg, unitId, req.fc, EXC_SLAVE_DEVICE_FAILURE);
    RespondFits(cfg, unitId, pdu);
    if IsRead(req.fc) && cfg.readCb.Some? {
      var r := cfg.readCb.value(unitId, req.addr, req.count);
      if r.Some? && ReadFits(req.fc, WordVal(req.count), |r.value|) {
        var regs := Taken(r.value, Wanted(req.fc, WordVal(req.count)), cfg.staleRegs);
        ReadPduLength(req.fc, WordVal(req.count), regs);
        RespondFits(cfg, unitId, ReadPdu(req.fc, ReadData(req.fc, regs)));
      }
    }
  }

  // Which frames are answered: those for a registered unit, and, for any unit and even for a broadcast, those whose
  // function code has the exception bit.
  lemma AnsweredIff(cfg: Config, units: set<nat>, f: Bytes)
    requires WholeRequest(f) && Safe(cfg, units, f) && cfg.respCap >= MAX_ADU
    ensures |f| >= 5
    ensures Handle(cfg, units, f).response.Some?
            <==> IsException(f[1]) || (f[0] != 0 && ByteVal(f[0]) in units)
    ensures IsException(f[1]) ==> Handle(cfg, units, f) == Outcome(Some(Seal([f[0], f[1] | 0x80, 0])), [], false)
  {
    OverrunIff(cfg, units, f);
    HandleOverruns(cfg, units, f);
    WholeRequestParts(f);
    WholeRequestParsed(f, cfg.stale);
    hide IsException, IsRead, IsWriteSingle, IsWriteMultiple, ByteVal, WholeRequest, Decode, Word, Refuse,
         ParsePdu, Padded, HandleRequest, Safe, OutOfRange, ReadRuns, WriteRuns, CountInRange;
    var pdu := f[1..|f| - 2];
    var parsed := ParsePdu(Padded(pdu, cfg.stale), |pdu|);
    RefuseFits(cfg, f[0], f[1], EXC_ILLEGAL_DATA_ADDR);
    if parsed.Some? {
      RequestAnsweredIff(cfg, units, f[0], pdu, parsed.value);
    }
  }

  // ---------------------------------------------------------------------------------------------------------------
  // Who is called.

  lemma {:induction false} NoBroadcastCalls(cfg: Config, units: set<nat>, req: Request, hi: nat)
    requires hi <= MAX_UNIT && (cfg.writeCb.None? || !DataSuffices(req))
    ensures BroadcastCalls(cfg, units, req, hi) == []
  {
    hide ByteOf, DataSuffices;
    if hi > 0 {
      NoBroadcastCalls(cfg, units, req, hi - 1);
    }
  }

  // Calls are made for registered units only.
  ghost predicate CallsRegistered(units: set<nat>, calls: seq<Call>) {
    forall i :: 0 <= i < |calls| ==> calls[i].WriteCall? && ByteVal(calls[i].unitId) in units
  }

  lemma {:induction false} BroadcastReaches(cfg: Config, units: set<nat>, req: Request, hi: nat)
    requires hi <= MAX_UNIT && cfg.writeCb.Some? && DataSuffices(req)
    ensures BroadcastCalls(cfg, units, req, hi) != [] <==> AnyUnit(units, hi)
    ensures CallsRegistered(units, BroadcastCalls(cfg, units, req, hi))
  {
    hide ByteOf, ByteVal, WriteArgs, DataSuffices;
    if hi > 0 {
      BroadcastReaches(cfg, units, req, hi - 1);
      ByteOfVal(hi);
      assert AnyUnit(units, hi) <==> AnyUnit(units, hi - 1) || hi in units;
    }
  }

  // A whole frame makes a callback exactly if there is one for its function and it reaches a registered unit: as a
  // request to that unit, or as a broadcast write. Every call is for a unit that it reaches.
  lemma CallsMadeIff(cfg: Config, units: set<nat>, f: Bytes)
    requires WholeRequest(f) && |f| >= 5 && Safe(cfg, units, f)
    ensures var calls := Handle(cfg, units, f).calls;
            && (calls != [] <==>
                if f[0] == 0 then IsWrite(f[1]) && cfg.writeCb.Some? && AnyUnit(units, MAX_UNIT)
                else ByteVal(f[0]) in units
                     && ((IsRead(f[1]) && cfg.readCb.Some?) || (IsWrite(f[1]) && cfg.writeCb.Some?)))
            && (forall i :: 0 <= i < |calls| ==>
                  ByteVal(calls[i].unitId) in units && (f[0] != 0 ==> calls[i].unitId == f[0])
                  && (calls[i].ReadCall? <==> IsRead(f[1])))
  {
    OverrunIff(cfg, units, f);
    SafeLength(cfg, units, f);
    WholeRequestParts(f);
    WholeRequestParsed(f, cfg.stale);
    FunctionsAreNotExceptions(f[1]);
    ReadsAreNotWrites(f[1]);
    var parsed := ParsePdu(Padded(f[1..|f| - 2], cfg.stale), |f| - 3);
    if parsed.Some? {
      RequestCalls(cfg, units, f[0], f[1..|f| - 2], parsed.value);
    }
    hide IsException, IsRead, IsWriteSingle, IsWriteMultiple, ByteVal, WholeRequest, Decode, Word, Refuse, ParsePdu,
         Padded, HandleRequest, Safe, OutOfRange, AnyUnit;
  }

  lemma RequestCalls(cfg: Config, units: set<nat>, unitId: bv8, pdu: Bytes, req: Request)
    requires !HandleRequest(cfg, units, unitId, pdu, req).overrun
    ensures var calls := HandleRequest(cfg, units, unitId, pdu, req).calls;
            && (calls != [] <==>
                if unitId == 0 then !IsRead(req.fc) && cfg.writeCb.Some? && AnyUnit(units, MAX_UNIT)
                else ByteVal(unitId) in units && if IsRead(req.fc) then cfg.readCb.Some? else cfg.writeCb.Some?)
            && (forall i :: 0 <= i < |calls| ==>
                  ByteVal(calls[i].unitId) in units && (unitId != 0 ==> calls[i].unitId == unitId)
                  && (calls[i].ReadCall? <==> IsRead(req.fc)))
  {
    hide IsRead, ByteVal, WordVal, ReadPdu, ReadData, Refuse, RespondPdu, WriteOk, DataSuffices, WriteArgs, AnyUnit,
         BroadcastCalls, ReadFits, Taken, Wanted;
    if cfg.writeCb.Some? && DataSuffices(req) {
      BroadcastReaches(cfg, units, req, MAX_UNIT);
    } else {
      NoBroadcastCalls(cfg, units, req, MAX_UNIT);
    }
  }

  // What it does not reach it leaves alone: no callback, and no response unless its function code has the exception
  // bit.
  lemma OthersIgnored(cfg: Config, units: set<nat>, f: Bytes)
    requires WholeRequest(f) && 5 <= |f| <= MAX_ADU && !IsException(f[1])
    requires if f[0] == 0 then IsRead(f[1]) else ByteVal(f[0]) !in units
    ensures Handle(cfg, units, f) == Outcome(None, [], false)
  {
    WholeRequestParts(f);
    WholeRequestParsed(f, cfg.stale);
    hide IsException, IsRead, IsWrite, ByteVal, WholeRequest, Decode, Word, Refuse, ParsePdu, Padded;
  }

  // Without a callback a read is refused.
  lemma ReadWithoutCallback(cfg: Config, units: set<nat>, f: Bytes)
    requires WholeRequest(f) && IsRead(f[1]) && cfg.readCb.None? && f[0] != 0 && ByteVal(f[0]) in units
    ensures Handle(cfg, units, f) == Outcome(SentIfFits(cfg, Seal([f[0], f[1] | 0x80, 0])), [], false)
  {
    WholeRequestParts(f);
    WholeRequestParsed(f, cfg.stale);
    FunctionsAreNotExceptions(f[1]);
    hide IsException, IsRead, IsWrite, ByteVal, WholeRequest, Decode, Word, Refuse, ParsePdu, Padded, Seal;
    RefuseIs(cfg, f[0], f[1], EXC_SLAVE_DEVICE_FAILURE);
  }

  // ---------------------------------------------------------------------------------------------------------------
  // Writes.

  predicate CoilIn(regs: seq<bv16>, b: nat) {
    b / 16 < |regs| && Bit16(regs[b / 16], b % 16)
  }

  // Byte k of the data that a multiple write reads: of the frame, as far as it has data, and else of what the request
  // buffer happens to hold.
  function DataByte(cfg: Config, f: Bytes, k: nat): bv8 {
    if 7 + k < |f| - 2 then f[7 + k] else cfg.stale(6 + k)
  }

  predicate CoilSent(cfg: Config, f: Bytes, b: nat) {
    b < CountOf(f) && Bit8(DataByte(cfg, f, b / 8), b % 8)
  }

  // A quantity and registers are what a write frame carries: the one value; the registers in order, high byte first; or
  // the coils bit by bit, with zeros behind them.
  ghost predicate Carries(cfg: Config, f: Bytes, quantity: nat, regs: seq<bv16>)
    requires |f| >= 8
  {
    var count := CountOf(f);
    && (IsWriteSingle(f[1]) ==> quantity == 1 && regs == [Word(f[4], f[5])])
    && (f[1] == 0x10 ==>
          quantity == |regs| == count
          && forall i :: 0 <= i < count ==> regs[i] == Word(DataByte(cfg, f, 2 * i), DataByte(cfg, f, 2 * i + 1)))
    && (f[1] == 0x0F ==>
          quantity == |regs| == (count + 15) / 16
          && forall b :: 0 <= b < 16 * |regs| ==> (CoilIn(regs, b) <==> CoilSent(cfg, f, b)))
  }

  lemma PaddedAt(cfg: Config, f: Bytes)
    requires 3 <= |f| <= MAX_ADU
    ensures var padded := Padded(f[1..|f| - 2], cfg.stale);
            && (forall i :: 0 <= i < |f| - 3 ==> padded[i] == f[i + 1])
            && (forall k :: 0 <= k < MAX_PDU - 6 ==> padded[6 + k] == DataByte(cfg, f, k))
  {
  }

  // The request that a write frame carries.
  lemma WriteParsed(cfg: Config, f: Bytes) returns (req: Request)
    requires WholeRequest(f) && |f| <= MAX_ADU && IsWrite(f[1])
    ensures |f| >= 8 && Decode(Rtu, f) == Some((f[0], f[1..|f| - 2]))
    ensures ParsePdu(Padded(f[1..|f| - 2], cfg.stale), |f| - 3) == Some(req)
    ensures req.fc == f[1] && req.addr == Word(f[2], f[3]) && req.data.Some? && !IsRead(f[1])
    ensures IsWriteMultiple(f[1]) ==> !IsWriteSingle(f[1]) && WordVal(req.count) == CountOf(f)
    ensures IsWriteMultiple(f[1]) ==> |f| == 9 + ByteVal(f[6]) && |req.data.value| == MAX_PDU - 6
    ensures IsWriteMultiple(f[1]) ==>
            forall k :: 0 <= k < MAX_PDU - 6 ==> req.data.value[k] == DataByte(cfg, f, k)
    ensures IsWriteSingle(f[1]) ==> |f| == 8 && |req.data.value| == MAX_PDU - 3 && req.data.value[..2] == f[4..6]
    ensures DataSuffices(req) <==> CountInRange(f[1], CountOf(f), 0)
  {
    WholeRequestParts(f);
    WholeRequestParsed(f, cfg.stale);
    FunctionsAreNotExceptions(f[1]);
    ReadsAreNotWrites(f[1]);
    hide IsException, IsRead, IsWriteSingle, IsWriteMultiple, ByteVal, WordVal, WholeRequest, Decode, Word,
         ParsePdu, Padded, Suffices, CountInRange;
    var pdu := f[1..|f| - 2];
    var padded := Padded(pdu, cfg.stale);
    req := ParsePdu(padded, |pdu|).value;
    PaddedAt(cfg, f);
    WriteInRange(f[1], WordVal(req.count), 0);
    SingleInRange(f[1], WordVal(req.count), 0);
    SingleInRange(f[1], CountOf(f), 0);
  }

  // What a write request for a registered unit does, in terms of the request that its frame carries.
  lemma WriteHandled(cfg: Config, units: set<nat>, f: Bytes, req: Request)
    requires |f| >= 8 && |f| <= MAX_ADU && Decode(Rtu, f) == Some((f[0], f[1..|f| - 2]))
    requires ParsePdu(Padded(f[1..|f| - 2], cfg.stale), |f| - 3) == Some(req) && DataSuffices(req)
    requires !IsRead(req.fc) && f[0] != 0 && ByteVal(f[0]) in units
    ensures Handle(cfg, units, f)
         == Outcome(if WriteOk(cfg, f[0], req) then RespondPdu(cfg, f[0], f[1..|f| - 2])
                    else Refuse(cfg, f[0], req.fc, EXC_SLAVE_DEVICE_FAILURE),
                    WriteCalls(cfg, f[0], req), false)
  {
    hide Decode, ParsePdu, Padded, DataSuffices, WriteOk, WriteCalls, RespondPdu, Refuse, ByteVal, IsRead;
  }

  // The one call that it makes carries what the frame carries.
  lemma CallCarries(cfg: Config, unitId: bv8, f: Bytes, req: Request) returns (quantity: nat, regs: seq<bv16>)
    requires |f| >= 8 && IsWrite(f[1]) && req.fc == f[1] && DataSuffices(req) && cfg.writeCb.Some?
    requires IsWriteMultiple(f[1]) ==> WordVal(req.count) == CountOf(f) && CountInRange(f[1], CountOf(f), 0)
    requires IsWriteMultiple(f[1]) ==>
             forall k :: 0 <= k < |req.data.value| ==> req.data.value[k] == DataByte(cfg, f, k)
    requires IsWriteSingle(f[1]) ==> req.data.value[..2] == f[4..6]
    ensures WriteCalls(cfg, unitId, req) == [WriteCall(unitId, req.addr, quantity, regs)]
    ensures WriteOk(cfg, unitId, req) <==> cfg.writeCb.value(unitId, req.addr, quantity, regs)
    ensures Carries(cfg, f, quantity, regs)
  {
    hide WordVal, Word, Suffices, CountOf, Carries, CoilWords, UnpackRegs, IsWriteSingle, DataByte;
    var args := WriteArgs(req.fc, WordVal(req.count), req.data.value);
    quantity, regs := args.0, args.1;
    hide WriteArgs;
    ArgsCarry(cfg, f, WordVal(req.count), req.data.value);
  }

  lemma ArgsCarry(cfg: Config, f: Bytes, count: nat, data: Bytes)
    requires |f| >= 8 && IsWrite(f[1]) && Suffices(f[1], count, |data|)
    requires IsWriteMultiple(f[1]) ==> count == CountOf(f) && CountInRange(f[1], count, 0)
    requires IsWriteMultiple(f[1]) ==> forall k :: 0 <= k < |data| ==> data[k] == DataByte(cfg, f, k)
    requires IsWriteSingle(f[1]) ==> data[..2] == f[4..6]
    ensures Carries(cfg, f, WriteArgs(f[1], count, data).0, WriteArgs(f[1], count, data).1)
  {
    hide WordVal, Word, CountOf, CoilIn, CoilSent, CoilWords, UnpackRegs, DataByte;
    if IsWriteSingle(f[1]) {
      assert data[..2][0] == f[4..6][0] && data[..2][1] == f[4..6][1];
    } else if f[1] == 0x10 {
      RegistersOfData(data, count);
    } else {
      CoilsOfFrame(cfg, f, data, count);
    }
  }

  lemma RegistersOfData(data: Bytes, count: nat)
    requires 2 * count <= |data|
    ensures forall i :: 0 <= i < count ==> UnpackRegs(data[..2 * count])[i] == Word(data[2 * i], data[2 * i + 1])
  {
    hide Word, UnpackRegs;
    forall i | 0 <= i < count
      ensures UnpackRegs(data[..2 * count])[i] == Word(data[2 * i], data[2 * i + 1])
    {
      UnpackAt(data[..2 * count], i);
    }
  }

  lemma CoilsOfFrame(cfg: Config, f: Bytes, data: Bytes, count: nat)
    requires count == CountOf(f) && count <= 8 * |data|
    requires forall k :: 0 <= k < |data| ==> data[k] == DataByte(cfg, f, k)
    ensures var regs := CoilWords(data, (count + 15) / 16, count);
            forall b :: 0 <= b < 16 * |regs| ==> (CoilIn(regs, b) <==> CoilSent(cfg, f, b))
  {
    hide CoilWords, Bit8, Bit16, CountOf, DataByte;
    var regs := CoilWords(data, (count + 15) / 16, count);
    forall b | 0 <= b < 16 * |regs| ensures CoilIn(regs, b) <==> CoilSent(cfg, f, b) {
      CoilWordsBits(data, (count + 15) / 16, count, b);
      if b < count {
        CoilPlace(b, count, |data|);
      }
    }
  }

  lemma CoilPlace(b: nat, count: nat, n: nat)
    requires b < count <= 8 * n
    ensures b / 8 < n && 8 * (b / 8) <= b
  {
  }

  // A broadcast write calls back once for each registered unit, in ascending order, and is not answered.
  lemma {:induction false} BroadcastCallsExact(cfg: Config, units: set<nat>, req: Request, hi: nat)
    requires DataSuffices(req) && hi <= MAX_UNIT && cfg.writeCb.Some?
    ensures var calls, order := BroadcastCalls(cfg, units, req, hi), BroadcastOrder(units, hi);
            && |calls| == |order|
            && forall i :: 0 <= i < |calls| ==>
                 0 <= order[i] <= MAX_UNIT && [calls[i]] == WriteCalls(cfg, ByteOf(order[i]), req)
  {
    hide ByteOf, WriteArgs, DataSuffices;
    if hi > 0 {
      BroadcastCallsExact(cfg, units, req, hi - 1);
    }
  }

  lemma BroadcastWrite(cfg: Config, units: set<nat>, f: Bytes)
    requires WholeRequest(f) && InRange(f, 0) && cfg.writeCb.Some?
    requires f[0] == 0 && IsWrite(f[1])
    ensures |f| >= 8
    ensures Handle(cfg, units, f).response.None? && !Handle(cfg, units, f).overrun
    ensures Ascending(BroadcastOrder(units, MAX_UNIT))
    ensures forall id: nat :: id in BroadcastOrder(units, MAX_UNIT) <==> 1 <= id <= MAX_UNIT && id in units
    ensures var calls, order := Handle(cfg, units, f).calls, BroadcastOrder(units, MAX_UNIT);
            && |calls| == |order|
            && (forall i :: 0 <= i < |calls| ==> calls[i].WriteCall? && calls[i].addr == Word(f[2], f[3]))
            && (forall i :: 0 <= i < |calls| ==> 0 <= order[i] <= MAX_UNIT && calls[i].unitId == ByteOf(order[i]))
            && (forall i :: 0 <= i < |calls| ==> Carries(cfg, f, calls[i].quantity, calls[i].regs))
            && (forall i, j :: 0 <= i < j < |calls| ==>
                  calls[i].quantity == calls[j].quantity && calls[i].regs == calls[j].regs)
  {
    var req := WriteParsed(cfg, f);
    BroadcastOrderExact(units, MAX_UNIT);
    hide IsException, IsRead, IsWrite, IsWriteSingle, IsWriteMultiple, ByteVal, ByteOf, WordVal, WholeRequest,
         Decode, Word, ParsePdu, Padded, BroadcastCalls, BroadcastOrder, WriteArgs, DataSuffices, CountInRange,
         CountOf, Carries, AnyUnit;
    BroadcastCallsExact(cfg, units, req, MAX_UNIT);
    var calls, order := Handle(cfg, units, f).calls, BroadcastOrder(units, MAX_UNIT);
    assert calls == BroadcastCalls(cfg, units, req, MAX_UNIT);
    forall i | 0 <= i < |calls|
      ensures calls[i].WriteCall? && calls[i].addr == Word(f[2], f[3])
      ensures calls[i].unitId == ByteOf(order[i]) && Carries(cfg, f, calls[i].quantity, calls[i].regs)
    {
      var quantity, regs := CallCarries(cfg, ByteOf(order[i]), f, req);
      assert [calls[i]] == WriteCalls(cfg, ByteOf(order[i]), req);
    }
  }

  lemma WriteCalled(cfg: Config, units: set<nat>, f: Bytes) returns (quantity: nat, regs: seq<bv16>)
    requires WholeRequest(f) && InRange(f, 0) && cfg.writeCb.Some?
    requires IsWrite(f[1]) && f[0] != 0 && ByteVal(f[0]) in units
    ensures |f| >= 8 && Carries(cfg, f, quantity, regs)
    ensures Handle(cfg, units, f)
         == Outcome(if cfg.writeCb.value(f[0], Word(f[2], f[3]), quantity, regs)
                    then RespondPdu(cfg, f[0], f[1..|f| - 2])
                    else Refuse(cfg, f[0], f[1], EXC_SLAVE_DEVICE_FAILURE),
                    [WriteCall(f[0], Word(f[2], f[3]), quantity, regs)], false)
  {
    hide Handle, IsRead, IsWrite, IsWriteSingle, IsWriteMultiple, ByteVal, WholeRequest, Word, WordVal,
         DataSuffices, Refuse, RespondPdu, CountInRange, CountOf, ParsePdu, Padded, Decode, WriteCalls, WriteOk,
         Carries;
    var req := WriteParsed(cfg, f);
    WriteHandled(cfg, units, f, req);
    quantity, regs := CallCarries(cfg, f[0], f, req);
  }

  // A write request for a registered unit: one callback with what the frame carries, and the answer to it. If it
  // succeeds the answer is the request itself, byte for byte; if not it is an exception; either of them if it fits.
  lemma WriteEchoed(cfg: Config, units: set<nat>, f: Bytes)
    requires WholeRequest(f) && InRange(f, 0) && cfg.writeCb.Some?
    requires IsWrite(f[1]) && f[0] != 0 && ByteVal(f[0]) in units
    ensures |f| >= 8
    ensures var o := Handle(cfg, units, f);
            && |o.calls| == 1 && o.calls[0].WriteCall?
            && o.calls[0].unitId == f[0] && o.calls[0].addr == Word(f[2], f[3])
            && Carries(cfg, f, o.calls[0].quantity, o.calls[0].regs) && !o.overrun
            && (var c := o.calls[0];
                o.response == SentIfFits(cfg, if cfg.writeCb.value(c.unitId, c.addr, c.quantity, c.regs) then f
                                              else Seal([f[0], f[1] | 0x80, 0])))
    ensures IsWriteSingle(f[1]) ==>
            Handle(cfg, units, f).calls == [WriteCall(f[0], Word(f[2], f[3]), 1, [Word(f[4], f[5])])]
  {
    var quantity, regs := WriteCalled(cfg, units, f);
    hide Handle, IsRead, IsWriteMultiple, ByteVal, WholeRequest, Word, WordVal, Seal, Refuse, RespondPdu, CountInRange,
         CountOf, DataByte;
    EchoIsRequest(f);
    RefuseIs(cfg, f[0], f[1], EXC_SLAVE_DEVICE_FAILURE);
    RespondIs(cfg, f[0], f[1..|f| - 2]);
  }

  lemma RespondIs(cfg: Config, unitId: bv8, pdu: Bytes)
    ensures RespondPdu(cfg, unitId, pdu) == SentIfFits(cfg, Seal([unitId] + pdu))
  {
  }

  // Without a callback a write is echoed and nobody is told; and a broadcast is not even echoed.
  lemma WriteWithoutCallback(cfg: Config, units: set<nat>, f: Bytes)
    requires WholeRequest(f) && InRange(f, 0) && cfg.writeCb.None? && IsWrite(f[1])
    ensures |f| >= 8
    ensures f[0] != 0 && ByteVal(f[0]) in units ==> Handle(cfg, units, f) == Outcome(SentIfFits(cfg, f), [], false)
    ensures f[0] == 0 ==> Handle(cfg, units, f) == Outcome(None, [], false)
  {
    hide IsRead, IsWriteSingle, IsWriteMultiple, ByteVal, WholeRequest, Word, WordVal, DataSuffices, Refuse,
         RespondPdu, CountInRange, CountOf, ParsePdu, Padded, Decode, Seal, BroadcastCalls, AnyUnit, WriteArgs;
    var req := WriteParsed(cfg, f);
    EchoIsRequest(f);
    RespondIs(cfg, f[0], f[1..|f| - 2]);
    NoBroadcastCalls(cfg, units, req, MAX_UNIT);
  }

  // A write of coils that carries the data its count asks for: bit by bit, what the callback gets is what the frame
  // holds, and the padding of the last word is 0.
  lemma CoilWriteDelivered(cfg: Config, units: set<nat>, f: Bytes, count: nat, b: nat)
    requires WholeRequest(f) && |f| <= MAX_ADU && cfg.writeCb.Some?
    requires f[1] == 0x0F && f[0] != 0 && ByteVal(f[0]) in units
    requires count == WordVal(Word(f[4], f[5])) && count <= 2000 && count <= 8 * ByteVal(f[6])
    requires b / 16 < (count + 15) / 16
    ensures var calls := Handle(cfg, units, f).calls;
            && |calls| == 1 && calls[0].WriteCall? && calls[0].unitId == f[0] && calls[0].addr == Word(f[2], f[3])
            && calls[0].quantity == |calls[0].regs| == (count + 15) / 16
            && (Bit16(calls[0].regs[b / 16], b % 16) <==>
                b < count && 7 + b / 8 < |f| - 2 && Bit8(f[7 + b / 8], b % 8))
  {
    WholeRequestParts(f);
    hide Handle, ByteVal, WholeRequest, Word, WordVal, Refuse, RespondPdu, Carries, Bit8, Bit16;
    var quantity, regs := WriteCalled(cfg, units, f);
    CarriedCoil(cfg, f, quantity, regs, b);
  }

  lemma CarriedCoil(cfg: Config, f: Bytes, quantity: nat, regs: seq<bv16>, b: nat)
    requires |f| >= 9 && |f| == 9 + ByteVal(f[6]) && Carries(cfg, f, quantity, regs) && f[1] == 0x0F
    requires CountOf(f) <= 2000 && CountOf(f) <= 8 * ByteVal(f[6]) && b / 16 < (CountOf(f) + 15) / 16
    ensures quantity == |regs| == (CountOf(f) + 15) / 16
    ensures Bit16(regs[b / 16], b % 16) <==>
            b < CountOf(f) && 7 + b / 8 < |f| - 2 && Bit8(f[7 + b / 8], b % 8)
  {
    hide ByteVal, CountOf, Bit8, Bit16;
    assert CoilIn(regs, b) <==> CoilSent(cfg, f, b);
    if b < CountOf(f) {
      CoilPlace(b, CountOf(f), ByteVal(f[6]));
    }
  }

  // A write of registers that carries the data its count asks for: the callback gets them in order, high byte first.
  lemma RegisterWriteDelivered(cfg: Config, units: set<nat>, f: Bytes, count: nat, i: nat)
    requires WholeRequest(f) && |f| <= MAX_ADU && cfg.writeCb.Some?
    requires f[1] == 0x10 && f[0] != 0 && ByteVal(f[0]) in units
    requires count == WordVal(Word(f[4], f[5])) && 2 * count <= ByteVal(f[6])
    ensures var calls := Handle(cfg, units, f).calls;
            && |calls| == 1 && calls[0].WriteCall? && calls[0].unitId == f[0] && calls[0].addr == Word(f[2], f[3])
            && calls[0].quantity == |calls[0].regs| == count
            && (i < count ==> 8 + 2 * i < |f| - 2 && calls[0].regs[i] == Word(f[7 + 2 * i], f[8 + 2 * i]))
  {
    WholeRequestParts(f);
    hide Handle, ByteVal, WholeRequest, Word, WordVal, Refuse, RespondPdu;
    var quantity, regs := WriteCalled(cfg, units, f);
    assert i < count ==> DataByte(cfg, f, 2 * i) == f[7 + 2 * i] && DataByte(cfg, f, 2 * i + 1) == f[8 + 2 * i];
  }

  // The client takes that echo for one whole response iff the request wrote a single value: of the longer echo of a
  // multiple write it expects only the first eight bytes.
  lemma EchoWholeIff(f: Bytes)
    requires WholeRequest(f) && IsWrite(f[1])
    ensures WholeResponse(f) <==> IsWriteSingle(f[1])
  {
    WholeRequestParts(f);
    FunctionsAreNotExceptions(f[1]);
    ReadsAreNotWrites(f[1]);
    hide IsException, IsRead, IsWriteSingle, IsWriteMultiple, ByteVal, ValidFrame;
    assert f[..|f|] == f;
  }

  lemma EchoIsRequest(f: Bytes)
    requires WholeRequest(f) && |f| >= 5
    ensures Seal([f[0]] + f[1..|f| - 2]) == f
  {
    hide Crc16;
    assert f[..|f|] == f;
    ValidIffSealed(f);
    assert [f[0]] + f[1..|f| - 2] == f[..|f| - 2];
  }
}
