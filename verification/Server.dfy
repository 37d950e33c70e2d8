// The RTU server: the receive ring, the response buffer, the unit bitmap and the `sending` gate, updated in place.
// Every method is proved against the corresponding step of the abstract machine in ServerSpec.
module Server {
  import opened Bytes
  import opened Framing
  import opened Payload
  import opened Codec
  import opened Units
  import opened ServerSpec
  import Ring

  class ModbusServer {
    const cfg: Config
    const buf: array<bv8>
    var rd: nat
    var wr: nat
    const respBuf: array<bv8>
    var respLen: nat
    const unitMask: array<bv8>
    var sending: bool
    // The callbacks made so far: what the application has seen.
    var calls: seq<Call>
    // Set where an array would be accessed out of range.
    var overrun: bool

    ghost predicate Valid()
      reads this, buf, respBuf, unitMask
    {
      && buf.Length == cfg.cap && Ring.InRing(buf[..], rd, wr)
      && respBuf.Length == cfg.respCap && respLen <= respBuf.Length
      && unitMask.Length == MASK_BYTES
      && buf != respBuf && buf != unitMask && respBuf != unitMask
      && (sending <==> respLen > 0)
    }

    ghost function Abs(): Srv
      requires Valid()
      reads this, buf, respBuf, unitMask
    {
      Srv(Ring.Contents(buf[..], rd, wr),
          if sending then Some(respBuf[..respLen]) else None,
          UnitSet(unitMask[..]),
          calls, overrun)
    }

    // params->buf_cap and params->resp_cap, where 0 selects the default.
    constructor (bufCap: nat, respCap: nat, unitIds: Bytes, readCb: Option<ReadCb>, writeCb: Option<WriteCb>,
                 stale: nat -> bv8, staleRegs: nat -> bv16)
      requires |unitIds| == 4
      ensures Valid() && fresh(buf) && fresh(respBuf) && fresh(unitMask) && rd == 0
      ensures cfg == Config(if bufCap == 0 then MAX_FRAME else bufCap, if respCap == 0 then MAX_FRAME else respCap,
                            readCb, writeCb, stale, staleRegs)
      ensures Abs() == Srv([], None, AddUnits({}, unitIds).0, [], false)
    {
      var cap := if bufCap == 0 then MAX_FRAME else bufCap;
      var rcap := if respCap == 0 then MAX_FRAME else respCap;
      cfg := Config(cap, rcap, readCb, writeCb, stale, staleRegs);
      buf := new bv8[cap];
      rd, wr := 0, 0;
      respBuf := new bv8[rcap];
      respLen := 0;
      unitMask := new bv8[MASK_BYTES](_ => 0);
      sending := false;
      calls := [];
      overrun := false;
      new;
      EmptyMask(unitMask[..]);
      var ok := AddUnit(unitIds);
    }

    method AddUnit(unitIds: Bytes) returns (ok: bool)
      requires Valid() && |unitIds| == 4
      modifies unitMask
      ensures Valid() && (Abs().units, ok) == AddUnits(old(Abs()).units, unitIds)
      ensures Abs() == old(Abs()).(units := Abs().units)
    {
      hide ByteVal, Mask8, Active;
      var i := 0;
      while i < 4 && unitIds[i] != 0
        invariant 0 <= i <= 4
        invariant AddUnits(UnitSet(unitMask[..]), unitIds[i..]) == AddUnits(old(Abs()).units, unitIds)
      {
        var uid := ByteVal(unitIds[i]);
        ZeroByte(unitIds[i]);
        if uid < 1 || uid > MAX_UNIT {
          return false;
        }
        SetUnit(unitMask[..], uid);
        ghost var mask := unitMask[..];
        unitMask[uid / 8] := unitMask[uid / 8] | Mask8(uid % 8);
        assert unitMask[..] == mask[uid / 8 := mask[uid / 8] | Mask8(uid % 8)];
        assert unitIds[i..][1..] == unitIds[i + 1..];
        i := i + 1;
      }
      return true;
    }

    predicate UnitIsActive(id: nat)
      requires unitMask.Length == MASK_BYTES && id < 256
      reads this, unitMask
    {
      Active(unitMask[..], id)
    }

    function BufUsed(): (n: nat)
      requires Valid()
      reads this, buf, respBuf, unitMask
      ensures n == |Abs().queue|
    {
      Ring.Used(cfg.cap, rd, wr)
    }

    // One slot stays empty, so that a full ring differs from an empty one.
    function BufFree(): (n: nat)
      requires Valid()
      reads this, buf, respBuf, unitMask
      ensures BufUsed() + n + 1 == cfg.cap && n == Free(cfg, Abs())
    {
      cfg.cap - BufUsed() - 1
    }

    // -------------------------------------------------------------------------------------------------------------
    // Answering a frame.

    // Encodes a response into the response buffer and raises the gate, unless it does not fit.
    method Send(p: EncodeParams, ghost adu: Bytes)
      requires Valid() && !sending
      requires Encodable(p) && Adu(Rtu, p) == Some(adu) && |adu| > 0
      modifies respBuf, this`respLen, this`sending
      ensures Valid() && Abs() == old(Abs()).(pending := Fit(cfg, adu))
    {
      hide Adu, Encodable;
      var out, n := Encode(Rtu, p, respBuf, cfg.respCap);
      respLen := n;
      if out == null || respLen == 0 {
        return;
      }
      sending := true;
    }

    method SendException(unitId: bv8, fc: bv8, exc: bv8, tid: bv16)
      requires Valid() && !sending
      modifies respBuf, this`respLen, this`sending
      ensures Valid() && Abs() == old(Abs()).(pending := ServerSpec.SendException(cfg, unitId, fc, exc, tid))
    {
      Send(FromException(tid, unitId, fc, exc), Wrap(Rtu, FromException(tid, unitId, fc, exc), [fc | 0x80, exc]));
    }

    // Calls back, and builds the response PDU: its length, 0 if the callback failed. `fits` is whether the arrays hold
    // it.
    method HandleReadRequest(unitId: bv8, req: Request, cb: ReadCb, respPdu: array<bv8>)
      returns (n: nat, fits: bool)
      requires Valid() && respPdu.Length == MAX_PDU && respPdu != buf && respPdu != respBuf && respPdu != unitMask
      modifies respPdu, this`calls, this`overrun
      ensures Valid()
      ensures var count, r := WordVal(req.count), cb(unitId, req.addr, req.count);
              && Abs() == old(Abs()).(calls := old(calls) + [ReadCall(unitId, req.addr, req.count)],
                                      overrun := old(overrun) || !fits)
              && fits == (r.None? || ReadFits(req.fc, count, |r.value|))
              && n <= MAX_PDU && (fits ==> (n == 0 <==> r.None?))
              && (fits && r.Some? ==>
                    respPdu[..n]
                    == ReadPdu(req.fc, ReadData(req.fc, Taken(r.value, Wanted(req.fc, count), cfg.staleRegs))))
    {
      hide ReadPdu, ReadData, Taken, ReadFits, WordVal;
      calls := calls + [ReadCall(unitId, req.addr, req.count)];
      var count, r := WordVal(req.count), cb(unitId, req.addr, req.count);
      n, fits := 0, true;
      if r.None? {
        return;
      }
      if !ReadFits(req.fc, count, |r.value|) {
        overrun, fits := true, false;
        return;
      }
      n := BuildResponse(req.fc, count, r.value, respPdu);
    }

    // Stores what the callback stores, and builds the response from it.
    method BuildResponse(fc: bv8, count: nat, stored: seq<bv16>, respPdu: array<bv8>) returns (n: nat)
      requires ReadFits(fc, count, |stored|) && respPdu.Length == MAX_PDU
      modifies respPdu
      ensures 2 <= n <= MAX_PDU
      ensures respPdu[..n] == ReadPdu(fc, ReadData(fc, Taken(stored, Wanted(fc, count), cfg.staleRegs)))
    {
      hide ReadPdu, ReadData;
      var stale := cfg.staleRegs;
      var regs := new bv16[REGS](i => if i < 0 then 0 else stale(i));
      forall i | 0 <= i < |stored| {
        regs[i] := stored[i];
      }
      assert regs[..Wanted(fc, count)] == Taken(stored, Wanted(fc, count), stale);
      var raw := new bv8[RAW_BYTES];
      var rawLen := PackReadData(fc, count, regs, raw);
      n := BuildReadPdu(respPdu, fc, raw, rawLen);
    }

    // req.data points at offset off of the request buffer.
    method HandleWriteRequest(unitId: bv8, req: Request, data: array<bv8>, off: nat) returns (ok: bool, fits: bool)
      requires Valid() && req.data.Some? && off <= data.Length && req.data.value == data[off..]
      modifies this`calls, this`overrun
      ensures Valid() && Abs() == old(Abs()).(calls := old(calls) + WriteCalls(cfg, unitId, req),
                                              overrun := old(overrun) || !fits)
      ensures fits == DataSuffices(req) && (fits ==> ok == WriteOk(cfg, unitId, req))
    {
      hide WordVal, Suffices, WriteArgs;
      var count := WordVal(req.count);
      if !Suffices(req.fc, count, data.Length - off) {
        overrun := true;
        return false, false;
      }
      var nregs, regs := WriteRegisters(req.fc, count, data, off);
      if cfg.writeCb.None? {
        return true, true;
      }
      calls := calls + [WriteCall(unitId, req.addr, nregs, regs)];
      return cfg.writeCb.value(unitId, req.addr, nregs, regs), true;
    }

    method HandleBroadcastWrite(req: Request, data: array<bv8>, off: nat)
      requires Valid() && req.data.Some? && off <= data.Length && req.data.value == data[off..]
      modifies this`calls, this`overrun
      ensures Valid()
      ensures Abs() == old(Abs()).(calls := old(calls) + BroadcastCalls(cfg, old(Abs()).units, req, MAX_UNIT),
                                   overrun := old(overrun) || (!DataSuffices(req) && AnyUnit(Abs().units, MAX_UNIT)))
    {
      hide ByteOf, WriteCalls, WriteOk, DataSuffices, Active, AnyUnit;
      NoUnit(Abs().units);
      for id := 1 to MAX_UNIT + 1
        invariant Valid()
        invariant Abs() == old(Abs()).(calls := old(calls) + BroadcastCalls(cfg, old(Abs()).units, req, id - 1),
                                       overrun := old(overrun) || (!DataSuffices(req) && AnyUnit(Abs().units, id - 1)))
      {
        OneMoreUnit(Abs().units, id);
        if UnitIsActive(id) {
          var _, _ := HandleWriteRequest(ByteOf(id), req, data, off);
        }
      }
    }

    method HandleFrame(frame: array<bv8>, frameLen: nat)
      requires Valid() && !sending
      requires frameLen <= frame.Length
      modifies respBuf, this`respLen, this`sending, this`calls, this`overrun
      ensures Valid()
      ensures var o := Handle(cfg, old(Abs()).units, old(frame[..frameLen]));
              Abs() == old(Abs()).(pending := o.response, calls := old(calls) + o.calls,
                                   overrun := old(overrun) || o.overrun)
    {
      hide Decode, ParsePdu, WriteCalls, WriteOk, DataSuffices, ByteVal, BroadcastCalls, Refuse, HandleRead, AnyUnit,
           Ring.Contents, IsRead, IsWriteSingle;
      var stale := cfg.stale;
      var reqPdu := new bv8[MAX_PDU](i => if i < 0 then 0 else stale(i));
      var ok, tooLong, unitId, pduLen := DecodeFrame(Rtu, frame, frameLen, reqPdu);
      if !ok {
        overrun := overrun || tooLong;
        return;
      }
      ghost var pdu := reqPdu[..pduLen];
      DecodedLength(frame[..frameLen]);
      assert reqPdu[..] == Padded(pdu, stale);
      var parsed := ParsePdu(reqPdu[..], pduLen);
      if parsed.None? {
        SendException(unitId, reqPdu[0], 0, EXC_ILLEGAL_DATA_ADDR as bv16);
        RefuseIs(cfg, unitId, pdu[0], EXC_ILLEGAL_DATA_ADDR);
        return;
      }
      var req := parsed.value;
      ParsedRequest(reqPdu[..], pduLen);
      if unitId == 0 {
        if !IsRead(req.fc) {
          HandleBroadcastWrite(req, reqPdu, if IsWriteSingle(req.fc) then 3 else 6);
        }
        return;
      }
      if !UnitIsActive(ByteVal(unitId)) {
        return;
      }
      Dispatch(unitId, req, reqPdu, pduLen);
    }

    // The switch over the function code, for an active unit.
    method Dispatch(unitId: bv8, req: Request, reqPdu: array<bv8>, pduLen: nat)
      requires Valid() && !sending
      requires 1 <= pduLen <= reqPdu.Length == MAX_PDU
      requires if IsRead(req.fc) then req.data.None?
               else IsWrite(req.fc) && req.data == Some(reqPdu[if IsWriteSingle(req.fc) then 3 else 6..])
      requires unitId != 0 && ByteVal(unitId) in Abs().units
      modifies respBuf, this`respLen, this`sending, this`calls, this`overrun
      ensures Valid()
      ensures var o := HandleRequest(cfg, old(Abs()).units, unitId, old(reqPdu[..pduLen]), req);
              Abs() == old(Abs()).(pending := o.response, calls := old(calls) + o.calls,
                                   overrun := old(overrun) || o.overrun)
    {
      hide WriteCalls, WriteOk, DataSuffices, ByteVal, WordVal, ReadPdu, ReadData, Taken, ReadFits,
           BroadcastCalls, IsRead, IsWriteSingle, IsWriteMultiple, UnitSet, Ring.Contents, Refuse, RespondPdu;
      var respPdu := new bv8[MAX_PDU];
      var n, fits := 0, true;
      RefuseIs(cfg, unitId, req.fc, EXC_SLAVE_DEVICE_FAILURE);
      if IsRead(req.fc) {
        if cfg.readCb.None? {
          SendException(unitId, req.fc, 0, EXC_SLAVE_DEVICE_FAILURE as bv16);
          return;
        }
        n, fits := HandleReadRequest(unitId, req, cfg.readCb.value, respPdu);
      } else {
        var written;
        written, fits := HandleWriteRequest(unitId, req, reqPdu, if IsWriteSingle(req.fc) then 3 else 6);
        if fits && written {
          forall i | 0 <= i < pduLen {
            respPdu[i] := reqPdu[i];
          }
          n := pduLen;
          assert respPdu[..n] == old(reqPdu[..pduLen]);
        }
      }
      NothingWritten(cfg, unitId, req);
      if !fits {
        return;
      }
      if n == 0 {
        SendException(unitId, req.fc, 0, EXC_SLAVE_DEVICE_FAILURE as bv16);
        return;
      }
      SendPdu(unitId, respPdu[..n]);
    }

    method SendPdu(unitId: bv8, pdu: Bytes)
      requires Valid() && !sending
      modifies respBuf, this`respLen, this`sending
      ensures Valid() && Abs() == old(Abs()).(pending := RespondPdu(cfg, unitId, pdu))
    {
      WrapNonEmpty(FromPdu(0, unitId, pdu), pdu);
      Send(FromPdu(0, unitId, pdu), Wrap(Rtu, FromPdu(0, unitId, pdu), pdu));
    }

    // -------------------------------------------------------------------------------------------------------------
    // The steps.

    // Copies the front of the queue out of the ring.
    method CopyOut(used: nat) returns (tmp: array<bv8>, copySz: nat)
      requires Valid() && used == BufUsed()
      ensures fresh(tmp) && tmp.Length == MAX_FRAME && copySz == Min(used, MAX_FRAME)
      ensures tmp[..copySz] == View(Abs().queue)
    {
      copySz := Min(used, MAX_FRAME);
      tmp := new bv8[MAX_FRAME];
      Ring.Copy(tmp, buf, rd, wr, copySz);
    }

    // Frees the ring space of a frame that has been copied out.
    method Consume(n: nat)
      requires Valid() && n <= BufUsed()
      modifies this`rd
      ensures Valid() && Abs() == old(Abs()).(queue := old(Abs()).queue[n..])
    {
      hide UnitSet;
      Ring.Drop(buf[..], rd, wr, n, (rd + n) % buf.Length);
      rd := (rd + n) % buf.Length;
    }

    method TryProcess()
      requires Valid()
      modifies respBuf, this`rd, this`wr, this`respLen, this`sending, this`calls, this`overrun
      ensures Valid() && Abs() == ServerSpec.TryProcess(cfg, old(Abs()))
      ensures |Abs().queue| == old(|Abs().queue|) ==> rd == old(rd)
    {
      hide Handle, UnitSet, ParseRequest, Ring.Contents;
      if sending {
        return;
      }
      var used := BufUsed();
      if used == 0 {
        return;
      }
      var tmp, copySz := CopyOut(used);
      match ParseRequest(tmp[..copySz])
      case NeedMore =>
      case FrameError =>
        rd, wr := 0, 0;
        EmptyRing(buf[..]);
      case Ready(n) =>
        assert tmp[..n] == tmp[..copySz][..n] == Abs().queue[..n];
        Consume(n);
        HandleFrame(tmp, n);
    }

    // Bytes that lie behind wr become part of the queue.
    ghost predicate LiesBehind(data: Bytes)
      reads this, buf
    {
      wr <= buf.Length && forall i :: 0 <= i < |data| && Ring.At(buf.Length, wr, i) < buf.Length ==>
        buf[Ring.At(buf.Length, wr, i)] == data[i]
    }

    method Advance(n: nat, ghost data: Bytes)
      requires Valid() && n == |data| <= BufFree() && LiesBehind(data)
      modifies respBuf, this`rd, this`wr, this`respLen, this`sending, this`calls, this`overrun
      ensures Valid() && Abs() == ServerSpec.TryProcess(cfg, old(Abs()).(queue := old(Abs()).queue + data))
      ensures |Abs().queue| == old(|Abs().queue|) + n ==> rd == old(rd)
    {
      hide ServerSpec.TryProcess, UnitSet;
      Ring.Append(buf[..], buf[..], rd, wr, data, (wr + n) % buf.Length);
      wr := (wr + n) % buf.Length;
      TryProcess();
    }

    method Feed(data: Bytes)
      requires Valid()
      modifies buf, respBuf, this`rd, this`wr, this`respLen, this`sending, this`calls, this`overrun
      ensures Valid() && Abs() == ServerSpec.Feed(cfg, old(Abs()), data)
      ensures |Abs().queue| == old(|Abs().queue|) + |data| ==> rd == old(rd)
    {
      hide ServerSpec.TryProcess, UnitSet;
      if |data| == 0 {
        return;
      }
      if |data| > BufFree() {
        rd, wr := 0, 0;
        return;
      }
      var toEnd := buf.Length - wr;
      ghost var before := buf[..];
      if |data| <= toEnd {
        Store(buf, wr, data);
      } else {
        Store(buf, wr, data[..toEnd]);
        Store(buf, 0, data[toEnd..]);
      }
      ContentsKept(before, buf[..], data);
      Advance(|data|, data);
    }

    // What is written behind wr, within the free space, leaves the queue as it is.
    lemma ContentsKept(before: Bytes, after: Bytes, data: Bytes)
      requires Ring.InRing(before, rd, wr) && |after| == |before|
      requires |data| <= |before| - Ring.Used(|before|, rd, wr) - 1
      requires forall j :: 0 <= j < |before| && !Behind(|before|, wr, |data|, j) ==> after[j] == before[j]
      ensures Ring.Contents(after, rd, wr) == Ring.Contents(before, rd, wr)
    {
      forall k | 0 <= k < Ring.Used(|before|, rd, wr)
        ensures Ring.Contents(after, rd, wr)[k] == Ring.Contents(before, rd, wr)[k]
      {
        Ring.ContentsAt(before, rd, wr, k);
        Ring.ContentsAt(after, rd, wr, k);
        assert !Behind(|before|, wr, |data|, Ring.At(|before|, rd, k));
      }
    }

    // The space from wr to the slot before rd, or to the end of the buffer: one more than is free when rd is 0.
    function Contiguous(): (n: nat)
      requires Valid()
      reads this, buf, respBuf, unitMask
      ensures n <= BufFree() + 1 && (n == BufFree() + 1 ==> rd == 0) && (n > 0 ==> wr + n <= buf.Length)
    {
      if wr < rd then rd - wr - 1 else buf.Length - wr
    }

    // The contiguous space at wr that the transport may fill: an offset into buf, and how many bytes.
    method Reserve() returns (off: nat, avail: nat)
      requires Valid()
      ensures sending ==> avail == 0
      ensures !sending ==> off == wr && off + avail <= buf.Length
      ensures !sending ==> avail == Ring.Available(cfg.cap, rd, wr)
      ensures !sending ==> avail <= BufFree() && (avail > 0 <==> BufFree() > 0)
    {
      off, avail := wr, 0;
      if sending || BufFree() == 0 {
        return;
      }
      var contig := Contiguous();
      avail := Min(contig, BufFree());
    }

    // Commits n bytes that were put at wr. Up to the free space they join the queue. The check admits one byte more
    // when rd is 0: then wr meets rd, and everything received so far is lost.
    method Commit(n: nat)
      requires Valid()
      modifies respBuf, this`rd, this`wr, this`respLen, this`sending, this`calls, this`overrun
      ensures Valid()
      ensures n <= old(BufFree()) && old(wr) + n <= buf.Length ==>
              Abs() == ServerSpec.Commit(cfg, old(Abs()), old(buf[wr..wr + n]))
      ensures n > old(BufFree()) && !old(sending) ==>
              Abs() == if old(rd) == 0 && old(wr) + n == buf.Length then old(Abs()).(queue := []) else old(Abs())
      ensures n > old(Contiguous()) ==> Abs() == old(Abs())
    {
      hide ServerSpec.TryProcess, UnitSet;
      if n == 0 || sending {
        return;
      }
      var contig := Contiguous();
      if n > contig {
        return;
      }
      Ring.Wrap(wr + n, buf.Length);
      if n <= BufFree() {
        ghost var data := buf[wr..wr + n];
        Advance(n, data);
      } else {
        wr := (wr + n) % buf.Length;
        EmptyStep(cfg, Abs());
        TryProcess();
      }
    }

    // The zero-copy path of a poll callback: reserve, let the transport read what fits, commit.
    method PollRead(incoming: Bytes) returns (n: nat)
      requires Valid()
      modifies buf, respBuf, this`rd, this`wr, this`respLen, this`sending, this`calls, this`overrun
      ensures Valid() && n <= |incoming| && Abs() == ServerSpec.Commit(cfg, old(Abs()), incoming[..n])
      ensures n == 0 ==> Abs() == old(Abs())
      ensures old(sending) ==> n == 0
      ensures !old(sending) ==> n <= old(BufFree()) && (n > 0 <==> incoming != [] && old(BufFree()) > 0)
    {
      hide ServerSpec.TryProcess, UnitSet;
      var off, avail := Reserve();
      n := Min(avail, |incoming|);
      if n == 0 {
        return;
      }
      ghost var before := buf[..];
      Store(buf, off, incoming[..n]);
      ContentsKept(before, buf[..], incoming[..n]);
      assert buf[wr..wr + n] == incoming[..n];
      Commit(n);
    }

    method GetResponse() returns (r: Option<Bytes>)
      requires Valid()
      ensures r == Abs().pending
    {
      if respLen == 0 {
        return None;
      }
      return Some(respBuf[..respLen]);
    }

    method ResponseSent()
      requires Valid()
      modifies respBuf, this`rd, this`wr, this`respLen, this`sending, this`calls, this`overrun
      ensures Valid() && Abs() == ServerSpec.ResponseSent(cfg, old(Abs()))
    {
      hide ServerSpec.TryProcess, UnitSet;
      respLen := 0;
      sending := false;
      TryProcess();
    }
  }

  // Index j is one of the n positions behind wr.
  predicate Behind(cap: nat, wr: nat, n: nat, j: nat) {
    wr <= j < wr + n || j + cap < wr + n
  }

  lemma EmptyRing(buf: Bytes)
    requires buf != []
    ensures Ring.Contents(buf, 0, 0) == []
  {
  }

  lemma EmptyStep(cfg: Config, s: Srv)
    requires s.queue == []
    ensures TryProcess(cfg, s) == s
  {
  }

  lemma DecodedLength(frame: Bytes)
    requires Decode(Rtu, frame).Some?
    ensures 1 <= |Decode(Rtu, frame).value.1| == |frame| - 3
  {
  }

  lemma WrapNonEmpty(p: EncodeParams, pdu: Bytes)
    ensures |Wrap(Rtu, p, pdu)| == |pdu| + 3
  {
  }

  lemma ParsedRequest(buf: Bytes, len: nat)
    requires 1 <= len <= |buf| == MAX_PDU && ParsePdu(buf, len).Some?
    ensures var req := ParsePdu(buf, len).value;
            if IsRead(req.fc) then req.data.None?
            else IsWrite(req.fc) && req.data == Some(buf[if IsWriteSingle(req.fc) then 3 else 6..])
  {
  }

  lemma RefuseIs(cfg: Config, unitId: bv8, fc: bv8, code: bv8)
    ensures Refuse(cfg, unitId, fc, code) == SendException(cfg, unitId, fc, 0, code as bv16)
  {
  }

  lemma NothingWritten(cfg: Config, unitId: bv8, req: Request)
    ensures !DataSuffices(req) ==> WriteCalls(cfg, unitId, req) == []
  {
  }

  lemma NoUnit(units: set<nat>)
    ensures !AnyUnit(units, 0)
  {
  }

  lemma OneMoreUnit(units: set<nat>, id: nat)
    requires id >= 1
    ensures AnyUnit(units, id) <==> AnyUnit(units, id - 1) || id in units
  {
  }

  // The registers of a write request, from offset off of the request buffer.
  method WriteRegisters(fc: bv8, count: nat, data: array<bv8>, off: nat) returns (nregs: nat, regs: seq<bv16>)
    requires off <= data.Length && Suffices(fc, count, data.Length - off)
    ensures (nregs, regs) == WriteArgs(fc, count, data[off..])
  {
    hide Word, IsWriteSingle, CoilWords, UnpackRegs;
    var wregs := new bv16[REGS];
    nregs := 1;
    ghost var d := data[off..];
    if IsWriteSingle(fc) {
      wregs[0] := Word(data[off], data[off + 1]);
      assert wregs[..1] == [Word(d[0], d[1])];
    } else if fc == 0x0F {
      nregs := PackCoils(data, off, count, wregs);
    } else {
      nregs := count;
      UnpackWrite(data, off, count, wregs);
    }
    regs := wregs[..Min(nregs, REGS)];
  }
}
