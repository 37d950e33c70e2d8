// The server as an abstract machine: a queue of received bytes, at most one response waiting to be sent, a set of
// units, and the record of the callbacks it made.
module ServerSpec {
  import opened Bytes
  import opened Framing
  import opened Payload
  import opened Codec
  import opened Units

  // A read callback is told the unit, address and count. It fails, or stores registers from the start of the array on:
  // as many as it likes.
  type ReadCb = (bv8, bv16, bv16) -> Option<seq<bv16>>

  // A write callback is told the address, the register quantity and the registers, and succeeds or fails.
  type WriteCb = (bv8, bv16, nat, seq<bv16>) -> bool

  datatype Call =
    | ReadCall(unitId: bv8, addr: bv16, count: bv16)
    | WriteCall(unitId: bv8, addr: bv16, quantity: nat, regs: seq<bv16>)

  // What does not change: buffer sizes, callbacks, and what the arrays on the stack hold where nothing has been stored.
  datatype Config = Config(cap: nat, respCap: nat, readCb: Option<ReadCb>, writeCb: Option<WriteCb>,
                           stale: nat -> bv8, staleRegs: nat -> bv16)

  // Once `overrun` is set, some array has been accessed out of range and the rest of the state means nothing.
  datatype Srv = Srv(queue: Bytes, pending: Option<Bytes>, units: set<nat>, calls: seq<Call>, overrun: bool)

  // What the server does with one frame. An overrun ends it.
  datatype Outcome = Outcome(response: Option<Bytes>, calls: seq<Call>, overrun: bool)

  const EXC_ILLEGAL_DATA_ADDR: bv8 := 2
  const EXC_SLAVE_DEVICE_FAILURE: bv8 := 4

  // The request buffer after the PDU has been copied into it.
  function Padded(pdu: Bytes, stale: nat -> bv8): (b: Bytes)
    requires |pdu| <= MAX_PDU
    ensures |b| == MAX_PDU && pdu <= b
  {
    pdu + seq(MAX_PDU - |pdu|, i requires 0 <= i < MAX_PDU - |pdu| => stale(|pdu| + i))
  }

  // The first n registers of the array, after the callback has stored some.
  function Taken(stored: seq<bv16>, n: nat, stale: nat -> bv16): (regs: seq<bv16>)
    ensures |regs| == n
    ensures n <= |stored| ==> regs == stored[..n]
  {
    seq(n, i requires 0 <= i < n => if i < |stored| then stored[i] else stale(i))
  }

  // The arrays of a read hold what is put into them: `stored` registers by the callback, and the data for count items.
  predicate ReadFits(fc: bv8, count: nat, stored: nat) {
    stored <= REGS && Wanted(fc, count) <= REGS && RawLength(fc, count) <= RAW_BYTES
    && 2 + RawLength(fc, count) % 256 <= MAX_PDU
  }

  // A response that does not fit the response buffer is not sent.
  function Fit(cfg: Config, adu: Bytes): Option<Bytes> {
    if |adu| <= cfg.respCap then Some(adu) else None
  }

  function RespondPdu(cfg: Config, unitId: bv8, pdu: Bytes): Option<Bytes> {
    Fit(cfg, Wrap(Rtu, FromPdu(0, unitId, pdu), pdu))
  }

  function SendException(cfg: Config, unitId: bv8, fc: bv8, exc: bv8, tid: bv16): Option<Bytes> {
    Fit(cfg, Wrap(Rtu, FromException(tid, unitId, fc, exc), [fc | 0x80, exc]))
  }

  // The handlers pass the transaction id, 0 on RTU, where the exception code goes, and the code where the id goes.
  function Refuse(cfg: Config, unitId: bv8, fc: bv8, code: bv8): Option<Bytes> {
    SendException(cfg, unitId, fc, 0, code as bv16)
  }

  function HandleRead(cfg: Config, unitId: bv8, req: Request): Outcome {
    if cfg.readCb.None? then Outcome(Refuse(cfg, unitId, req.fc, EXC_SLAVE_DEVICE_FAILURE), [], false)
    else
      var count, r := WordVal(req.count), cfg.readCb.value(unitId, req.addr, req.count);
      var calls := [ReadCall(unitId, req.addr, req.count)];
      if r.None? then Outcome(Refuse(cfg, unitId, req.fc, EXC_SLAVE_DEVICE_FAILURE), calls, false)
      else if !ReadFits(req.fc, count, |r.value|) then Outcome(None, calls, true)
      else
        var regs := Taken(r.value, Wanted(req.fc, count), cfg.staleRegs);
        Outcome(RespondPdu(cfg, unitId, ReadPdu(req.fc, ReadData(req.fc, regs))), calls, false)
  }

  // The request buffer holds all the data that the write reads.
  predicate DataSuffices(req: Request) {
    req.data.Some? && Suffices(req.fc, WordVal(req.count), |req.data.value|)
  }

  // The call that a write request makes for one unit, if there is a callback.
  function WriteCalls(cfg: Config, unitId: bv8, req: Request): seq<Call> {
    if cfg.writeCb.None? || !DataSuffices(req) then []
    else
      var (n, regs) := WriteArgs(req.fc, WordVal(req.count), req.data.value);
      [WriteCall(unitId, req.addr, n, regs)]
  }

  function WriteOk(cfg: Config, unitId: bv8, req: Request): bool
    requires DataSuffices(req)
  {
    var (n, regs) := WriteArgs(req.fc, WordVal(req.count), req.data.value);
    cfg.writeCb.None? || cfg.writeCb.value(unitId, req.addr, n, regs)
  }

  ghost function BroadcastCalls(cfg: Config, units: set<nat>, req: Request, hi: nat): seq<Call>
    requires hi <= MAX_UNIT
  {
    if hi == 0 then []
    else BroadcastCalls(cfg, units, req, hi - 1) + if hi in units then WriteCalls(cfg, ByteOf(hi), req) else []
  }

  ghost predicate AnyUnit(units: set<nat>, hi: nat) {
    exists id :: 1 <= id <= hi && id in units
  }

  ghost function HandleRequest(cfg: Config, units: set<nat>, unitId: bv8, pdu: Bytes, req: Request): Outcome {
    if unitId == 0 then
      if IsRead(req.fc) then Outcome(None, [], false)
      else Outcome(None, BroadcastCalls(cfg, units, req, MAX_UNIT), !DataSuffices(req) && AnyUnit(units, MAX_UNIT))
    else if ByteVal(unitId) !in units then Outcome(None, [], false)
    else if IsRead(req.fc) then HandleRead(cfg, unitId, req)
    else if !DataSuffices(req) then Outcome(None, [], true)
    else
      Outcome(if WriteOk(cfg, unitId, req) then RespondPdu(cfg, unitId, pdu)
              else Refuse(cfg, unitId, req.fc, EXC_SLAVE_DEVICE_FAILURE),
              WriteCalls(cfg, unitId, req), false)
  }

  ghost function Handle(cfg: Config, units: set<nat>, frame: Bytes): Outcome {
    match Decode(Rtu, frame)
    case None => Outcome(None, [], false)
    case Some((unitId, pdu)) =>
      if |pdu| > MAX_PDU then Outcome(None, [], true)
      else
        match ParsePdu(Padded(pdu, cfg.stale), |pdu|)
        case None => Outcome(Refuse(cfg, unitId, pdu[0], EXC_ILLEGAL_DATA_ADDR), [], false)
        case Some(req) => HandleRequest(cfg, units, unitId, pdu, req)
  }

  // ---------------------------------------------------------------------------------------------------------------
  // The steps.

  function View(queue: Bytes): Bytes {
    queue[..Min(|queue|, MAX_FRAME)]
  }

  // At most one frame is taken from the queue, and none while a response is waiting.
  ghost function TryProcess(cfg: Config, s: Srv): Srv {
    if s.pending.Some? || s.queue == [] then s
    else match ParseRequest(View(s.queue))
      case NeedMore => s
      case FrameError => s.(queue := [])
      case Ready(n) =>
        var o := Handle(cfg, s.units, s.queue[..n]);
        s.(queue := s.queue[n..], pending := o.response, calls := s.calls + o.calls, overrun := s.overrun || o.overrun)
  }

  function Free(cfg: Config, s: Srv): int {
    cfg.cap - |s.queue| - 1
  }

  ghost function Feed(cfg: Config, s: Srv, data: Bytes): Srv {
    if data == [] then s
    else if |data| > Free(cfg, s) then s.(queue := [])
    else TryProcess(cfg, s.(queue := s.queue + data))
  }

  // Committing bytes that the transport has put into the reserved part of the buffer.
  ghost function Commit(cfg: Config, s: Srv, data: Bytes): Srv {
    if data == [] || s.pending.Some? then s
    else TryProcess(cfg, s.(queue := s.queue + data))
  }

  ghost function ResponseSent(cfg: Config, s: Srv): Srv {
    TryProcess(cfg, s.(pending := None))
  }

  // The two ways in agree: bytes that were reserved and committed are bytes that were fed.
  lemma CommitIsFeed(cfg: Config, s: Srv, data: Bytes)
    requires |data| <= Free(cfg, s) && s.pending.None?
    ensures Commit(cfg, s, data) == Feed(cfg, s, data)
  {
  }
}
