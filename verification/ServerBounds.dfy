// The arrays on the server's stack: which places of them a frame makes the server access, and the frames for which all
// of these exist. Nothing in the source compares the one with the other.
module ServerBounds {
  import opened Bytes
  import opened Crc
  import opened Framing
  import opened Payload
  import opened Codec
  import opened Units
  import opened ServerSpec

  // The parts of a whole request frame.
  lemma WholeRequestParts(f: Bytes)
    requires WholeRequest(f)
    ensures |f| >= 5 && Decode(Rtu, f) == Some((f[0], f[1..|f| - 2]))
    ensures IsException(f[1]) || IsRead(f[1]) || IsWrite(f[1])
    ensures IsRead(f[1]) || IsWriteSingle(f[1]) ==> |f| == 8
    ensures IsWriteMultiple(f[1]) ==> |f| == 9 + ByteVal(f[6])
  {
    FunctionsAreNotExceptions(f[1]);
    hide IsException, IsRead, IsWriteSingle, IsWriteMultiple, ByteVal, ValidFrame;
    assert f[..|f|] == f;
  }

  // The request that a whole frame carries: none exactly if its function code has the exception bit.
  lemma WholeRequestParsed(f: Bytes, stale: nat -> bv8)
    requires WholeRequest(f) && |f| <= MAX_ADU
    ensures |f| >= 5
    ensures var pdu := f[1..|f| - 2]; var r := ParsePdu(Padded(pdu, stale), |pdu|);
            && (r.None? <==> IsException(f[1]))
            && (r.Some? ==> r.value.fc == f[1] && r.value.addr == Word(f[2], f[3]))
            && (r.Some? && (IsRead(f[1]) || IsWriteMultiple(f[1])) ==> r.value.count == Word(f[4], f[5]))
            && (r.Some? && IsRead(f[1]) ==> r.value.data.None?)
            && (r.Some? && IsWriteMultiple(f[1]) ==> r.value.data == Some(Padded(pdu, stale)[6..]))
            && (r.Some? && IsWriteSingle(f[1]) ==> r.value.data == Some(Padded(pdu, stale)[3..]))
  {
    WholeRequestParts(f);
    FunctionsAreNotExceptions(f[1]);
    ReadsAreNotWrites(f[1]);
    hide IsException, IsRead, IsWriteSingle, IsWriteMultiple, ByteVal, WholeRequest, Decode, Word;
    var pdu := f[1..|f| - 2];
    assert forall i :: 0 <= i < |pdu| ==> Padded(pdu, stale)[i] == pdu[i] == f[i + 1];
  }

  // ---------------------------------------------------------------------------------------------------------------
  // The accesses.

  datatype Buffer = ReqPdu | Regs | Raw | RespPdu | WriteRegs

  function Size(b: Buffer): nat {
    match b
    case ReqPdu => MAX_PDU
    case Regs => REGS
    case Raw => RAW_BYTES
    case RespPdu => MAX_PDU
    case WriteRegs => REGS
  }

  // The count that a frame asks for.
  function CountOf(f: Bytes): nat {
    if |f| < 6 then 0 else WordVal(Word(f[4], f[5]))
  }

  // What the read callback makes of the frame, if there is one.
  function Callback(cfg: Config, f: Bytes): Option<seq<bv16>> {
    if cfg.readCb.None? || |f| < 6 then None else cfg.readCb.value(f[0], Word(f[2], f[3]), Word(f[4], f[5]))
  }

  // The registers that it stores.
  function Stored(cfg: Config, f: Bytes): nat {
    if Callback(cfg, f).None? then 0 else |Callback(cfg, f).value|
  }

  // The frame gets as far as packing what the callback has stored.
  ghost predicate ReadRuns(cfg: Config, units: set<nat>, f: Bytes)
    requires |f| >= 2
  {
    IsRead(f[1]) && f[0] != 0 && ByteVal(f[0]) in units && Callback(cfg, f).Some?
  }

  // The frame gets as far as unpacking its data, for its unit or for those that a broadcast reaches.
  ghost predicate WriteRuns(units: set<nat>, f: Bytes)
    requires |f| >= 2
  {
    IsWrite(f[1]) && if f[0] == 0 then AnyUnit(units, MAX_UNIT) else ByteVal(f[0]) in units
  }

  // Byte j of the request PDU is read as data by the unpacking loops.
  predicate ReadAsData(fc: bv8, count: nat, j: nat) {
    if IsWriteSingle(fc) then j == 3 || j == 4
    else if fc == 0x0F then j >= 6 && 8 * (j - 6) < Min(count, MAX_COILS)
    else 6 <= j < 6 + 2 * Min(count, REGS)
  }

  // Register j is stored by them.
  predicate WrittenAsData(fc: bv8, count: nat, j: nat) {
    if IsWriteSingle(fc) then j == 0
    else if fc == 0x0F then j < Min((count + 15) / 16, REGS)
    else j < Min(count, REGS)
  }

  // Handling the frame accesses place j of array b: the copy of the PDU, the callback and the packing loop, the
  // response, the unpacking loops, and the copy of the request as the response, which a callback that fails prevents.
  ghost predicate Accessed(cfg: Config, units: set<nat>, f: Bytes, b: Buffer, j: nat)
    requires |f| >= 5
  {
    var count := CountOf(f);
    match b
    case ReqPdu => j < |f| - 3 || (WriteRuns(units, f) && ReadAsData(f[1], count, j))
    case Regs => ReadRuns(cfg, units, f) && (j < Stored(cfg, f) || j < Wanted(f[1], count))
    case Raw => ReadRuns(cfg, units, f) && j < RawLength(f[1], count)
    case RespPdu =>
      (ReadRuns(cfg, units, f) && j < 2 + RawLength(f[1], count) % 256)
      || (WriteRuns(units, f) && f[0] != 0 && j < |f| - 3)
    case WriteRegs => WriteRuns(units, f) && WrittenAsData(f[1], count, j)
  }

  ghost predicate OutOfRange(cfg: Config, units: set<nat>, f: Bytes)
    requires |f| >= 5
  {
    exists b, j: nat :: Accessed(cfg, units, f, b, j) && j >= Size(b)
  }

  // ---------------------------------------------------------------------------------------------------------------
  // The frames that are in range: a condition on the frame, and for a read on how many registers the callback stores.

  predicate CountInRange(fc: bv8, count: nat, stored: nat) {
    if IsCoilRead(fc) then stored <= 256 && (count + 7) / 8 <= 256 && (count + 7) / 8 % 256 <= 251
    else if IsRead(fc) then stored <= 256 && count <= 256 && 2 * count % 256 <= 251
    else if fc == 0x0F then Min(count, 2000) <= 1976
    else if fc == 0x10 then count <= 123
    else true
  }

  predicate InRange(f: Bytes, stored: nat)
    requires |f| >= 2
  {
    |f| <= MAX_ADU && CountInRange(f[1], CountOf(f), stored)
  }

  lemma ReadInRange(fc: bv8, count: nat, stored: nat)
    requires IsRead(fc)
    ensures ReadFits(fc, count, stored) <==> CountInRange(fc, count, stored)
  {
    hide IsRead, IsCoilRead;
  }

  lemma WriteInRange(fc: bv8, count: nat, stored: nat)
    requires IsWrite(fc)
    ensures Suffices(fc, count, if IsWriteSingle(fc) then MAX_PDU - 3 else MAX_PDU - 6) 
            <==> CountInRange(fc, count, stored)
  {
  }

  // The frames that overrun, and how far they get.
  lemma HandleOverruns(cfg: Config, units: set<nat>, f: Bytes)
    requires WholeRequest(f)
    ensures |f| >= 5
    ensures Handle(cfg, units, f).overrun <==>
            |f| > MAX_ADU || ((ReadRuns(cfg, units, f) || WriteRuns(units, f)) && !InRange(f, Stored(cfg, f)))
  {
    WholeRequestParts(f);
    FunctionsAreNotExceptions(f[1]);
    ReadsAreNotWrites(f[1]);
    hide IsException, IsRead, IsWriteSingle, IsWriteMultiple, ByteVal, WordVal, Word, WholeRequest, Decode,
         ParsePdu, Padded, Suffices, ReadFits, CountInRange, AnyUnit, Taken, ReadData, ReadPdu, Refuse, RespondPdu,
         WriteCalls, WriteOk, BroadcastCalls;
    if |f| <= MAX_ADU {
      WholeRequestParsed(f, cfg.stale);
      if IsRead(f[1]) {
        ReadInRange(f[1], CountOf(f), Stored(cfg, f));
      } else if IsWrite(f[1]) {
        WriteInRange(f[1], CountOf(f), Stored(cfg, f));
        WriteInRange(f[1], 1, Stored(cfg, f));
        SingleInRange(f[1], CountOf(f), Stored(cfg, f));
        SingleInRange(f[1], 1, Stored(cfg, f));
      }
    }
  }

  lemma SingleInRange(fc: bv8, count: nat, stored: nat)
    ensures IsWriteSingle(fc) ==> CountInRange(fc, count, stored)
  {
  }

  lemma AccessInRange(cfg: Config, units: set<nat>, f: Bytes, b: Buffer, j: nat)
    requires |f| >= 5 && Accessed(cfg, units, f, b, j) && j >= Size(b)
    ensures |f| > MAX_ADU || ((ReadRuns(cfg, units, f) || WriteRuns(units, f)) && !InRange(f, Stored(cfg, f)))
  {
    hide ByteVal, WordVal, Word, Callback, Stored, CountOf, AnyUnit;
  }

  lemma ReadOutOfRange(cfg: Config, units: set<nat>, f: Bytes)
    requires |f| >= 5 && ReadRuns(cfg, units, f) && !CountInRange(f[1], CountOf(f), Stored(cfg, f))
    ensures OutOfRange(cfg, units, f)
  {
    hide ByteVal, WordVal, Word, Callback, Stored, CountOf, WriteRuns;
    var count, stored := CountOf(f), Stored(cfg, f);
    assert Accessed(cfg, units, f, Regs, 256) || Accessed(cfg, units, f, RespPdu, 253);
  }

  lemma WriteOutOfRange(cfg: Config, units: set<nat>, f: Bytes)
    requires |f| >= 5 && WriteRuns(units, f) && !CountInRange(f[1], CountOf(f), Stored(cfg, f))
    ensures OutOfRange(cfg, units, f)
  {
    hide ByteVal, WordVal, Word, Callback, Stored, CountOf, ReadRuns, AnyUnit;
    assert Accessed(cfg, units, f, ReqPdu, 253);
  }

  // The condition under which the model describes what the source does with a whole frame: if it gets to a read
  // callback's registers or to the data of a write it must be in range, and if not its PDU must fit all the same.
  ghost predicate Safe(cfg: Config, units: set<nat>, f: Bytes)
    requires |f| >= 2
  {
    if ReadRuns(cfg, units, f) || WriteRuns(units, f) then InRange(f, Stored(cfg, f)) else |f| <= MAX_ADU
  }

  // It is exact: the model sets `overrun` iff handling the frame accesses a place that does not exist, and iff the
  // condition does not hold.
  lemma OverrunIff(cfg: Config, units: set<nat>, f: Bytes)
    requires WholeRequest(f)
    ensures |f| >= 5
    ensures Handle(cfg, units, f).overrun <==> OutOfRange(cfg, units, f)
    ensures Handle(cfg, units, f).overrun <==> !Safe(cfg, units, f)
  {
    HandleOverruns(cfg, units, f);
    hide Handle, WholeRequest, CountInRange, ReadRuns, WriteRuns, Stored, CountOf;
    if OutOfRange(cfg, units, f) {
      var b, j: nat :| Accessed(cfg, units, f, b, j) && j >= Size(b);
      AccessInRange(cfg, units, f, b, j);
    }
    if |f| > MAX_ADU {
      assert Accessed(cfg, units, f, ReqPdu, 253);
    } else if Handle(cfg, units, f).overrun {
      if ReadRuns(cfg, units, f) {
        ReadOutOfRange(cfg, units, f);
      } else {
        WriteOutOfRange(cfg, units, f);
      }
    }
  }

  lemma SafeLength(cfg: Config, units: set<nat>, f: Bytes)
    requires |f| >= 2 && Safe(cfg, units, f)
    ensures |f| <= MAX_ADU
  {
    hide ReadRuns, WriteRuns, CountInRange, Stored;
  }

  // What is in range is safe, whatever else is registered or called.
  lemma InRangeIsSafe(cfg: Config, units: set<nat>, f: Bytes, stored: nat)
    requires |f| >= 2 && InRange(f, stored) && (IsRead(f[1]) ==> stored == Stored(cfg, f))
    ensures Safe(cfg, units, f)
  {
    FunctionsAreNotExceptions(f[1]);
    ReadsAreNotWrites(f[1]);
  }

  // With a callback that stores as many registers as it is asked for, like the application's own, the condition is one
  // on the frame alone.
  predicate CountFits(fc: bv8, count: nat) {
    && (fc == 0x01 || fc == 0x02 ==> count <= 256)
    && (fc == 0x03 || fc == 0x04 ==> count <= 256 && 2 * count % 256 <= 251)
    && (fc == 0x0F ==> Min(count, 2000) <= 1976)
    && (fc == 0x10 ==> count <= 123)
  }

  predicate FrameInRange(f: Bytes)
    requires |f| >= 2
  {
    |f| <= 256 && CountFits(f[1], CountOf(f))
  }

  lemma CountFitsIff(fc: bv8, count: nat, stored: nat)
    requires IsRead(fc) ==> stored == count
    ensures CountFits(fc, count) <==> CountInRange(fc, count, stored)
  {
  }

  lemma FrameInRangeIff(cfg: Config, units: set<nat>, f: Bytes)
    requires WholeRequest(f) && |f| >= 5
    requires ReadRuns(cfg, units, f) || WriteRuns(units, f)
    requires IsRead(f[1]) ==> Stored(cfg, f) == CountOf(f)
    ensures Handle(cfg, units, f).overrun <==> !FrameInRange(f)
  {
    hide Handle, WholeRequest, Stored, CountOf, ReadRuns, WriteRuns, OutOfRange, CountFits, CountInRange, IsRead;
    OverrunIff(cfg, units, f);
    CountFitsIff(f[1], CountOf(f), Stored(cfg, f));
  }
}
