// ADU encoding and decoding for both transports, and the request PDU.
module Codec {
  import opened Bytes
  import opened Crc
  import opened Framing

  datatype Transport = Rtu | Tcp

  datatype EncodeParams =
    | FromParams(tid: bv16, unitId: bv8, funccode: bv8, addr: bv16, count: bv16, data: Option<Bytes>)
    | FromPdu(tid: bv16, unitId: bv8, pdu: Bytes)
    | FromException(tid: bv16, unitId: bv8, funccode: bv8, excCode: bv8)

  // The byte count of a write-multiple request, cast to uint8_t.
  function ByteCount(fc: bv8, count: bv16): bv8 {
    CastByte(if fc == 0x0F then (WordVal(count) + 7) / 8 else WordVal(count) * 2)
  }

  // What the encoder demands of the data it is handed.
  predicate Encodable(p: EncodeParams) {
    p.FromParams? ==>
      && (IsWriteSingle(p.funccode) && p.data.Some? ==> |p.data.value| >= 2)
      && (IsWriteMultiple(p.funccode) ==>
            p.data.Some? && |p.data.value| >= ByteVal(ByteCount(p.funccode, p.count)))
  }

  // And of the buffer: for a write-multiple request it sizes the ADU one byte short of what it stores. On RTU that byte
  // falls on the trailer; on TCP it falls behind the ADU, so that it must have a place there if anything is stored.
  predicate HasRoom(t: Transport, p: EncodeParams, dest: array?<bv8>, cap: nat) {
    t == Tcp && p.FromParams? && IsWriteMultiple(p.funccode) ==>
      var aduLen := PduOffset(Tcp) + 5 + ByteVal(ByteCount(p.funccode, p.count));
      dest != null && (cap < aduLen || aduLen < dest.Length)
  }

  function WriteHeader(fc: bv8, addr: bv16, count: bv16): Bytes {
    [fc, Hi(addr), Lo(addr), Hi(count), Lo(count), ByteCount(fc, count)]
  }

  // The PDU area of the ADU: what is left of the PDU once the trailer is in place.
  function Pdu(p: EncodeParams): Option<Bytes>
    requires Encodable(p)
  {
    match p
    case FromPdu(_, _, pdu) => Some(pdu)
    case FromException(_, _, fc, exc) => Some([fc | 0x80, exc])
    case FromParams(_, _, fc, addr, count, data) =>
      if IsRead(fc) then
        Some([fc, Hi(addr), Lo(addr), Hi(count), Lo(count)])
      else if IsWriteSingle(fc) then
        Some([fc, Hi(addr), Lo(addr)] + if data.Some? then data.value[..2] else [0, 0])
      else if IsWriteMultiple(fc) then
        var n := ByteVal(ByteCount(fc, count));
        Some((WriteHeader(fc, addr, count) + data.value[..n])[..5 + n])
      else
        None
  }

  function Header(t: Transport, p: EncodeParams, pduLen: nat): Bytes {
    match t
    case Rtu => [p.unitId]
    case Tcp => [Hi(p.tid), Lo(p.tid), 0, 0, Hi(CastWord(pduLen + 1)), Lo(CastWord(pduLen + 1)), p.unitId]
  }

  // The ADU around a PDU.
  function Wrap(t: Transport, p: EncodeParams, pdu: Bytes): Bytes {
    match t
    case Rtu => Seal(Header(t, p, |pdu|) + pdu)
    case Tcp => Header(t, p, |pdu|) + pdu
  }

  function Adu(t: Transport, p: EncodeParams): Option<Bytes>
    requires Encodable(p)
  {
    if Pdu(p).Some? then Some(Wrap(t, p, Pdu(p).value)) else None
  }

  function PduOffset(t: Transport): nat {
    if t == Rtu then 1 else 7
  }

  function TrailerLength(t: Transport): nat {
    if t == Rtu then 2 else 0
  }

  // ---------------------------------------------------------------------------------------------------------------
  // The encoder. A null buffer is allocated, a given one is filled if it is large enough.

  method AllocBuf(dest: array?<bv8>, cap: nat, aduLen: nat) returns (out: array?<bv8>)
    requires dest != null ==> cap <= dest.Length
    modifies dest
    ensures out == null <==> dest != null && aduLen > cap
    ensures out != null && dest != null ==> out == dest && aduLen <= cap
    ensures out != null && dest == null ==> fresh(out) && out.Length == aduLen
    ensures out == null ==> dest != null && dest[..] == old(dest[..])
  {
    if dest != null {
      if aduLen > cap {
        return null;
      }
      forall i | 0 <= i < aduLen {
        dest[i] := 0;
      }
      return dest;
    }
    out := new bv8[aduLen](_ => 0);
  }

  // Stores s at offset off: memcpy, or a run of byte stores.
  method Store(buf: array<bv8>, off: nat, s: Bytes)
    requires off + |s| <= buf.Length
    modifies buf
    ensures forall i :: 0 <= i < buf.Length ==> buf[i] == if off <= i < off + |s| then s[i - off] else old(buf[i])
  {
    forall i | 0 <= i < |s| {
      buf[off + i] := s[i];
    }
  }

  // The ADU length, or no room for it in the buffer that was given.
  predicate Fits(t: Transport, pduLen: nat, dest: array?<bv8>, cap: nat) {
    dest == null || PduOffset(t) + pduLen + TrailerLength(t) <= cap
  }

  method WriteMultiple(t: Transport, p: EncodeParams, dest: array?<bv8>, cap: nat)
    returns (out: array?<bv8>, outLen: nat)
    requires p.FromParams? && Encodable(p) && HasRoom(t, p, dest, cap)
    requires IsWriteMultiple(p.funccode) && !IsRead(p.funccode) && !IsWriteSingle(p.funccode)
    requires dest != null ==> cap <= dest.Length
    modifies dest
    ensures out != null <==> Pdu(p).Some? && Fits(t, |Pdu(p).value|, dest, cap)
    ensures out != null ==> outLen == PduOffset(t) + |Pdu(p).value| + TrailerLength(t) <= out.Length
    ensures out != null ==> out[PduOffset(t)..outLen - TrailerLength(t)] == Pdu(p).value
    ensures out != null && dest != null ==> out == dest && outLen <= cap
    ensures out != null && dest == null ==> fresh(out) && out.Length == outLen
    ensures out == null ==> outLen == 0 && (dest != null ==> dest[..] == old(dest[..]))
  {
    hide Hi, Lo, ByteCount, ByteVal, IsRead, IsWriteSingle, IsWriteMultiple;
    var off := PduOffset(t);
    outLen := 0;
    var n := ByteVal(ByteCount(p.funccode, p.count));
    out := AllocBuf(dest, cap, off + 5 + n + TrailerLength(t));
    if out == null { return; }
    outLen := off + 5 + n + TrailerLength(t);
    Store(out, off, WriteHeader(p.funccode, p.addr, p.count));
    Store(out, off + 6, p.data.value[..n]);
    ghost var all := WriteHeader(p.funccode, p.addr, p.count) + p.data.value[..n];
    assert Pdu(p).value == all[..5 + n];
    hide Pdu, WriteHeader;
    forall i | 0 <= i < 5 + n ensures out[off + i] == all[i] {
    }
    assert out[off..off + 5 + n] == all[..5 + n];
  }

  method WriteParams(t: Transport, p: EncodeParams, dest: array?<bv8>, cap: nat)
    returns (out: array?<bv8>, outLen: nat)
    requires p.FromParams? && Encodable(p) && HasRoom(t, p, dest, cap)
    requires dest != null ==> cap <= dest.Length
    modifies dest
    ensures out != null <==> Pdu(p).Some? && Fits(t, |Pdu(p).value|, dest, cap)
    ensures out != null ==> outLen == PduOffset(t) + |Pdu(p).value| + TrailerLength(t) <= out.Length
    ensures out != null ==> out[PduOffset(t)..outLen - TrailerLength(t)] == Pdu(p).value
    ensures out != null && dest != null ==> out == dest && outLen <= cap
    ensures out != null && dest == null ==> fresh(out) && out.Length == outLen
    ensures out == null ==> outLen == 0 && (dest != null ==> dest[..] == old(dest[..]))
  {
    hide Hi, Lo, ByteCount, ByteVal, IsRead, IsWriteSingle, IsWriteMultiple;
    out, outLen := null, 0;
    if IsRead(p.funccode) || IsWriteSingle(p.funccode) {
      FixedPdu(p);
      var fields := [p.funccode, Hi(p.addr), Lo(p.addr), FieldHigh(p), FieldLow(p)];
      assert Pdu(p) == Some(fields);
      hide Pdu, FieldHigh, FieldLow;
      var off := PduOffset(t);
      out := AllocBuf(dest, cap, off + |fields| + TrailerLength(t));
      if out == null { return; }
      outLen := off + |fields| + TrailerLength(t);
      Store(out, off, fields);
      assert out[off..off + |fields|] == fields;
    } else if IsWriteMultiple(p.funccode) {
      out, outLen := WriteMultiple(t, p, dest, cap);
    }
  }

  // The last two bytes of an FC 01-06 request: the count, or the value to write.
  function FieldHigh(p: EncodeParams): bv8
    requires p.FromParams? && Encodable(p)
  {
    if IsRead(p.funccode) then Hi(p.count)
    else if IsWriteSingle(p.funccode) && p.data.Some? then p.data.value[0] else 0
  }

  function FieldLow(p: EncodeParams): bv8
    requires p.FromParams? && Encodable(p)
  {
    if IsRead(p.funccode) then Lo(p.count)
    else if IsWriteSingle(p.funccode) && p.data.Some? then p.data.value[1] else 0
  }

  lemma FixedPdu(p: EncodeParams)
    requires p.FromParams? && Encodable(p) && (IsRead(p.funccode) || IsWriteSingle(p.funccode))
    ensures Pdu(p) == Some([p.funccode, Hi(p.addr), Lo(p.addr), FieldHigh(p), FieldLow(p)])
  {
    hide Hi, Lo, ByteCount, ByteVal, IsRead, IsWriteSingle, IsWriteMultiple;
    if !IsRead(p.funccode) {
      var tail := if p.data.Some? then p.data.value[..2] else [0, 0];
      assert tail == [FieldHigh(p), FieldLow(p)];
      assert [p.funccode, Hi(p.addr), Lo(p.addr)] + tail
          == [p.funccode, Hi(p.addr), Lo(p.addr), FieldHigh(p), FieldLow(p)];
    }
  }

  method WritePdu(t: Transport, p: EncodeParams, dest: array?<bv8>, cap: nat)
    returns (out: array?<bv8>, outLen: nat)
    requires Encodable(p) && HasRoom(t, p, dest, cap)
    requires dest != null ==> cap <= dest.Length
    modifies dest
    ensures out != null <==> Pdu(p).Some? && Fits(t, |Pdu(p).value|, dest, cap)
    ensures out != null ==> outLen == PduOffset(t) + |Pdu(p).value| + TrailerLength(t) <= out.Length
    ensures out != null ==> out[PduOffset(t)..outLen - TrailerLength(t)] == Pdu(p).value
    ensures out != null && dest != null ==> out == dest && outLen <= cap
    ensures out != null && dest == null ==> fresh(out) && out.Length == outLen
    ensures out == null ==> outLen == 0 && (dest != null ==> dest[..] == old(dest[..]))
  {
    if p.FromParams? {
      hide Pdu, Encodable, HasRoom;
      out, outLen := WriteParams(t, p, dest, cap);
      return;
    }
    hide IsRead, IsWriteSingle, IsWriteMultiple;
    var off, pduLen := PduOffset(t), if p.FromPdu? then |p.pdu| else 2;
    outLen := 0;
    out := AllocBuf(dest, cap, off + pduLen + TrailerLength(t));
    if out == null { return; }
    outLen := off + pduLen + TrailerLength(t);
    if p.FromPdu? {
      Store(out, off, p.pdu);
      assert forall k :: 0 <= k < pduLen ==> out[off + k] == p.pdu[k];
      assert out[off..off + pduLen] == p.pdu;
    } else {
      out[off] := p.funccode | 0x80;
      out[off + 1] := p.excCode;
      assert out[off..off + 2] == [out[off], out[off + 1]];
    }
  }

  // The two frame headers, written around a PDU that is in place.

  method SealRtu(out: array<bv8>, outLen: nat, p: EncodeParams)
    requires 3 <= outLen <= out.Length
    modifies out
    ensures out[..outLen] == Wrap(Rtu, p, old(out[1..outLen - 2]))
  {
    hide Crc16, Hi, Lo;
    ghost var pdu := out[1..outLen - 2];
    out[0] := p.unitId;
    var crc := TableCrc(out, outLen - 2);
    assert out[..outLen - 2] == [p.unitId] + pdu;
    out[outLen - 2] := Lo(crc);
    out[outLen - 1] := Hi(crc);
    assert out[..outLen - 2] == [p.unitId] + pdu;
    assert out[..outLen] == out[..outLen - 2] + [out[outLen - 2], out[outLen - 1]];
  }

  method SealTcp(out: array<bv8>, outLen: nat, p: EncodeParams)
    requires 7 <= outLen <= out.Length
    modifies out
    ensures out[..outLen] == Wrap(Tcp, p, old(out[7..outLen]))
  {
    hide Hi, Lo, CastWord;
    var mbapLen := CastWord(outLen - 6);
    Store(out, 0, [Hi(p.tid), Lo(p.tid), 0, 0, Hi(mbapLen), Lo(mbapLen)]);
    out[6] := p.unitId;
    assert out[7..outLen] == old(out[7..outLen]);
    assert out[..7] == Header(Tcp, p, outLen - 7);
    assert out[..outLen] == out[..7] + out[7..outLen];
  }

  method Encode(t: Transport, p: EncodeParams, dest: array?<bv8>, cap: nat)
    returns (out: array?<bv8>, outLen: nat)
    requires Encodable(p) && HasRoom(t, p, dest, cap)
    requires dest != null ==> cap <= dest.Length
    modifies dest
    ensures out != null <==> Adu(t, p).Some? && (dest == null || |Adu(t, p).value| <= cap)
    ensures out == null ==> outLen == 0 && (dest != null ==> dest[..] == old(dest[..]))
    ensures out != null ==> outLen <= out.Length && out[..outLen] == Adu(t, p).value
    ensures out != null && dest != null ==> out == dest && outLen <= cap
    ensures out != null && dest == null ==> fresh(out) && out.Length == outLen
  {
    hide Pdu, Crc16, Hi, Lo, CastWord, Encodable, HasRoom;
    out, outLen := WritePdu(t, p, dest, cap);
    if out == null { return; }
    if t == Rtu {
      SealRtu(out, outLen, p);
    } else {
      SealTcp(out, outLen, p);
    }
  }

  // ---------------------------------------------------------------------------------------------------------------
  // The decoder.

  function Decode(t: Transport, frame: Bytes): Option<(bv8, Bytes)> {
    match t
    case Rtu =>
      if |frame| < 4 || !ValidFrame(frame) then None else Some((frame[0], frame[1..|frame| - 2]))
    case Tcp =>
      if |frame| < 8 then None
      else
        var mbapLen := WordVal(Word(frame[4], frame[5]));
        if mbapLen < 1 || |frame| < mbapLen + 6 then None else Some((frame[6], frame[7..6 + mbapLen]))
  }

  // Copies n bytes from offset off of the frame: memcpy.
  method CopyPdu(frame: array<bv8>, off: nat, n: nat, pduOut: array<bv8>)
    requires off + n <= frame.Length && n <= pduOut.Length && frame != pduOut
    modifies pduOut
    ensures pduOut[..n] == frame[off..off + n] && pduOut[n..] == old(pduOut[n..])
  {
    forall i | 0 <= i < n {
      pduOut[i] := frame[off + i];
    }
  }

  // Nothing compares the PDU with the array that it is copied to: `overrun` is set instead of a copy that does not fit.
  method DecodeFrame(t: Transport, frame: array<bv8>, len: nat, pduOut: array<bv8>)
    returns (ok: bool, overrun: bool, unitId: bv8, pduLen: nat)
    requires len <= frame.Length && frame != pduOut
    modifies pduOut
    ensures ok || overrun <==> Decode(t, frame[..len]).Some?
    ensures overrun <==> Decode(t, frame[..len]).Some? && |Decode(t, frame[..len]).value.1| > pduOut.Length
    ensures ok ==> !overrun && pduLen <= pduOut.Length && Decode(t, frame[..len]) == Some((unitId, pduOut[..pduLen]))
    ensures ok ==> pduOut[pduLen..] == old(pduOut[pduLen..])
    ensures !ok ==> pduOut[..] == old(pduOut[..])
  {
    hide Crc16, Word, WordVal;
    ok, overrun, unitId, pduLen := false, false, 0, 0;
    match t
    case Rtu =>
      if len < 4 { return; }
      var crcCalc := TableCrc(frame, len - 2);
      assert frame[..len][..len - 2] == frame[..len - 2];
      if crcCalc != Word(frame[len - 1], frame[len - 2]) { return; }
      unitId, pduLen := frame[0], len - 3;
      if pduLen > pduOut.Length { return false, true, unitId, pduLen; }
      ok := true;
      CopyPdu(frame, 1, pduLen, pduOut);
      assert frame[..len][1..len - 2] == frame[1..len - 2] == pduOut[..pduLen];
    case Tcp =>
      if len < 8 { return; }
      var mbapLen := WordVal(Word(frame[4], frame[5]));
      if mbapLen < 1 || len < mbapLen + 6 { return; }
      unitId, pduLen := frame[6], mbapLen - 1;
      if pduLen > pduOut.Length { return false, true, unitId, pduLen; }
      ok := true;
      CopyPdu(frame, 7, pduLen, pduOut);
      assert frame[..len][7..6 + mbapLen] == frame[7..6 + mbapLen] == pduOut[..pduLen];
  }

  // Decoding undoes encoding for exactly the PDUs that the transport can carry.
  lemma RtuRoundTrip(p: EncodeParams, pdu: Bytes)
    ensures Decode(Rtu, Wrap(Rtu, p, pdu)) == Some((p.unitId, pdu)) <==> |pdu| >= 1
  {
    hide Crc16, Lo, Hi, Word;
    var body := [p.unitId] + pdu;
    var frame := Seal(body);
    assert frame[..|frame| - 2] == body;
    ValidIffSealed(frame);
    assert frame[1..|frame| - 2] == pdu;
  }

  lemma TcpRoundTrip(p: EncodeParams, pdu: Bytes, extra: Bytes)
    ensures Decode(Tcp, Wrap(Tcp, p, pdu) + extra) == Some((p.unitId, pdu))
            <==> |pdu| + 1 <= 0xFFFF && |pdu| + |extra| >= 1
  {
    hide Lo, Hi, Word, WordVal, CastWord;
    var frame := Wrap(Tcp, p, pdu) + extra;
    var w := CastWord(|pdu| + 1);
    WordOfBytes(w);
    if |pdu| + 1 <= 0xFFFF {
      WordOfVal(|pdu| + 1);
      assert frame[7..6 + (|pdu| + 1)] == pdu;
    } else if Decode(Tcp, frame).Some? {
      assert |Decode(Tcp, frame).value.1| == WordVal(w) - 1 < |pdu|;
    }
  }

  // The MBAP header: transaction, protocol 0, the length of what follows the length field - exactly when it fits - and
  // the unit.
  lemma TcpHeaderFields(p: EncodeParams, pdu: Bytes)
    ensures var adu := Wrap(Tcp, p, pdu);
            && |adu| == 7 + |pdu| && Word(adu[0], adu[1]) == p.tid && adu[2] == adu[3] == 0 && adu[6] == p.unitId
            && (WordVal(Word(adu[4], adu[5])) == |adu| - 6 <==> |pdu| + 1 <= 0xFFFF)
            && adu[7..] == pdu
  {
    hide Lo, Hi, Word, WordVal, CastWord;
    WordOfBytes(p.tid);
    WordOfBytes(CastWord(|pdu| + 1));
    if |pdu| + 1 <= 0xFFFF {
      WordOfVal(|pdu| + 1);
    }
  }

  // And encoding undoes decoding: an RTU frame is determined by the unit and PDU it carries.
  lemma RtuDecodeInjective(frame: Bytes, p: EncodeParams)
    requires Decode(Rtu, frame).Some? && p.unitId == frame[0]
    ensures frame == Wrap(Rtu, p, Decode(Rtu, frame).value.1)
  {
    ValidIffSealed(frame);
    assert [frame[0]] + frame[1..|frame| - 2] == frame[..|frame| - 2];
  }

  // ---------------------------------------------------------------------------------------------------------------
  // Requests, as the server reads them.

  datatype Request = Request(fc: bv8, addr: bv16, count: bv16, data: Option<Bytes>)

  // The fields of a request PDU of length len, which lies at the start of a larger buffer. The data of a write request
  // is a pointer into that buffer; nothing compares it with len.
  function ParsePdu(buf: Bytes, len: nat): Option<Request>
    requires 1 <= len <= |buf|
  {
    var fc := buf[0];
    if IsRead(fc) then
      if len < 5 then None else Some(Request(fc, Word(buf[1], buf[2]), Word(buf[3], buf[4]), None))
    else if IsWriteSingle(fc) then
      if len < 5 then None else Some(Request(fc, Word(buf[1], buf[2]), 1, Some(buf[3..])))
    else if IsWriteMultiple(fc) then
      if len < 6 then None else Some(Request(fc, Word(buf[1], buf[2]), Word(buf[3], buf[4]), Some(buf[6..])))
    else None
  }

  // What the server reads out of an encoded FC 01-06 request is what the client put in.
  lemma RequestRoundTrip(p: EncodeParams, buf: Bytes)
    requires p.FromParams? && Encodable(p) && (IsRead(p.funccode) || IsWriteSingle(p.funccode))
    requires Pdu(p).value <= buf
    ensures Adu(Rtu, p).Some? && WholeRequest(Adu(Rtu, p).value) && |Adu(Rtu, p).value| == 8
    ensures Decode(Rtu, Adu(Rtu, p).value) == Some((p.unitId, Pdu(p).value))
    ensures ParsePdu(buf, |Pdu(p).value|) == Some(
              if IsRead(p.funccode) then Request(p.funccode, p.addr, p.count, None)
              else
                var value := if p.data.Some? then p.data.value[..2] else [0, 0];
                Request(p.funccode, p.addr, 1, Some(value + buf[5..])))
  {
    FunctionsAreNotExceptions(p.funccode);
    ReadsAreNotWrites(p.funccode);
    WordOfBytes(p.addr);
    WordOfBytes(p.count);
    FixedPdu(p);
    hide Lo, Hi, Word, Crc16, IsRead, IsWriteSingle, IsWriteMultiple, IsException, Pdu;
    var pdu := Pdu(p).value;
    RtuRoundTrip(p, pdu);
    var frame := Adu(Rtu, p).value;
    assert frame[..8] == frame && frame[1] == p.funccode;
    assert forall i :: 0 <= i < 5 ==> buf[i] == pdu[i];
    assert buf[3..] == [buf[3], buf[4]] + buf[5..];
    if IsWriteSingle(p.funccode) {
      assert [FieldHigh(p), FieldLow(p)] == if p.data.Some? then p.data.value[..2] else [0, 0];
    }
  }

  // Which PDUs the server takes for requests.
  lemma ParsedIff(buf: Bytes, len: nat)
    requires 1 <= len <= |buf|
    ensures ParsePdu(buf, len).Some? <==>
            (buf[0] in {0x01, 0x02, 0x03, 0x04, 0x05, 0x06} && len >= 5) || (buf[0] in {0x0F, 0x10} && len >= 6)
  {
    hide Word;
  }

  // A multiple write from parameters, field by field: all but the last byte of its data.
  lemma WriteMultipleFields(p: EncodeParams)
    requires p.FromParams? && Encodable(p) && (p.funccode == 0x0F || p.funccode == 0x10)
    ensures Pdu(p).Some?
    ensures var pdu := Pdu(p).value;
            var n := (if p.funccode == 0x0F then (WordVal(p.count) + 7) / 8 else 2 * WordVal(p.count)) % 256;
            && |pdu| == 5 + n && pdu[0] == p.funccode && n <= |p.data.value|
            && Word(pdu[1], pdu[2]) == p.addr && Word(pdu[3], pdu[4]) == p.count
            && (n > 0 ==> ByteVal(pdu[5]) == n && pdu[6..] == p.data.value[..n - 1])
  {
    WordOfBytes(p.addr);
    WordOfBytes(p.count);
    assert IsWriteMultiple(p.funccode);
    ByteCountIs(p.funccode, p.count);
    ReadsAreNotWrites(p.funccode);
    hide Hi, Lo, Word, WordVal, ByteVal, ByteCount, IsRead, IsWriteSingle, IsWriteMultiple;
    CutShort(WriteHeader(p.funccode, p.addr, p.count), p.data.value, ByteVal(ByteCount(p.funccode, p.count)));
  }

  lemma CutShort(header: Bytes, data: Bytes, n: nat)
    requires |header| == 6 && n <= |data|
    ensures var pdu := (header + data[..n])[..5 + n];
            && (forall k :: 0 <= k < 5 || (k == 5 && n > 0) ==> pdu[k] == header[k])
            && (n > 0 ==> pdu[6..] == data[..n - 1])
  {
  }

  lemma ByteCountIs(fc: bv8, count: bv16)
    ensures ByteVal(ByteCount(fc, count)) == (if fc == 0x0F then (WordVal(count) + 7) / 8 else 2 * WordVal(count)) % 256
  {
    hide WordVal, ByteVal, ByteOf;
    ByteOfVal((if fc == 0x0F then (WordVal(count) + 7) / 8 else 2 * WordVal(count)) % 256);
  }

  // An exception, on both transports.
  lemma ExceptionAdu(tid: bv16, unitId: bv8, fc: bv8, exc: bv8)
    ensures var p := FromException(tid, unitId, fc, exc);
            && Adu(Rtu, p) == Some(Seal([unitId, fc | 0x80, exc]))
            && Adu(Tcp, p) == Some([Hi(tid), Lo(tid), 0, 0, 0, 3, unitId, fc | 0x80, exc])
  {
    assert ByteOf(0) == 0 && ByteOf(3) == 3 && CastWord(3) == Word(0, 3);
    BytesOfWord(0, 3);
    hide Crc16, Hi, Lo, Word, CastWord;
    assert [unitId] + [fc | 0x80, exc] == [unitId, fc | 0x80, exc];
    assert [Hi(tid), Lo(tid), 0, 0, 0, 3, unitId] + [fc | 0x80, exc]
        == [Hi(tid), Lo(tid), 0, 0, 0, 3, unitId, fc | 0x80, exc];
  }

  // The functions that parameters can be encoded for.
  lemma EncodedIff(p: EncodeParams)
    requires p.FromParams? && Encodable(p)
    ensures Pdu(p).Some? <==> p.funccode in {0x01, 0x02, 0x03, 0x04, 0x05, 0x06, 0x0F, 0x10}
  {
    hide Hi, Lo, ByteCount, ByteVal;
  }

  lemma ReadsAreNotWrites(fc: bv8)
    ensures !(IsRead(fc) && IsWriteSingle(fc)) && !(IsRead(fc) && IsWriteMultiple(fc))
    ensures !(IsWriteSingle(fc) && IsWriteMultiple(fc))
  {
  }

  // A write-multiple request built from parameters is never delimited: the encoder sizes it one byte short, so the
  // server goes on waiting for a byte that was not sent. The requests that arrive are exactly FC 01-06.
  lemma RequestArrivesIff(p: EncodeParams)
    requires p.FromParams? && Encodable(p) && Adu(Rtu, p).Some?
    ensures WholeRequest(Adu(Rtu, p).value) <==> IsRead(p.funccode) || IsWriteSingle(p.funccode)
    ensures !WholeRequest(Adu(Rtu, p).value) ==> ParseRequest(Adu(Rtu, p).value) == NeedMore
  {
    hide Lo, Hi, Word, Crc16, IsException, IsRead, IsWriteSingle, IsWriteMultiple, ByteCount, ByteVal, ValidFrame;
    if IsRead(p.funccode) || IsWriteSingle(p.funccode) {
      RequestRoundTrip(p, Pdu(p).value);
    } else {
      FunctionsAreNotExceptions(p.funccode);
      var n := ByteVal(ByteCount(p.funccode, p.count));
      var frame := Adu(Rtu, p).value;
      var pdu := Pdu(p).value;
      assert |frame| == 8 + n && frame[1] == pdu[0] == p.funccode;
      if n >= 1 {
        assert frame[6] == pdu[5] == ByteCount(p.funccode, p.count);
      }
    }
  }
}
