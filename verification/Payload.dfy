// What a PDU carries: register and coil values, packed and unpacked.
module Payload {
  import opened Bytes
  import opened Framing

  // The register arrays of the server, and the array that packed registers go through.
  const REGS := 256
  const RAW_BYTES := 512

  // ---------------------------------------------------------------------------------------------------------------
  // Read responses.

  // Registers in big-endian order.
  function PackRegs(regs: seq<bv16>): (b: Bytes)
    ensures |b| == 2 * |regs|
  {
    if regs == [] then [] else PackRegs(regs[..|regs| - 1]) + [Hi(regs[|regs| - 1]), Lo(regs[|regs| - 1])]
  }

  function UnpackRegs(b: Bytes): (regs: seq<bv16>)
    requires |b| % 2 == 0
    ensures |regs| == |b| / 2
  {
    if b == [] then [] else UnpackRegs(b[..|b| - 2]) + [Word(b[|b| - 2], b[|b| - 1])]
  }

  lemma UnpackSnoc(b: Bytes, i: nat)
    requires 2 * i + 2 <= |b|
    ensures UnpackRegs(b[..2 * i + 2]) == UnpackRegs(b[..2 * i]) + [Word(b[2 * i], b[2 * i + 1])]
  {
    hide Word;
    var c := b[..2 * i + 2];
    assert c[..|c| - 2] == b[..2 * i];
  }

  lemma {:induction false} UnpackAt(b: Bytes, i: nat)
    requires |b| % 2 == 0 && 2 * i + 1 < |b|
    ensures UnpackRegs(b)[i] == Word(b[2 * i], b[2 * i + 1])
    decreases |b|
  {
    hide Word;
    if 2 * i + 2 < |b| {
      UnpackAt(b[..|b| - 2], i);
    }
  }

  lemma PackSnoc(regs: seq<bv16>, i: nat)
    requires i < |regs|
    ensures PackRegs(regs[..i + 1]) == PackRegs(regs[..i]) + [Hi(regs[i]), Lo(regs[i])]
  {
    hide Hi, Lo;
    assert regs[..i + 1][..i] == regs[..i];
  }

  // The low byte of each value, and the bytes read back as values: the coil functions.
  function LowBytes(regs: seq<bv16>): (b: Bytes)
    ensures |b| == |regs|
  {
    seq(|regs|, i requires 0 <= i < |regs| => Lo(regs[i]))
  }

  function Widen(b: Bytes): seq<bv16> {
    seq(|b|, i requires 0 <= i < |b| => ToWord(b[i]))
  }

  function ToWord(b: bv8): bv16 {
    b as bv16
  }

  predicate IsCoilRead(fc: bv8) {
    fc == 0x01 || fc == 0x02
  }

  // The registers that the server takes from its array for a read of count items, and the bytes they make.
  function Wanted(fc: bv8, count: nat): nat {
    if IsCoilRead(fc) then (count + 7) / 8 else count
  }

  function RawLength(fc: bv8, count: nat): nat {
    if IsCoilRead(fc) then (count + 7) / 8 else 2 * count
  }

  function ReadData(fc: bv8, regs: seq<bv16>): (b: Bytes)
    ensures |b| == if IsCoilRead(fc) then |regs| else 2 * |regs|
  {
    if IsCoilRead(fc) then LowBytes(regs) else PackRegs(regs)
  }

  // Byte for byte: the low byte of each register for coils, both bytes of each, high byte first, for registers.
  lemma ReadDataBytes(fc: bv8, regs: seq<bv16>, i: nat)
    requires i < |regs|
    ensures fc == 0x01 || fc == 0x02 ==>
            |ReadData(fc, regs)| == |regs| && ReadData(fc, regs)[i] as bv16 == regs[i] & 0xFF
    ensures fc != 0x01 && fc != 0x02 ==>
            && |ReadData(fc, regs)| == 2 * |regs|
            && ReadData(fc, regs)[2 * i] as bv16 == regs[i] >> 8
            && ReadData(fc, regs)[2 * i + 1] as bv16 == regs[i] & 0xFF
  {
    BytesByValue(regs[i]);
    hide Hi, Lo;
    PackAt(regs, i);
  }

  lemma BytesByValue(w: bv16)
    ensures Hi(w) as bv16 == w >> 8 && Lo(w) as bv16 == w & 0xFF
  {
  }

  lemma {:induction false} PackAt(regs: seq<bv16>, i: nat)
    requires i < |regs|
    ensures PackRegs(regs)[2 * i] == Hi(regs[i]) && PackRegs(regs)[2 * i + 1] == Lo(regs[i])
  {
    hide Hi, Lo;
    if i < |regs| - 1 {
      PackAt(regs[..|regs| - 1], i);
    }
  }

  lemma {:induction false} PackPrefix(regs: seq<bv16>, m: nat)
    requires m <= |regs|
    ensures PackRegs(regs)[..2 * m] == PackRegs(regs[..m])
  {
    hide Hi, Lo;
    if m == |regs| {
      assert regs[..m] == regs && PackRegs(regs)[..2 * m] == PackRegs(regs);
    } else {
      var n := |regs| - 1;
      PackPrefix(regs[..n], m);
      assert regs[..n][..m] == regs[..m];
      assert PackRegs(regs)[..2 * m] == PackRegs(regs[..n])[..2 * m];
    }
  }

  method PackReadData(fc: bv8, count: nat, regs: array<bv16>, raw: array<bv8>) returns (rawLen: nat)
    requires Wanted(fc, count) <= regs.Length && RawLength(fc, count) <= raw.Length
    modifies raw
    ensures rawLen == RawLength(fc, count) && raw[..rawLen] == ReadData(fc, regs[..Wanted(fc, count)])
  {
    hide Hi, Lo, IsCoilRead, PackRegs;
    if IsCoilRead(fc) {
      rawLen := (count + 7) / 8;
      for i := 0 to rawLen
        invariant forall k :: 0 <= k < i ==> raw[k] == Lo(regs[k])
      {
        raw[i] := Lo(regs[i]);
      }
    } else {
      rawLen := count * 2;
      PackNothing(regs[..0]);
      for i := 0 to count
        invariant raw[..2 * i] == PackRegs(regs[..i])
      {
        PackSnoc(regs[..], i);
        raw[i * 2] := Hi(regs[i]);
        raw[i * 2 + 1] := Lo(regs[i]);
        assert regs[..][..i] == regs[..i] && regs[..][..i + 1] == regs[..i + 1];
        assert raw[..2 * (i + 1)] == raw[..2 * i] + [Hi(regs[i]), Lo(regs[i])];
      }
    }
  }

  lemma PackNothing(regs: seq<bv16>)
    requires regs == []
    ensures PackRegs(regs) == []
  {
  }

  // The response PDU. The byte count is a uint8_t: it wraps, and only that many bytes follow.
  function ReadPdu(fc: bv8, data: Bytes): Bytes {
    [fc, CastByte(|data|)] + data[..|data| % 256]
  }

  method BuildReadPdu(pdu: array<bv8>, fc: bv8, data: array<bv8>, dataLen: nat) returns (n: nat)
    requires pdu != data && dataLen <= data.Length && 2 + dataLen % 256 <= pdu.Length
    modifies pdu
    ensures n == 2 + dataLen % 256 && pdu[..n] == ReadPdu(fc, data[..dataLen])
  {
    hide ByteOf;
    var byteCount := dataLen % 256;
    pdu[0] := fc;
    pdu[1] := CastByte(dataLen);
    forall i | 0 <= i < byteCount {
      pdu[2 + i] := data[i];
    }
    n := 2 + byteCount;
    assert data[..dataLen][..byteCount] == data[..byteCount] == pdu[2..n];
    assert pdu[..n] == [pdu[0], pdu[1]] + pdu[2..n];
  }

  datatype ReadResult = Registers(regs: seq<bv16>) | ReadFailed(code: int)

  // The function code of a response that reports an exception to a request with function code fc.
  predicate IsExceptionTo(response: bv8, fc: bv8) {
    IsException(response) && response & 0x7F == fc
  }

  // What the client makes of a response to a request with function code fc.
  function ParseReadPdu(pdu: Bytes, fc: bv8, maxRegs: nat): ReadResult
    requires |pdu| >= 2
  {
    var n := ByteVal(pdu[1]);
    if IsExceptionTo(pdu[0], fc) then ReadFailed(0 - n - 100)
    else if pdu[0] != fc || !IsRead(fc) || 2 + n > |pdu| then ReadFailed(-1)
    else if IsCoilRead(fc) then
      if n > maxRegs then ReadFailed(-1) else Registers(Widen(pdu[2..2 + n]))
    else
      if n % 2 != 0 || n / 2 > maxRegs then ReadFailed(-1) else Registers(UnpackRegs(pdu[2..2 + n]))
  }

  method ParseRead(pdu: array<bv8>, len: nat, fc: bv8, regs: array<bv16>) returns (n: int)
    requires 2 <= len <= pdu.Length
    modifies regs
    ensures 0 <= n <= regs.Length || n < 0
    ensures n >= 0 <==> ParseReadPdu(pdu[..len], fc, regs.Length).Registers?
    ensures n >= 0 ==> ParseReadPdu(pdu[..len], fc, regs.Length) == Registers(regs[..n])
    ensures n < 0 ==> ParseReadPdu(pdu[..len], fc, regs.Length) == ReadFailed(n)
  {
    hide IsCoilRead, IsRead, IsExceptionTo, ByteVal;
    ghost var r := ParseReadPdu(pdu[..len], fc, regs.Length);
    if IsExceptionTo(pdu[0], fc) {
      return 0 - ByteVal(pdu[1]) - 100;
    }
    var byteCount := ByteVal(pdu[1]);
    if pdu[0] != fc || !IsRead(fc) || 2 + byteCount > len {
      return -1;
    }
    assert pdu[..len][2..2 + byteCount] == pdu[2..2 + byteCount];
    if IsCoilRead(fc) {
      if byteCount > regs.Length {
        return -1;
      }
      n := byteCount;
      WidenInto(pdu, n, regs);
    } else {
      if byteCount % 2 != 0 || byteCount / 2 > regs.Length {
        return -1;
      }
      n := byteCount / 2;
      UnpackInto(pdu, n, regs);
    }
  }

  method WidenInto(pdu: array<bv8>, n: nat, regs: array<bv16>)
    requires 2 + n <= pdu.Length && n <= regs.Length
    modifies regs
    ensures regs[..n] == Widen(pdu[2..2 + n])
  {
    hide ToWord;
    for i := 0 to n
      invariant forall k :: 0 <= k < i ==> regs[k] == ToWord(pdu[2 + k])
    {
      regs[i] := ToWord(pdu[2 + i]);
    }
  }

  method UnpackInto(pdu: array<bv8>, n: nat, regs: array<bv16>)
    requires 2 + 2 * n <= pdu.Length && n <= regs.Length
    modifies regs
    ensures regs[..n] == UnpackRegs(pdu[2..2 + 2 * n])
  {
    hide Word, UnpackRegs;
    ghost var data := pdu[2..2 + 2 * n];
    UnpackNothing(data[..0]);
    for i := 0 to n
      invariant regs[..i] == UnpackRegs(data[..2 * i])
    {
      UnpackSnoc(data, i);
      regs[i] := Word(pdu[2 + i * 2], pdu[2 + i * 2 + 1]);
      assert regs[..i + 1] == regs[..i] + [regs[i]];
    }
    assert data[..2 * n] == data;
  }

  lemma UnpackNothing(b: Bytes)
    requires b == []
    ensures UnpackRegs(b) == []
  {
  }

  lemma {:induction false} UnpackPack(regs: seq<bv16>)
    ensures UnpackRegs(PackRegs(regs)) == regs
  {
    hide Hi, Lo, Word;
    if regs != [] {
      var n := |regs| - 1;
      UnpackPack(regs[..n]);
      WordOfBytes(regs[n]);
      var b := PackRegs(regs);
      assert b[..|b| - 2] == PackRegs(regs[..n]);
      assert b[|b| - 2] == Hi(regs[n]) && b[|b| - 1] == Lo(regs[n]);
    }
  }

  // The byte count of a read response, and the data that follows it.
  lemma ReadPduFields(fc: bv8, data: Bytes)
    ensures var pdu, n := ReadPdu(fc, data), |data| % 256;
            |pdu| == 2 + n && pdu[0] == fc && ByteVal(pdu[1]) == n && pdu[2..2 + n] == data[..n]
  {
    hide ByteVal, ByteOf;
    ByteOfVal(|data| % 256);
  }

  lemma ReadPduLength(fc: bv8, count: nat, regs: seq<bv16>)
    requires |regs| == Wanted(fc, count)
    ensures |ReadPdu(fc, ReadData(fc, regs))| == 2 + RawLength(fc, count) % 256
  {
    hide IsCoilRead;
  }

  // What the client reads out of a response that the server built from `data`.
  lemma ParseReadResponse(fc: bv8, data: Bytes)
    requires IsRead(fc)
    ensures ParseReadPdu(ReadPdu(fc, data), fc, 128) ==
            var n := |data| % 256;
            if IsCoilRead(fc) then
              if n > 128 then ReadFailed(-1) else Registers(Widen(data[..n]))
            else if n % 2 != 0 || n / 2 > 128 then ReadFailed(-1)
            else Registers(UnpackRegs(data[..n]))
  {
    FunctionsAreNotExceptions(fc);
    assert !IsExceptionTo(fc, fc);
    hide IsRead, IsCoilRead, IsExceptionTo, ByteVal, UnpackRegs, ReadPdu;
    ReadPduFields(fc, data);
  }

  // Register reads: the client gets the registers back exactly when the byte count did not wrap.
  lemma RegisterRoundTrip(fc: bv8, regs: seq<bv16>)
    requires fc == 0x03 || fc == 0x04
    ensures ParseReadPdu(ReadPdu(fc, ReadData(fc, regs)), fc, 128) == Registers(regs) <==> |regs| <= 127
  {
    assert IsRead(fc) && !IsCoilRead(fc);
    hide IsRead, IsCoilRead, ReadPdu, ParseReadPdu, PackRegs, UnpackRegs;
    var data := PackRegs(regs);
    var n := |data| % 256;
    ByteCountOf(|regs|);
    ParseReadResponse(fc, data);
    UnpackPack(regs);
    if |regs| <= 127 {
      assert data[..n] == data;
    } else {
      assert n % 2 == 0 ==> |UnpackRegs(data[..n])| < |regs|;
    }
  }

  lemma ByteCountOf(k: nat)
    ensures k <= 127 ==> 2 * k % 256 == 2 * k && 2 * k % 2 == 0 && 2 * k / 2 == k
    ensures k > 127 ==> 2 * k % 256 / 2 < k
  {
  }

  // Coil reads: the client gets the low byte of each register that the count takes, exactly when its 128 registers hold
  // them.
  lemma CoilRoundTrip(fc: bv8, count: nat, regs: seq<bv16>)
    requires IsCoilRead(fc) && |regs| == Wanted(fc, count)
    ensures ParseReadPdu(ReadPdu(fc, ReadData(fc, regs)), fc, 128) == Registers(Widen(LowBytes(regs)))
            <==> count <= 1024
    ensures |regs| == (count + 7) / 8 == |Widen(LowBytes(regs))|
    ensures forall i :: 0 <= i < |regs| ==> Widen(LowBytes(regs))[i] == regs[i] & 0xFF
  {
    forall i | 0 <= i < |regs| ensures Widen(LowBytes(regs))[i] == regs[i] & 0xFF {
      BytesByValue(regs[i]);
    }
    hide Lo, ToWord, ReadPdu, ParseReadPdu;
    var data := LowBytes(regs);
    ParseReadResponse(fc, data);
    if count <= 1024 {
      assert data[..|data|] == data;
    }
  }

  // An exception response is a failure to the client that asked, whatever code it carries.
  lemma ExceptionIsFailure(fc: bv8, exc: bv8)
    requires IsRead(fc)
    ensures ParseReadPdu([fc | 0x80, exc], fc, 128) == ReadFailed(0 - ByteVal(exc) - 100)
  {
    ExceptionBits(fc);
  }

  lemma ExceptionBits(fc: bv8)
    ensures IsException(fc | 0x80)
    ensures !IsException(fc) ==> (fc | 0x80) & 0x7F == fc
  {
    assert (fc | 0x80) & 0x80 == 0x80;
    if fc & 0x80 == 0 {
      assert (fc | 0x80) & 0x7F == fc;
    }
  }

  // ---------------------------------------------------------------------------------------------------------------
  // Bits.

  function Mask8(k: nat): bv8
    requires k < 8
  {
    (1 as bv8) << k
  }

  function Mask16(k: nat): bv16
    requires k < 16
  {
    (1 as bv16) << k
  }

  predicate Meets8(b: bv8, m: bv8) {
    b & m != 0
  }

  predicate Meets16(w: bv16, m: bv16) {
    w & m != 0
  }

  predicate Bit8(b: bv8, k: nat)
    requires k < 8
  {
    Meets8(b, Mask8(k))
  }

  predicate Bit16(w: bv16, k: nat)
    requires k < 16
  {
    Meets16(w, Mask16(k))
  }

  lemma SetBit8(b: bv8, k: nat, j: nat)
    requires k < 8 && j < 8
    ensures Bit8(b | Mask8(k), j) <==> j == k || Bit8(b, j)
  {
    hide Mask8, Meets8;
    OneHot8(k, j);
    OrAnd8(b, Mask8(k), Mask8(j));
  }

  lemma OneHot8(k: nat, j: nat)
    requires k < 8 && j < 8
    ensures Meets8(Mask8(k), Mask8(j)) <==> j == k
  {
    assert ((1 as bv8) << k) & ((1 as bv8) << j) != 0 <==> j == k;
  }

  lemma OrAnd8(b: bv8, m: bv8, n: bv8)
    ensures Meets8(b | m, n) <==> Meets8(b, n) || Meets8(m, n)
  {
    assert (b | m) & n == (b & n) | (m & n);
  }

  lemma SetBit16(w: bv16, k: nat, j: nat)
    requires k < 16 && j < 16
    ensures Bit16(SetBit(w, k), j) <==> j == k || Bit16(w, j)
  {
    hide Mask16, Meets16;
    OneHot16(k, j);
    OrAnd16(w, Mask16(k), Mask16(j));
  }

  lemma OneHot16(k: nat, j: nat)
    requires k < 16 && j < 16
    ensures Meets16(Mask16(k), Mask16(j)) <==> j == k
  {
    assert ((1 as bv16) << k) & ((1 as bv16) << j) != 0 <==> j == k;
  }

  lemma OrAnd16(w: bv16, m: bv16, n: bv16)
    ensures Meets16(w | m, n) <==> Meets16(w, n) || Meets16(m, n)
  {
    assert (w | m) & n == (w & n) | (m & n);
  }

  // Bit 0 is the lowest, and each shift brings the next one down.
  lemma BitsFromBelow(b: bv8, w: bv16, k: nat)
    ensures (Bit8(b, 0) <==> b & 1 == 1) && (k < 7 ==> (Bit8(b, k + 1) <==> Bit8(b >> 1, k)))
    ensures (Bit16(w, 0) <==> w & 1 == 1) && (k < 15 ==> (Bit16(w, k + 1) <==> Bit16(w >> 1, k)))
  {
    hide Mask8, Mask16, Meets8, Meets16;
    Lowest(b, w);
    if k < 7 {
      MaskUp8(k);
      Down8(b, Mask8(k));
    }
    if k < 15 {
      MaskUp16(k);
      Down16(w, Mask16(k));
    }
  }

  lemma Lowest(b: bv8, w: bv16)
    ensures (Bit8(b, 0) <==> b & 1 == 1) && (Bit16(w, 0) <==> w & 1 == 1)
  {
    assert Mask8(0) == 1 && Mask16(0) == 1;
  }

  lemma MaskUp8(k: nat)
    requires k < 7
    ensures Mask8(k + 1) == Mask8(k) << 1 && Mask8(k) & 0x80 == 0
  {
    assert (1 as bv8) << (k + 1) == ((1 as bv8) << k) << 1;
    assert ((1 as bv8) << k) & 0x80 == 0;
  }

  lemma MaskUp16(k: nat)
    requires k < 15
    ensures Mask16(k + 1) == Mask16(k) << 1 && Mask16(k) & 0x8000 == 0
  {
    assert (1 as bv16) << (k + 1) == ((1 as bv16) << k) << 1;
    assert ((1 as bv16) << k) & 0x8000 == 0;
  }

  lemma Down8(b: bv8, m: bv8)
    requires m & 0x80 == 0
    ensures Meets8(b, m << 1) <==> Meets8(b >> 1, m)
  {
    assert b & (m << 1) != 0 <==> (b >> 1) & m != 0;
  }

  lemma Down16(w: bv16, m: bv16)
    requires m & 0x8000 == 0
    ensures Meets16(w, m << 1) <==> Meets16(w >> 1, m)
  {
    assert w & (m << 1) != 0 <==> (w >> 1) & m != 0;
  }

  lemma NoBits(k: nat)
    ensures k < 16 ==> !Bit16(0, k)
    ensures k < 8 ==> !Bit8(0, k)
  {
  }

  // ---------------------------------------------------------------------------------------------------------------
  // Write requests.

  const MAX_COILS := 2000

  // Coil b of the request data.
  predicate CoilSet(data: Bytes, b: nat)
    requires b / 8 < |data|
  {
    Bit8(data[b / 8], b % 8)
  }

  // The words after coils 0 .. n - 1 have been stored into `words` zeros.
  function CoilWords(data: Bytes, words: nat, n: nat): (w: seq<bv16>)
    requires n <= 8 * |data| && n <= 16 * words
    ensures |w| == words
  {
    if n == 0 then seq(words, _ => 0)
    else
      var w := CoilWords(data, words, n - 1);
      if CoilSet(data, n - 1) then StoreBit(w, (n - 1) / 16, (n - 1) % 16) else w
  }

  function SetBit(w: bv16, k: nat): bv16
    requires k < 16
  {
    w | Mask16(k)
  }

  function StoreBit(w: seq<bv16>, word: nat, bit: nat): (r: seq<bv16>)
    requires word < |w| && bit < 16
    ensures |r| == |w|
  {
    w[word := SetBit(w[word], bit)]
  }

  lemma StoredBit(w: seq<bv16>, word: nat, bit: nat, i: nat, j: nat)
    requires word < |w| && bit < 16 && i < |w| && j < 16
    ensures Bit16(StoreBit(w, word, bit)[i], j) <==> (i == word && j == bit) || Bit16(w[i], j)
  {
    hide Bit16, SetBit;
    SetBit16(w[i], bit, j);
  }

  // Bit for bit, the words are the data: coil b is bit b % 16 of word b / 16, and every other bit is 0.
  lemma {:induction false} CoilWordsBits(data: Bytes, words: nat, n: nat, b: nat)
    requires n <= 8 * |data| && n <= 16 * words && b < 16 * words
    ensures Bit16(CoilWords(data, words, n)[b / 16], b % 16) <==> b < n && CoilSet(data, b)
  {
    if n == 0 {
      NoBits(b % 16);
    } else {
      hide Bit16, StoreBit, CoilSet;
      CoilWordsBits(data, words, n - 1, b);
      StoredBit(CoilWords(data, words, n - 1), (n - 1) / 16, (n - 1) % 16, b / 16, b % 16);
      SamePlace(n - 1, b);
    }
  }

  lemma SamePlace(a: nat, b: nat)
    ensures a / 16 == b / 16 && a % 16 == b % 16 <==> a == b
  {
    assert a == 16 * (a / 16) + a % 16 && b == 16 * (b / 16) + b % 16;
  }

  // n bytes of request data are all that a write of count items reads.
  predicate Suffices(fc: bv8, count: nat, n: nat) {
    if IsWriteSingle(fc) then n >= 2
    else if fc == 0x0F then Min(count, MAX_COILS) <= 8 * n
    else 2 * Min(count, REGS) <= n
  }

  // The arguments of the write callback: the register quantity, and the registers that the fixed array holds.
  function WriteArgs(fc: bv8, count: nat, data: Bytes): (nat, seq<bv16>)
    requires Suffices(fc, count, |data|)
  {
    if IsWriteSingle(fc) then (1, [Word(data[0], data[1])])
    else if fc == 0x0F then
      var n := (count + 15) / 16;
      (n, CoilWords(data, Min(n, REGS), Min(count, MAX_COILS)))
    else
      (count, UnpackRegs(data[..2 * Min(count, REGS)]))
  }

  method PackCoils(data: array<bv8>, off: nat, count: nat, wregs: array<bv16>) returns (nregs: nat)
    requires off <= data.Length && Min(count, MAX_COILS) <= 8 * (data.Length - off) && wregs.Length == REGS
    modifies wregs
    ensures nregs == (count + 15) / 16
    ensures wregs[..Min(nregs, REGS)]
         == CoilWords(data[off..], Min(nregs, REGS), Min(count, MAX_COILS))
  {
    hide Bit8, Mask16, CoilWords, StoreBit;
    nregs := (count + 15) / 16;
    var words := Min(nregs, REGS);
    for i := 0 to words
      invariant forall k :: 0 <= k < i ==> wregs[k] == 0
    {
      wregs[i] := 0;
    }
    ghost var d := data[off..];
    NoCoils(d, words);
    for b := 0 to Min(count, MAX_COILS)
      invariant wregs[..words] == CoilWords(d, words, b)
    {
      OneMoreCoil(d, words, b);
      assert data[off + b / 8] == d[b / 8] && b / 16 < words;
      StoreCoil(data, off, b, wregs, words);
    }
  }

  method StoreCoil(data: array<bv8>, off: nat, b: nat, wregs: array<bv16>, ghost words: nat)
    requires off + b / 8 < data.Length && b / 16 < words <= wregs.Length == REGS
    modifies wregs
    ensures wregs[..words] == if Bit8(data[off + b / 8], b % 8) then StoreBit(old(wregs[..words]), b / 16, b % 16)
                              else old(wregs[..words])
  {
    hide Bit8, Mask16;
    var word, bit := b / 16, b % 16;
    if word < REGS && Bit8(data[off + b / 8], b % 8) {
      wregs[word] := wregs[word] | Mask16(bit);
    }
  }

  lemma NoCoils(data: Bytes, words: nat)
    ensures CoilWords(data, words, 0) == seq(words, _ => 0)
  {
  }

  lemma OneMoreCoil(data: Bytes, words: nat, b: nat)
    requires b < 8 * |data| && b < 16 * words
    ensures CoilWords(data, words, b + 1) ==
            if CoilSet(data, b) then StoreBit(CoilWords(data, words, b), b / 16, b % 16)
            else CoilWords(data, words, b)
  {
  }

  method UnpackWrite(data: array<bv8>, off: nat, count: nat, wregs: array<bv16>)
    requires off + 2 * Min(count, REGS) <= data.Length && wregs.Length == REGS
    modifies wregs
    ensures wregs[..Min(count, REGS)] == UnpackRegs(data[off..][..2 * Min(count, REGS)])
  {
    hide Word, UnpackRegs;
    ghost var d := data[off..];
    UnpackNothing(d[..0]);
    for i := 0 to Min(count, REGS)
      invariant wregs[..i] == UnpackRegs(d[..2 * i])
    {
      UnpackSnoc(d, i);
      wregs[i] := Word(data[off + i * 2], data[off + i * 2 + 1]);
      assert wregs[..i + 1] == wregs[..i] + [wregs[i]];
    }
  }
}
