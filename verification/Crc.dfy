// CRC-16/Modbus: the bitwise form, the table form, and the proof that the second refines the first.
module Crc {
  import opened Bytes

  // One step of the shift register, polynomial 0xA001 (0x8005 reflected).
  function BitStep(crc: bv16): bv16 {
    if crc & 1 == 1 then (crc >> 1) ^ 0xA001 else crc >> 1
  }

  // Eight steps.
  function ByteStep(x: bv16): bv16 {
    BitStep(BitStep(BitStep(BitStep(BitStep(BitStep(BitStep(BitStep(x))))))))
  }

  // The register c after taking in the byte b.
  function Absorb(c: bv16, b: bv8): bv16 {
    ByteStep(c ^ (b as bv16))
  }

  // The register after the bytes s, starting from c.
  function CrcFrom(c: bv16, s: Bytes): bv16 {
    if s == [] then c else Absorb(CrcFrom(c, s[..|s| - 1]), s[|s| - 1])
  }

  function Crc16(s: Bytes): bv16 {
    CrcFrom(0xFFFF, s)
  }

  method CalcCrc(data: array<bv8>, len: nat) returns (crc: bv16)
    requires len <= data.Length
    ensures crc == Crc16(data[..len])
  {
    hide BitStep, ByteStep;
    crc := 0xFFFF;
    for i := 0 to len
      invariant crc == Crc16(data[..i])
    {
      crc := crc ^ (data[i] as bv16);
      ghost var x := crc;
      for j := 0 to 8
        invariant BitSteps(crc, 8 - j) == BitSteps(x, 8)
      {
        BitStepBranches(crc);
        if crc & 1 == 1 {
          crc := (crc >> 1) ^ 0xA001;
        } else {
          crc := crc >> 1;
        }
      }
      EightBitSteps(x);
      assert data[..i + 1][..i] == data[..i];
    }
  }

  // The register after n more bit steps, for the inner loop.
  ghost function BitSteps(x: bv16, n: nat): bv16
    decreases n
  {
    if n == 0 then x else BitSteps(BitStep(x), n - 1)
  }

  lemma BitStepBranches(crc: bv16)
    ensures BitStep(crc) == if crc & 1 == 1 then (crc >> 1) ^ 0xA001 else crc >> 1
  {
  }

  lemma EightBitSteps(x: bv16)
    ensures BitSteps(x, 8) == ByteStep(x)
  {
    hide BitStep;
    var y := BitStep(BitStep(BitStep(BitStep(x))));
    assert BitSteps(BitStep(BitStep(x)), 6) == BitSteps(y, 4);
    assert BitSteps(y, 4) == BitSteps(BitStep(BitStep(y)), 2) == BitSteps(BitStep(BitStep(BitStep(BitStep(y)))), 0);
  }

  // ---------------------------------------------------------------------------------------------------------------
  // The table, 32 rows of eight entries as in the source.

  datatype Row = Row(c0: bv16, c1: bv16, c2: bv16, c3: bv16, c4: bv16, c5: bv16, c6: bv16, c7: bv16) {
    function At(k: bv8): bv16 {
      match k case 0 => c0 case 1 => c1 case 2 => c2 case 3 => c3 case 4 => c4 case 5 => c5 case 6 => c6 case _ => c7
    }
  }

  function LowRow(r: bv8): Row {
    match r
    case 0 => Row(0x0000, 0xC0C1, 0xC181, 0x0140, 0xC301, 0x03C0, 0x0280, 0xC241)
    case 1 => Row(0xC601, 0x06C0, 0x0780, 0xC741, 0x0500, 0xC5C1, 0xC481, 0x0440)
    case 2 => Row(0xCC01, 0x0CC0, 0x0D80, 0xCD41, 0x0F00, 0xCFC1, 0xCE81, 0x0E40)
    case 3 => Row(0x0A00, 0xCAC1, 0xCB81, 0x0B40, 0xC901, 0x09C0, 0x0880, 0xC841)
    case 4 => Row(0xD801, 0x18C0, 0x1980, 0xD941, 0x1B00, 0xDBC1, 0xDA81, 0x1A40)
    case 5 => Row(0x1E00, 0xDEC1, 0xDF81, 0x1F40, 0xDD01, 0x1DC0, 0x1C80, 0xDC41)
    case 6 => Row(0x1400, 0xD4C1, 0xD581, 0x1540, 0xD701, 0x17C0, 0x1680, 0xD641)
    case 7 => Row(0xD201, 0x12C0, 0x1380, 0xD341, 0x1100, 0xD1C1, 0xD081, 0x1040)
    case 8 => Row(0xF001, 0x30C0, 0x3180, 0xF141, 0x3300, 0xF3C1, 0xF281, 0x3240)
    case 9 => Row(0x3600, 0xF6C1, 0xF781, 0x3740, 0xF501, 0x35C0, 0x3480, 0xF441)
    case 10 => Row(0x3C00, 0xFCC1, 0xFD81, 0x3D40, 0xFF01, 0x3FC0, 0x3E80, 0xFE41)
    case 11 => Row(0xFA01, 0x3AC0, 0x3B80, 0xFB41, 0x3900, 0xF9C1, 0xF881, 0x3840)
    case 12 => Row(0x2800, 0xE8C1, 0xE981, 0x2940, 0xEB01, 0x2BC0, 0x2A80, 0xEA41)
    case 13 => Row(0xEE01, 0x2EC0, 0x2F80, 0xEF41, 0x2D00, 0xEDC1, 0xEC81, 0x2C40)
    case 14 => Row(0xE401, 0x24C0, 0x2580, 0xE541, 0x2700, 0xE7C1, 0xE681, 0x2640)
    case _ => Row(0x2200, 0xE2C1, 0xE381, 0x2340, 0xE101, 0x21C0, 0x2080, 0xE041)
  }

  function HighRow(r: bv8): Row {
    match r
    case 16 => Row(0xA001, 0x60C0, 0x6180, 0xA141, 0x6300, 0xA3C1, 0xA281, 0x6240)
    case 17 => Row(0x6600, 0xA6C1, 0xA781, 0x6740, 0xA501, 0x65C0, 0x6480, 0xA441)
    case 18 => Row(0x6C00, 0xACC1, 0xAD81, 0x6D40, 0xAF01, 0x6FC0, 0x6E80, 0xAE41)
    case 19 => Row(0xAA01, 0x6AC0, 0x6B80, 0xAB41, 0x6900, 0xA9C1, 0xA881, 0x6840)
    case 20 => Row(0x7800, 0xB8C1, 0xB981, 0x7940, 0xBB01, 0x7BC0, 0x7A80, 0xBA41)
    case 21 => Row(0xBE01, 0x7EC0, 0x7F80, 0xBF41, 0x7D00, 0xBDC1, 0xBC81, 0x7C40)
    case 22 => Row(0xB401, 0x74C0, 0x7580, 0xB541, 0x7700, 0xB7C1, 0xB681, 0x7640)
    case 23 => Row(0x7200, 0xB2C1, 0xB381, 0x7340, 0xB101, 0x71C0, 0x7080, 0xB041)
    case 24 => Row(0x5000, 0x90C1, 0x9181, 0x5140, 0x9301, 0x53C0, 0x5280, 0x9241)
    case 25 => Row(0x9601, 0x56C0, 0x5780, 0x9741, 0x5500, 0x95C1, 0x9481, 0x5440)
    case 26 => Row(0x9C01, 0x5CC0, 0x5D80, 0x9D41, 0x5F00, 0x9FC1, 0x9E81, 0x5E40)
    case 27 => Row(0x5A00, 0x9AC1, 0x9B81, 0x5B40, 0x9901, 0x59C0, 0x5880, 0x9841)
    case 28 => Row(0x8801, 0x48C0, 0x4980, 0x8941, 0x4B00, 0x8BC1, 0x8A81, 0x4A40)
    case 29 => Row(0x4E00, 0x8EC1, 0x8F81, 0x4F40, 0x8D01, 0x4DC0, 0x4C80, 0x8C41)
    case 30 => Row(0x4400, 0x84C1, 0x8581, 0x4540, 0x8701, 0x47C0, 0x4680, 0x8641)
    case _ => Row(0x8201, 0x42C0, 0x4380, 0x8341, 0x4100, 0x81C1, 0x8081, 0x4040)
  }

  function TableRow(r: bv8): Row {
    if r < 16 then LowRow(r) else HighRow(r)
  }

  function Table(idx: bv8): bv16 {
    TableRow(idx >> 3).At(idx & 7)
  }

  method TableCrc(data: array<bv8>, len: nat) returns (crc: bv16)
    requires len <= data.Length
    ensures crc == Crc16(data[..len])
  {
    hide Absorb, Table;
    crc := 0xFFFF;
    for i := 0 to len
      invariant crc == Crc16(data[..i])
    {
      var idx := ((crc ^ (data[i] as bv16)) & 0xFF) as bv8;
      TableStep(crc, data[i], idx);
      crc := (crc >> 8) ^ Table(idx);
      assert data[..i + 1][..i] == data[..i];
    }
  }

  // Every row is the first row shifted, by exclusive-or, to the value of its own first entry.
  function Shifted(c: bv16): Row {
    Row(c, Xor(c, 0xC0C1), Xor(c, 0xC181), Xor(c, 0x0140), Xor(c, 0xC301), Xor(c, 0x03C0), Xor(c, 0x0280), Xor(c, 0xC241))
  }

  function Xor(x: bv16, y: bv16): bv16 {
    x ^ y
  }

  lemma LowRows(r: bv8)
    requires r < 16
    ensures LowRow(r) == Shifted(ByteStep((r as bv16) << 3))
  {
    match r
    case 0 => case 1 => case 2 => case 3 => case 4 => case 5 => case 6 => case 7 =>
    case 8 => case 9 => case 10 => case 11 => case 12 => case 13 => case 14 => case _ =>
  }

  lemma HighRows(r: bv8)
    requires 16 <= r < 32
    ensures HighRow(r) == Shifted(ByteStep((r as bv16) << 3))
  {
    match r
    case 16 => case 17 => case 18 => case 19 => case 20 => case 21 => case 22 => case 23 =>
    case 24 => case 25 => case 26 => case 27 => case 28 => case 29 => case 30 => case _ =>
  }

  function FirstEntry(k: bv8): bv16 {
    Row(0, 0xC0C1, 0xC181, 0x0140, 0xC301, 0x03C0, 0x0280, 0xC241).At(k)
  }

  lemma FirstRow(k: bv8)
    requires k < 8
    ensures FirstEntry(k) == ByteStep(k as bv16)
  {
    match k case 0 => case 1 => case 2 => case 3 => case 4 => case 5 => case 6 => case _ =>
  }

  lemma ShiftedAt(c: bv16, k: bv8)
    ensures IsXor(Shifted(c).At(k), c, FirstEntry(k))
  {
    hide Xor, IsXor;
    XorWithZero(c);
    match k
    case 0 =>
    case 1 => XorIsXor(c, 0xC0C1);
    case 2 => XorIsXor(c, 0xC181);
    case 3 => XorIsXor(c, 0x0140);
    case 4 => XorIsXor(c, 0xC301);
    case 5 => XorIsXor(c, 0x03C0);
    case 6 => XorIsXor(c, 0x0280);
    case _ => XorIsXor(c, 0xC241);
  }

  lemma XorIsXor(x: bv16, y: bv16)
    ensures IsXor(Xor(x, y), x, y)
  {
  }

  lemma XorWithZero(x: bv16)
    ensures IsXor(x, x, 0) && IsXor(x, 0, x)
  {
  }

  // Each entry is what eight bit steps make of its index.
  lemma TableEntry(idx: bv8)
    ensures Table(idx) == ByteStep(idx as bv16)
  {
    hide ByteStep, LowRow, HighRow, Shifted;
    var r, k := idx >> 3, idx & 7;
    var c := (r as bv16) << 3;
    if r < 16 { LowRows(r); } else { HighRows(r); }
    FirstRow(k);
    ShiftedAt(ByteStep(c), k);
    IndexSplit(idx);
    ByteStepLinear(idx as bv16, c, k as bv16);
  }

  lemma IndexSplit(idx: bv8)
    ensures IsXor(idx as bv16, ((idx >> 3) as bv16) << 3, (idx & 7) as bv16)
  {
  }

  // The heart of the equivalence: the table step is eight bit steps.
  lemma TableStep(crc: bv16, b: bv8, idx: bv8)
    requires idx == ((crc ^ (b as bv16)) & 0xFF) as bv8
    ensures (crc >> 8) ^ Table(idx) == Absorb(crc, b)
  {
    hide Absorb, ByteStep, Table;
    IndexBits(crc, b);
    AbsorbIsByteStep(crc, b);
    TableSplit(crc ^ (b as bv16), crc >> 8, idx);
  }

  lemma AbsorbIsByteStep(crc: bv16, b: bv8)
    ensures Absorb(crc, b) == ByteStep(crc ^ (b as bv16))
  {
    hide ByteStep;
  }

  lemma TableSplit(x: bv16, hi: bv16, idx: bv8)
    requires hi == x >> 8 && idx as bv16 == x & 0xFF
    ensures hi ^ Table(idx) == ByteStep(x)
  {
    hide ByteStep, Table;
    TableEntry(idx);
    ByteStepSplit(x, hi, idx as bv16);
  }

  lemma IndexBits(crc: bv16, b: bv8)
    ensures (((crc ^ (b as bv16)) & 0xFF) as bv8) as bv16 == (crc ^ (b as bv16)) & 0xFF
    ensures (crc ^ (b as bv16)) >> 8 == crc >> 8
  {
  }

  // The bit step is linear over exclusive-or: written without a branch, it taps bit 0 into bits 0, 13 and 15.
  lemma BitStepTaps(x: bv16)
    ensures BitStep(x) == (x >> 1) ^ (x & 1) ^ ((x & 1) << 13) ^ ((x & 1) << 15)
  {
    LowBit(x);
    if x & 1 == 1 { TapOne(x >> 1, x & 1); } else { TapZero(x >> 1, x & 1); }
  }

  lemma LowBit(x: bv16)
    ensures x & 1 == 0 || x & 1 == 1
  {
  }

  lemma TapOne(x: bv16, b: bv16)
    requires b == 1
    ensures x ^ b ^ (b << 13) ^ (b << 15) == x ^ 0xA001
  {
  }

  lemma TapZero(x: bv16, b: bv16)
    requires b == 0
    ensures x ^ b ^ (b << 13) ^ (b << 15) == x
  {
  }

  lemma TapsLinear(x: bv16, y: bv16)
    ensures ((x ^ y) >> 1) ^ ((x ^ y) & 1) ^ (((x ^ y) & 1) << 13) ^ (((x ^ y) & 1) << 15)
         == ((x >> 1) ^ (x & 1) ^ ((x & 1) << 13) ^ ((x & 1) << 15))
          ^ ((y >> 1) ^ (y & 1) ^ ((y & 1) << 13) ^ ((y & 1) << 15))
  {
  }

  // The steps preserve exclusive-or. Stated through a predicate, so that chains of steps need no bit reasoning.
  ghost predicate IsXor(z: bv16, x: bv16, y: bv16) {
    z == x ^ y
  }

  lemma BitStepXor(x: bv16, y: bv16)
    ensures BitStep(x ^ y) == BitStep(x) ^ BitStep(y)
  {
    hide BitStep;
    BitStepTaps(x);
    BitStepTaps(y);
    BitStepTaps(x ^ y);
    TapsLinear(x, y);
  }

  lemma BitStepLinear(z: bv16, x: bv16, y: bv16)
    requires IsXor(z, x, y)
    ensures IsXor(BitStep(z), BitStep(x), BitStep(y))
  {
    hide BitStep;
    BitStepXor(x, y);
  }

  lemma TwoBitStepsLinear(z: bv16, x: bv16, y: bv16)
    requires IsXor(z, x, y)
    ensures IsXor(BitStep(BitStep(z)), BitStep(BitStep(x)), BitStep(BitStep(y)))
  {
    hide BitStep, IsXor;
    BitStepLinear(z, x, y);
    BitStepLinear(BitStep(z), BitStep(x), BitStep(y));
  }

  lemma ByteStepLinear(z: bv16, x: bv16, y: bv16)
    requires IsXor(z, x, y)
    ensures IsXor(ByteStep(z), ByteStep(x), ByteStep(y))
  {
    hide BitStep, IsXor;
    var z2, x2, y2 := BitStep(BitStep(z)), BitStep(BitStep(x)), BitStep(BitStep(y));
    var z4, x4, y4 := BitStep(BitStep(z2)), BitStep(BitStep(x2)), BitStep(BitStep(y2));
    var z6, x6, y6 := BitStep(BitStep(z4)), BitStep(BitStep(x4)), BitStep(BitStep(y4));
    TwoBitStepsLinear(z, x, y);
    TwoBitStepsLinear(z2, x2, y2);
    TwoBitStepsLinear(z4, x4, y4);
    TwoBitStepsLinear(z6, x6, y6);
  }

  lemma ByteStepHigh(x: bv16)
    requires x & 0xFF == 0
    ensures ByteStep(x) == x >> 8
  {
  }

  lemma ByteStepSplit(x: bv16, hi: bv16, lo: bv16)
    requires hi == x >> 8 && lo == x & 0xFF
    ensures ByteStep(x) == hi ^ ByteStep(lo)
  {
    hide ByteStep;
    HighLow(x);
    ByteStepHigh(x & 0xFF00);
    ByteStepLinear(x, x & 0xFF00, x & 0xFF);
  }

  lemma HighLow(x: bv16)
    ensures (x & 0xFF00) ^ (x & 0xFF) == x && (x & 0xFF00) & 0xFF == 0 && (x & 0xFF00) >> 8 == x >> 8
  {
  }

  // ---------------------------------------------------------------------------------------------------------------
  // The RTU trailer: low byte of the CRC first.

  // The frame with these leading bytes.
  function Seal(body: Bytes): Bytes {
    body + [Lo(Crc16(body)), Hi(Crc16(body))]
  }

  // The last two bytes of the frame are the CRC of the rest.
  predicate ValidFrame(frame: Bytes) {
    |frame| >= 2 && Crc16(frame[..|frame| - 2]) == Word(frame[|frame| - 1], frame[|frame| - 2])
  }

  // A frame validates exactly when it is a sealed body.
  lemma ValidIffSealed(frame: Bytes)
    requires |frame| >= 2
    ensures ValidFrame(frame) <==> frame == Seal(frame[..|frame| - 2])
  {
    hide Crc16, Word, Lo, Hi;
    var body := frame[..|frame| - 2];
    WordOfBytes(Crc16(body));
    BytesOfWord(frame[|frame| - 1], frame[|frame| - 2]);
    assert frame == body + [frame[|frame| - 2], frame[|frame| - 1]];
  }

  // ---------------------------------------------------------------------------------------------------------------
  // The value, without the definition: the register starts with all bits set and takes in one byte after the other.

  lemma Crc16Extends(s: Bytes, b: bv8)
    ensures Crc16([]) == 0xFFFF && Crc16(s + [b]) == Absorb(Crc16(s), b)
  {
    hide Absorb;
    assert (s + [b])[..|s|] == s;
  }

  // The check value of CRC-16/Modbus, over the characters 1 to 9.
  lemma CheckValue()
    ensures Crc16([0x31, 0x32, 0x33, 0x34, 0x35, 0x36, 0x37, 0x38, 0x39]) == 0x4B37
  {
    hide Crc16, Absorb;
    FirstThree();
    var s3 := [0x31, 0x32, 0x33];
    Crc16Extends(s3, 0x34);
    var s4 := s3 + [0x34];
    Crc16Extends(s4, 0x35);
    var s5 := s4 + [0x35];
    Crc16Extends(s5, 0x36);
    var s6 := s5 + [0x36];
    Crc16Extends(s6, 0x37);
    var s7 := s6 + [0x37];
    Crc16Extends(s7, 0x38);
    var s8 := s7 + [0x38];
    Crc16Extends(s8, 0x39);
    var s9 := s8 + [0x39];
    SecondThree();
    LastThree();
    assert s9 == [0x31, 0x32, 0x33, 0x34, 0x35, 0x36, 0x37, 0x38, 0x39];
  }

  lemma FirstThree()
    ensures Crc16([0x31, 0x32, 0x33]) == 0x7A75
  {
    hide Crc16;
    var empty: Bytes := [];
    Crc16Extends(empty, 0x31);
    Crc16Extends(empty + [0x31], 0x32);
    Crc16Extends(empty + [0x31] + [0x32], 0x33);
    assert empty + [0x31] + [0x32] + [0x33] == [0x31, 0x32, 0x33];
    assert Absorb(0xFFFF, 0x31) == 0x947E && Absorb(0x947E, 0x32) == 0xF595 && Absorb(0xF595, 0x33) == 0x7A75;
  }

  lemma SecondThree()
    ensures Absorb(0x7A75, 0x34) == 0x30BA && Absorb(0x30BA, 0x35) == 0xA471 && Absorb(0xA471, 0x36) == 0x32E4
  {
  }

  lemma LastThree()
    ensures Absorb(0x32E4, 0x37) == 0x9D73 && Absorb(0x9D73, 0x38) == 0x37DD && Absorb(0x37DD, 0x39) == 0x4B37
  {
  }

  // A whole request as it goes over the line: unit 1, read one holding register at address 0.
  lemma SealedRequest()
    ensures Seal([0x01, 0x03, 0x00, 0x00, 0x00, 0x01]) == [0x01, 0x03, 0x00, 0x00, 0x00, 0x01, 0x84, 0x0A]
  {
    hide Crc16;
    var empty: Bytes := [];
    var s2 := empty + [0x01] + [0x03];
    var s4 := s2 + [0x00] + [0x00];
    Crc16Extends(empty, 0x01);
    Crc16Extends(empty + [0x01], 0x03);
    Crc16Extends(s2, 0x00);
    Crc16Extends(s2 + [0x00], 0x00);
    Crc16Extends(s4, 0x00);
    Crc16Extends(s4 + [0x00], 0x01);
    assert s4 + [0x00] + [0x01] == [0x01, 0x03, 0x00, 0x00, 0x00, 0x01];
    assert Absorb(0xFFFF, 0x01) == 0x807E && Absorb(0x807E, 0x03) == 0x2140 && Absorb(0x2140, 0x00) == 0xF020;
    assert Absorb(0xF020, 0x00) == 0xD8F1 && Absorb(0xD8F1, 0x00) == 0x8419 && Absorb(0x8419, 0x01) == 0x0A84;
    assert Lo(0x0A84) == 0x84 && Hi(0x0A84) == 0x0A;
  }
}
