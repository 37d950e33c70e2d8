// Errors of few bits, anywhere in a frame of the lengths that occur: the CRC keeps any two valid frames at least four
// bits apart. For two bits this is where the polynomial matters, and the bound on the length.
module CrcDistance {
  import opened Bytes
  import opened Crc
  import opened CrcDetection

  // More than one bit is set.
  predicate Apart(x: bv16) {
    x & (x - 1) != 0
  }

  // The register m bytes after the top bit of a byte was flipped: never a single bit again.
  ghost function Steps(m: nat): bv16 {
    if m == 0 then 0x80 else ByteStep(Steps(m - 1))
  }

  // Every eighth of these registers.
  function Mark(i: nat): bv16 {
    match i
    case 0 => 0x0080 case 1 => 0x6008 case 2 => 0xA061 case 3 => 0xEE67 case 4 => 0xC049 case 5 => 0x5604
    case 6 => 0xF637 case 7 => 0xFDD4 case 8 => 0x6020 case 9 => 0x1E62 case 10 => 0xF079 case 11 => 0x4137
    case 12 => 0xF613 case 13 => 0x16D7 case 14 => 0x7B3B case 15 => 0xA089 case 16 => 0x0068 case 17 => 0x8E07
    case 18 => 0xEE2F case 19 => 0x564C case 20 => 0x6032 case 21 => 0xCBE2 case 22 => 0x5DF5 case 23 => 0xBE43
    case 24 => 0x2E1A case 25 => 0x714F case 26 => 0x7725 case 27 => 0x20C5 case 28 => 0xADED case 29 => 0x1BB3
    case 30 => 0x60E0 case 31 => 0x4E6E case 32 => 0xA029 case 33 => 0x7862 case _ => 0
  }

  // Eight bytes lead from x to z, by way of registers that have more than one bit set.
  predicate EightApart(x: bv16, z: bv16) {
    var x1 := ByteStep(x);
    var x2 := ByteStep(x1);
    var x3 := ByteStep(x2);
    var x4 := ByteStep(x3);
    var x5 := ByteStep(x4);
    var x6 := ByteStep(x5);
    var x7 := ByteStep(x6);
    z == ByteStep(x7)
    && Apart(x1) && Apart(x2) && Apart(x3) && Apart(x4) && Apart(x5) && Apart(x6) && Apart(x7) && Apart(z)
  }

  lemma MarksFrom0(i: nat)
    requires 0 <= i < 4
    ensures EightApart(Mark(i), Mark(i + 1))
  {
    match i case 0 => case 1 => case 2 => case _ =>
  }

  lemma MarksFrom4(i: nat)
    requires 4 <= i < 8
    ensures EightApart(Mark(i), Mark(i + 1))
  {
    match i case 4 => case 5 => case 6 => case _ =>
  }

  lemma MarksFrom8(i: nat)
    requires 8 <= i < 12
    ensures EightApart(Mark(i), Mark(i + 1))
  {
    match i case 8 => case 9 => case 10 => case _ =>
  }

  lemma MarksFrom12(i: nat)
    requires 12 <= i < 16
    ensures EightApart(Mark(i), Mark(i + 1))
  {
    match i case 12 => case 13 => case 14 => case _ =>
  }

  lemma MarksFrom16(i: nat)
    requires 16 <= i < 20
    ensures EightApart(Mark(i), Mark(i + 1))
  {
    match i case 16 => case 17 => case 18 => case _ =>
  }

  lemma MarksFrom20(i: nat)
    requires 20 <= i < 24
    ensures EightApart(Mark(i), Mark(i + 1))
  {
    match i case 20 => case 21 => case 22 => case _ =>
  }

  lemma MarksFrom24(i: nat)
    requires 24 <= i < 28
    ensures EightApart(Mark(i), Mark(i + 1))
  {
    match i case 24 => case 25 => case 26 => case _ =>
  }

  lemma MarksFrom28(i: nat)
    requires 28 <= i < 31
    ensures EightApart(Mark(i), Mark(i + 1))
  {
    match i case 28 => case 29 => case _ =>
  }

  lemma MarksFrom31(i: nat)
    requires 31 <= i < 33
    ensures EightApart(Mark(i), Mark(i + 1))
  {
    match i case 31 => case _ =>
  }

  lemma MarkRun(i: nat)
    requires i < 33
    ensures EightApart(Mark(i), Mark(i + 1))
  {
    hide EightApart, Mark;
    if i < 4 {
      MarksFrom0(i);
    } else if i < 8 {
      MarksFrom4(i);
    } else if i < 12 {
      MarksFrom8(i);
    } else if i < 16 {
      MarksFrom12(i);
    } else if i < 20 {
      MarksFrom16(i);
    } else if i < 24 {
      MarksFrom20(i);
    } else if i < 28 {
      MarksFrom24(i);
    } else if i < 31 {
      MarksFrom28(i);
    } else {
      MarksFrom31(i);
    }
  }

  lemma {:induction false} StepsMark(i: nat)
    requires i <= 33
    ensures Steps(8 * i) == Mark(i)
  {
    hide ByteStep, Apart, Mark, Steps;
    if i == 0 {
      FirstMark();
    } else {
      StepsMark(i - 1);
      MarkRun(i - 1);
      StepsEight(8 * (i - 1));
    }
  }

  lemma FirstMark()
    ensures Steps(0) == Mark(0)
  {
  }

  lemma StepsEight(m: nat)
    ensures var x4 := ByteStep(ByteStep(ByteStep(ByteStep(Steps(m)))));
            Steps(m + 4) == x4 && Steps(m + 8) == ByteStep(ByteStep(ByteStep(ByteStep(x4))))
  {
    hide ByteStep;
    assert Steps(m + 2) == ByteStep(Steps(m + 1)) && Steps(m + 4) == ByteStep(Steps(m + 3));
    assert Steps(m + 6) == ByteStep(Steps(m + 5)) && Steps(m + 8) == ByteStep(Steps(m + 7));
  }

  lemma StepsApart(m: nat)
    requires 1 <= m <= 264
    ensures Apart(Steps(m))
  {
    hide ByteStep, Mark, Apart;
    var i, k := (m - 1) / 8, (m - 1) % 8;
    StepsMark(i);
    MarkRun(i);
    StepsEight(8 * i);
    var x := Steps(8 * i);
    assert Steps(8 * i + 1) == ByteStep(x);
    assert Steps(8 * i + 2) == ByteStep(ByteStep(x));
    assert Steps(8 * i + 3) == ByteStep(ByteStep(ByteStep(x)));
    assert Steps(8 * i + 5) == ByteStep(Steps(8 * i + 4));
    assert Steps(8 * i + 6) == ByteStep(Steps(8 * i + 5));
    assert Steps(8 * i + 7) == ByteStep(Steps(8 * i + 6));
    assert m == 8 * i + k + 1;
  }

  // ---------------------------------------------------------------------------------------------------------------
  // A flipped bit of a byte is its top bit, k bit steps later.

  ghost function Down(x: bv16, k: nat): bv16 {
    if k == 0 then x else BitStep(Down(x, k - 1))
  }

  lemma {:induction false} DownCommutes(x: bv16, k: nat)
    ensures ByteStep(Down(x, k)) == Down(ByteStep(x), k)
  {
    hide BitStep;
    if k > 0 {
      DownCommutes(x, k - 1);
    }
  }

  // A step whose result has a clear top bit only shifted.
  lemma BitStepBack(y: bv16)
    requires BitStep(y) & 0x8000 == 0
    ensures y == BitStep(y) << 1
  {
  }

  function OneBit(t: nat): bv16
    requires t < 16
  {
    (1 as bv16) << t
  }

  lemma OneBitUp(t: nat)
    requires t < 15
    ensures OneBit(t) & 0x8000 == 0 && OneBit(t) << 1 == OneBit(t + 1)
  {
    assert ((1 as bv16) << t) & 0x8000 == 0;
    assert ((1 as bv16) << t) << 1 == (1 as bv16) << (t + 1);
  }

  lemma OneBitNotApart(t: nat)
    requires t < 16
    ensures !Apart(OneBit(t))
  {
    assert ((1 as bv16) << t) & (((1 as bv16) << t) - 1) == 0;
  }

  // So a register with several bits set does not become a single bit of a byte.
  lemma {:induction false} DownApart(y: bv16, k: nat, t: nat)
    requires t + k <= 14 && Apart(y)
    ensures Down(y, k) != OneBit(t)
  {
    hide BitStep, OneBit, Apart;
    OneBitNotApart(t);
    OneBitUp(t);
    if k > 0 && Down(y, k) == OneBit(t) {
      BitStepBack(Down(y, k - 1));
      DownApart(y, k - 1, t + 1);
    }
  }

  // ---------------------------------------------------------------------------------------------------------------
  // Bytes by their number of bits.

  lemma {:induction false} NoBits(x: bv16)
    ensures PopCount(x) == 0 <==> x == 0
    decreases x
  {
    hide Low, Half;
    HalfOfZero();
    if x != 0 {
      HalfSmaller(x);
      NoBits(Half(x));
      LowOrHalf(x);
    }
  }

  lemma LowOrHalf(x: bv16)
    ensures !Low(x) && Half(x) == 0 <==> x == 0
    ensures Low(x) && Half(x) == 0 <==> x == 1
  {
  }

  lemma {:induction false} SingleBit(x: bv16) returns (t: nat)
    requires PopCount(x) == 1
    ensures t < 16 && x == OneBit(t)
    decreases x
  {
    NoBits(x);
    NoBits(Half(x));
    LowOrHalf(x);
    assert OneBit(0) == 1;
    hide Low, Half, OneBit;
    HalfSmaller(x);
    if Low(x) {
      t := 0;
    } else {
      t := SingleBit(Half(x));
      TwiceHalf(x, t);
      t := t + 1;
    }
  }

  lemma TwiceHalf(x: bv16, t: nat)
    requires !Low(x) && t < 16 && Half(x) == OneBit(t)
    ensures t < 15 && x == OneBit(t + 1)
  {
    assert x & 1 == 0 && x >> 1 == (1 as bv16) << t;
    assert t == 15 ==> false;
  }

  lemma OneBitDown(t: nat)
    requires t < 15
    ensures BitStep(OneBit(t + 1)) == OneBit(t)
  {
    assert ((1 as bv16) << (t + 1)) & 1 == 0;
    assert ((1 as bv16) << (t + 1)) >> 1 == (1 as bv16) << t;
  }

  lemma {:induction false} TopBitDown(k: nat)
    requires k <= 7
    ensures Down(0x80, k) == OneBit(7 - k)
  {
    if k == 0 {
      assert OneBit(7) == 0x80;
    } else {
      hide BitStep, OneBit;
      TopBitDown(k - 1);
      OneBitDown(7 - k);
    }
  }

  lemma ByteBit(b: bv8, t: nat)
    requires t < 16 && b as bv16 == OneBit(t)
    ensures t < 8
  {
    assert b as bv16 < 0x100;
    assert (1 as bv16) << t < 0x100;
  }

  // A byte with one bit set is its top bit, some bit steps later.
  lemma ByteOneHot(b: bv8) returns (k: nat)
    requires PopCount(b as bv16) == 1
    ensures k <= 7 && b as bv16 == OneBit(7 - k) == Down(0x80, k)
  {
    hide PopCount, OneBit;
    var t := SingleBit(b as bv16);
    ByteBit(b, t);
    k := 7 - t;
    TopBitDown(k);
  }

  // ---------------------------------------------------------------------------------------------------------------
  // The register over an error of up to two bits.

  // One bit has been flipped, m bytes ago.
  ghost predicate OneFlipped(c: bv16, m: nat, k: nat) {
    k <= 7 && c == Down(Steps(m), k)
  }

  lemma AbsorbNothing(c: bv16, m: nat, k: nat)
    ensures Absorb(c, 0) == ByteStep(c)
    ensures OneFlipped(c, m, k) ==> OneFlipped(Absorb(c, 0), m + 1, k)
  {
    hide BitStep, ByteStep, Down;
    assert c ^ ((0 as bv8) as bv16) == c;
    DownCommutes(Steps(m), k);
  }

  lemma AbsorbBit(b: bv8) returns (k: nat)
    requires PopCount(b as bv16) == 1
    ensures OneFlipped(Absorb(0, b), 1, k)
  {
    hide BitStep, PopCount, Absorb, Down, OneBit;
    k := ByteOneHot(b);
    AbsorbFirst(b);
    DownCommutes(0x80, k);
    assert Steps(1) == ByteStep(Steps(0)) == ByteStep(0x80);
  }

  // The register after a second flipped bit, at most 259 bytes after the first.
  lemma AbsorbSecond(c: bv16, b: bv8, m: nat, k: nat)
    requires OneFlipped(c, m, k) && 1 <= m <= 264 && PopCount(b as bv16) == 1
    ensures Absorb(c, b) != 0
  {
    hide BitStep, ByteStep, PopCount, Down, OneBit, Apart, Steps;
    var l := ByteOneHot(b);
    StepsApart(m);
    DownApart(Steps(m), k, 7 - l);
    ByteStepNonZero(c ^ (b as bv16));
    XorDiffers(c, b as bv16);
  }

  lemma ByteStepNonZero(x: bv16)
    requires x != 0
    ensures ByteStep(x) != 0
  {
  }

  lemma XorDiffers(x: bv16, y: bv16)
    requires x != y
    ensures x ^ y != 0
  {
  }

  lemma {:induction false} FewBits(e: Bytes) returns (m: nat, k: nat)
    requires |e| <= 264
    ensures BitCount(e) == 0 ==> CrcFrom(0, e) == 0
    ensures BitCount(e) == 1 ==> 1 <= m <= |e| && OneFlipped(CrcFrom(0, e), m, k)
    ensures BitCount(e) == 2 ==> CrcFrom(0, e) != 0
  {
    hide Absorb, PopCount, OneFlipped;
    m, k := 0, 0;
    if e != [] {
      var n := |e| - 1;
      var b, c := e[n], CrcFrom(0, e[..n]);
      m, k := FewBits(e[..n]);
      NoBits(b as bv16);
      AbsorbZero(c);
      AbsorbNothing(c, m, k);
      if b == 0 {
        m := m + 1;
      } else if PopCount(b as bv16) == 1 {
        if BitCount(e[..n]) == 0 {
          m := 1;
          k := AbsorbBit(b);
        } else if BitCount(e[..n]) == 1 {
          AbsorbSecond(c, b, m, k);
        }
      } else if BitCount(e[..n]) == 0 {
        AbsorbFirst(b);
        ByteStepNonZero(b as bv16);
      }
    } else {
      ByteStepZero();
    }
  }

  // Any two flipped bits, however far apart in a frame of at most 264 bytes - longer than any that a buffer of 260
  // bytes delimits - are detected.
  lemma TwoBitErrorDetected(f: Bytes, e: Bytes, g: Bytes)
    requires 2 <= |f| <= 264 && ValidFrame(f) && Corrupts(f, e, g) && BitCount(e) == 2
    ensures !ValidFrame(g)
  {
    hide ValidFrame, BitCount, CrcFrom;
    ErrorResidue(f, e, g);
    var _, _ := FewBits(e);
  }

  // So are up to three: two valid frames of one length differ in at least four bits.
  lemma FewBitErrorDetected(f: Bytes, e: Bytes, g: Bytes)
    requires 2 <= |f| <= 264 && ValidFrame(f) && Corrupts(f, e, g) && 1 <= BitCount(e) <= 3
    ensures !ValidFrame(g)
  {
    hide ValidFrame, BitCount, Corrupts;
    if BitCount(e) == 2 {
      TwoBitErrorDetected(f, e, g);
    } else {
      OddErrorDetected(f, e, g);
    }
  }
}
