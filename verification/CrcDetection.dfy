// What the CRC buys: the transmission errors that the receiver of a frame is sure to notice.
module CrcDetection {
  import opened Bytes
  import opened Crc

  // ---------------------------------------------------------------------------------------------------------------
  // The residue: a frame validates exactly when the register over all of it, trailer included, ends at 0.

  lemma CrcSnoc(c: bv16, s: Bytes, b: bv8)
    ensures CrcFrom(c, s + [b]) == Absorb(CrcFrom(c, s), b)
  {
    hide Absorb;
    assert (s + [b])[..|s|] == s;
  }

  lemma ResidueStep(c: bv16, lo: bv8, hi: bv8)
    ensures Absorb(Absorb(c, lo), hi) == 0 <==> c == Word(hi, lo)
  {
    hide ByteStep;
    ResidueBits(c, lo, hi);
  }

  lemma ResidueBits(c: bv16, lo: bv8, hi: bv8)
    ensures ByteStep(ByteStep(c ^ (lo as bv16)) ^ (hi as bv16)) == 0 <==> c == ((hi as bv16) << 8) | (lo as bv16)
  {
  }

  lemma ValidIffResidueZero(f: Bytes)
    requires |f| >= 2
    ensures ValidFrame(f) <==> Crc16(f) == 0
  {
    hide Absorb, Word;
    var n := |f|;
    var c := Crc16(f[..n - 2]);
    assert f == (f[..n - 2] + [f[n - 2]]) + [f[n - 1]];
    CrcSnoc(0xFFFF, f[..n - 2], f[n - 2]);
    CrcSnoc(0xFFFF, f[..n - 2] + [f[n - 2]], f[n - 1]);
    ResidueStep(c, f[n - 2], f[n - 1]);
  }

  // ---------------------------------------------------------------------------------------------------------------
  // Linearity: the residue of a corrupted frame is the register over the error alone, started at 0.

  ghost predicate IsFlipped(g: bv8, f: bv8, e: bv8) {
    g == f ^ e
  }

  // g is f with the bits of e flipped.
  ghost predicate Corrupts(f: Bytes, e: Bytes, g: Bytes) {
    |f| == |e| == |g| && forall i :: 0 <= i < |f| ==> IsFlipped(g[i], f[i], e[i])
  }

  lemma XorBytes(z: bv16, x: bv16, y: bv16, g: bv8, f: bv8, e: bv8)
    requires z == x ^ y && g == f ^ e
    ensures z ^ (g as bv16) == (x ^ (f as bv16)) ^ (y ^ (e as bv16))
  {
    assert (x ^ y) ^ ((f ^ e) as bv16) == (x ^ (f as bv16)) ^ (y ^ (e as bv16));
  }

  lemma AbsorbLinear(z: bv16, x: bv16, y: bv16, g: bv8, f: bv8, e: bv8)
    requires IsXor(z, x, y) && IsFlipped(g, f, e)
    ensures IsXor(Absorb(z, g), Absorb(x, f), Absorb(y, e))
  {
    hide ByteStep;
    XorBytes(z, x, y, g, f, e);
    ByteStepLinear(z ^ (g as bv16), x ^ (f as bv16), y ^ (e as bv16));
  }

  lemma {:induction false} CrcLinear(z: bv16, x: bv16, y: bv16, f: Bytes, e: Bytes, g: Bytes)
    requires IsXor(z, x, y) && Corrupts(f, e, g)
    ensures IsXor(CrcFrom(z, g), CrcFrom(x, f), CrcFrom(y, e))
  {
    hide Absorb, IsXor, IsFlipped;
    if f != [] {
      var n := |f| - 1;
      CrcLinear(z, x, y, f[..n], e[..n], g[..n]);
      AbsorbLinear(CrcFrom(z, g[..n]), CrcFrom(x, f[..n]), CrcFrom(y, e[..n]), g[n], f[n], e[n]);
    }
  }

  lemma XorFromZero(z: bv16, y: bv16)
    requires IsXor(z, 0, y)
    ensures z == y
  {
  }

  lemma ErrorResidue(f: Bytes, e: Bytes, g: Bytes)
    requires |f| >= 2 && Corrupts(f, e, g) && ValidFrame(f)
    ensures ValidFrame(g) <==> CrcFrom(0, e) == 0
  {
    hide CrcFrom, IsFlipped, ValidFrame;
    ValidIffResidueZero(f);
    ValidIffResidueZero(g);
    assert IsXor(0xFFFF, 0xFFFF, 0);
    hide IsXor;
    CrcLinear(0xFFFF, 0xFFFF, 0, f, e, g);
    XorFromZero(CrcFrom(0xFFFF, g), CrcFrom(0, e));
  }

  // ---------------------------------------------------------------------------------------------------------------
  // Bursts.

  ghost predicate AllZero(s: Bytes) {
    forall i :: 0 <= i < |s| ==> s[i] == 0
  }

  lemma AbsorbZero(c: bv16)
    ensures Absorb(c, 0) == 0 <==> c == 0
  {
  }

  // Correct bytes neither create a residue nor remove one.
  lemma {:induction false} CrcOverZeros(c: bv16, s: Bytes)
    requires AllZero(s)
    ensures CrcFrom(c, s) == 0 <==> c == 0
  {
    hide Absorb;
    if s != [] {
      CrcOverZeros(c, s[..|s| - 1]);
      AbsorbZero(CrcFrom(c, s[..|s| - 1]));
    }
  }

  lemma {:induction false} CrcConcat(c: bv16, s: Bytes, t: Bytes)
    ensures CrcFrom(c, s + t) == CrcFrom(CrcFrom(c, s), t)
  {
    hide Absorb;
    if t == [] {
      assert s + t == s;
    } else {
      var n := |t| - 1;
      CrcConcat(c, s, t[..n]);
      assert (s + t)[..|s + t| - 1] == s + t[..n];
    }
  }

  // The 24 bits that three bytes carry, in the order of transmission: first byte lowest.
  function Window(b0: bv8, b1: bv8, b2: bv8): bv24 {
    ((b2 as bv24) << 16) | ((b1 as bv24) << 8) | (b0 as bv24)
  }

  // An error confined to sixteen consecutive bits, p, that start at bit k of byte i.
  ghost predicate Burst(e: Bytes, i: nat, p: bv16, k: bv24) {
    && i + 3 <= |e| && k <= 8 && p != 0
    && AllZero(e[..i]) && AllZero(e[i + 3..])
    && Window(e[i], e[i + 1], e[i + 2]) == (p as bv24) << k
  }

  // The bits of the outer bytes that a burst does not reach.
  lemma BurstEdges(b0: bv8, b1: bv8, b2: bv8, p: bv16, k: bv24)
    requires k <= 8 && p != 0
    requires ((b2 as bv24) << 16) | ((b1 as bv24) << 8) | (b0 as bv24) == (p as bv24) << k
    ensures (b2 as bv24) >> k == 0 && ((b0 as bv24) << (8 - k)) & 0xFF == 0
    ensures ((b2 as bv16) << 8) | (b1 as bv16) == 0 ==> b0 != 0
  {
  }

  // The register after one byte of error reaches into the bits that a later byte of the burst cannot cancel.
  lemma FirstByteShows(b0: bv8, k: bv24)
    requires k <= 8 && ((b0 as bv24) << (8 - k)) & 0xFF == 0 && ((ByteStep(b0 as bv16) >> 8) as bv24) >> k == 0
    ensures b0 == 0
  {
    match k case 0 => case 1 => case 2 => case 3 => case 4 => case 5 => case 6 => case 7 => case _ =>
  }

  lemma BurstStep(b0: bv8, b1: bv8, b2: bv8, p: bv16, k: bv24)
    requires k <= 8 && p != 0 && Window(b0, b1, b2) == (p as bv24) << k
    ensures Absorb(Absorb(Absorb(0, b0), b1), b2) != 0
  {
    hide Absorb, ByteStep;
    var c := ByteStep(b0 as bv16);
    AbsorbFirst(b0);
    ResidueStep(c, b1, b2);
    BurstEdges(b0, b1, b2, p, k);
    if c == Word(b2, b1) {
      WordHigh(b2, b1);
      FirstByteShows(b0, k);
      ByteStepZero();
    }
  }

  lemma WordHigh(hi: bv8, lo: bv8)
    ensures Word(hi, lo) >> 8 == hi as bv16
  {
  }

  lemma ByteStepZero()
    ensures ByteStep(0) == 0
  {
  }

  lemma AbsorbFirst(b: bv8)
    ensures Absorb(0, b) == ByteStep(b as bv16)
  {
    hide ByteStep;
    assert 0 ^ (b as bv16) == b as bv16;
  }

  lemma BurstResidue(e: Bytes, i: nat, p: bv16, k: bv24)
    requires Burst(e, i, p, k)
    ensures CrcFrom(0, e) != 0
  {
    hide Absorb, Window;
    var w, b := e[..i], [e[i], e[i + 1], e[i + 2]];
    assert e == (w + b) + e[i + 3..];
    CrcConcat(0, w + b, e[i + 3..]);
    CrcConcat(0, w, b);
    CrcOverZeros(0, w);
    ThreeBytes(0, e[i], e[i + 1], e[i + 2]);
    BurstStep(e[i], e[i + 1], e[i + 2], p, k);
    CrcOverZeros(CrcFrom(0, b), e[i + 3..]);
  }

  lemma ThreeBytes(c: bv16, b0: bv8, b1: bv8, b2: bv8)
    ensures CrcFrom(c, [b0, b1, b2]) == Absorb(Absorb(Absorb(c, b0), b1), b2)
  {
    hide Absorb;
    assert [b0, b1, b2] == (([] + [b0]) + [b1]) + [b2];
    CrcSnoc(c, [] + [b0] + [b1], b2);
    CrcSnoc(c, [] + [b0], b1);
    CrcSnoc(c, [], b0);
  }

  // Every burst of at most sixteen bits, at any bit offset and reaching into the trailer or not, is detected.
  lemma BurstDetected(f: Bytes, e: Bytes, g: Bytes, i: nat, p: bv16, k: bv24)
    requires ValidFrame(f) && Corrupts(f, e, g) && Burst(e, i, p, k)
    ensures !ValidFrame(g)
  {
    ErrorResidue(f, e, g);
    BurstResidue(e, i, p, k);
  }

  // In particular: two frames of one length that differ, but only within two adjacent bytes, are not both valid.
  lemma AdjacentBytesDetected(f: Bytes, g: Bytes, i: nat)
    requires |f| == |g| >= 3 && i + 2 <= |f|
    requires f != g && forall j :: 0 <= j < |f| && j != i && j != i + 1 ==> f[j] == g[j]
    ensures !(ValidFrame(f) && ValidFrame(g))
  {
    hide ValidFrame, Window, Word;
    var e := Difference(f, g);
    if ValidFrame(f) {
      if i + 3 <= |f| {
        PairWindow(e[i], e[i + 1]);
        BurstDetected(f, e, g, i, Word(e[i + 1], e[i]), 0);
      } else {
        PairWindowLate(e[i], e[i + 1]);
        BurstDetected(f, e, g, i - 1, Word(e[i + 1], e[i]), 8);
      }
    }
  }

  lemma Difference(f: Bytes, g: Bytes) returns (e: Bytes)
    requires |f| == |g|
    ensures Corrupts(f, e, g) && forall j :: 0 <= j < |f| ==> (e[j] == 0 <==> f[j] == g[j])
  {
    e := [];
    for n := 0 to |f|
      invariant |e| == n
      invariant forall j :: 0 <= j < n ==> IsFlipped(g[j], f[j], e[j]) && (e[j] == 0 <==> f[j] == g[j])
    {
      hide IsFlipped;
      var d := FlipOf(f[n], g[n]);
      e := e + [d];
    }
  }

  lemma FlipOf(f: bv8, g: bv8) returns (e: bv8)
    ensures IsFlipped(g, f, e) && (e == 0 <==> f == g)
  {
    e := f ^ g;
    assert f ^ (f ^ g) == g;
    assert f ^ g == 0 <==> f == g;
  }

  lemma PairWindow(b0: bv8, b1: bv8)
    ensures Window(b0, b1, 0) == (Word(b1, b0) as bv24) << 0
    ensures Word(b1, b0) == 0 ==> b0 == 0 && b1 == 0
  {
  }

  lemma PairWindowLate(b1: bv8, b2: bv8)
    ensures Window(0, b1, b2) == (Word(b2, b1) as bv24) << 8
    ensures Word(b2, b1) == 0 ==> b1 == 0 && b2 == 0
  {
  }

  // ---------------------------------------------------------------------------------------------------------------
  // Odd errors: the bit step keeps the parity of the register.

  predicate Low(x: bv16) {
    x & 1 == 1
  }

  function Half(x: bv16): bv16 {
    x >> 1
  }

  function PopCount(x: bv16): nat
    decreases x
  {
    if x == 0 then 0 else (if Low(x) then 1 else 0) + PopCount(Half(x))
  }

  // The number of set bits of a byte sequence.
  function BitCount(s: Bytes): nat {
    if s == [] then 0 else BitCount(s[..|s| - 1]) + PopCount(s[|s| - 1] as bv16)
  }

  ghost predicate Odd(n: nat) {
    n % 2 == 1
  }

  lemma PopCountZero()
    ensures !Odd(PopCount(0))
  {
  }

  lemma Halves(z: bv16, x: bv16, y: bv16)
    requires IsXor(z, x, y)
    ensures IsXor(Half(z), Half(x), Half(y))
    ensures Low(z) <==> (Low(x) != Low(y))
  {
    HalvesBits(x, y);
  }

  lemma HalvesBits(x: bv16, y: bv16)
    ensures (x ^ y) >> 1 == (x >> 1) ^ (y >> 1)
    ensures (x ^ y) & 1 == 1 <==> (x & 1 == 1) != (y & 1 == 1)
  {
  }

  lemma PopCountHalf(x: bv16)
    ensures Odd(PopCount(x)) <==> (Low(x) != Odd(PopCount(Half(x))))
  {
    HalfOfZero();
    hide Low, Half;
  }

  lemma HalfOfZero()
    ensures !Low(0) && Half(0) == 0
  {
  }

  lemma HalfSmaller(x: bv16)
    requires x != 0
    ensures Half(x) < x
  {
  }

  lemma {:induction false} PopCountXor(z: bv16, x: bv16, y: bv16)
    requires IsXor(z, x, y)
    ensures Odd(PopCount(z)) <==> (Odd(PopCount(x)) != Odd(PopCount(y)))
    decreases x
  {
    hide IsXor, Odd, PopCount, Low, Half;
    PopCountZero();
    if x == 0 {
      XorFromZero(z, y);
    } else {
      HalfSmaller(x);
      Halves(z, x, y);
      PopCountHalf(x);
      PopCountHalf(y);
      PopCountHalf(z);
      PopCountXor(Half(z), Half(x), Half(y));
    }
  }

  // The polynomial has three taps, an odd number; the seed has sixteen bits, an even one.
  lemma PopCountConstants()
    ensures PopCount(0xA001) == 3 && PopCount(0xFFFF) == 16 && PopCount(0) == 0
  {
    assert PopCount(0xA) == PopCount(0x5) + 0 == 2;
    assert PopCount(0xA0) == PopCount(0x50) == PopCount(0x28) == PopCount(0x14) == PopCount(0xA);
    assert PopCount(0xA00) == PopCount(0x500) == PopCount(0x280) == PopCount(0x140) == PopCount(0xA0);
    assert PopCount(0xA001) == 1 + PopCount(0x5000) == 1 + PopCount(0x2800) == 1 + PopCount(0x1400);
    assert PopCount(0xF) == 1 + PopCount(0x7) == 2 + PopCount(0x3) == 3 + PopCount(0x1) == 4;
    assert PopCount(0xFF) == 1 + PopCount(0x7F) == 2 + PopCount(0x3F) == 3 + PopCount(0x1F) == 8;
    assert PopCount(0xFFF) == 1 + PopCount(0x7FF) == 2 + PopCount(0x3FF) == 3 + PopCount(0x1FF) == 12;
    assert PopCount(0xFFFF) == 1 + PopCount(0x7FFF) == 2 + PopCount(0x3FFF) == 3 + PopCount(0x1FFF) == 16;
  }

  lemma BitStepParity(x: bv16)
    ensures Odd(PopCount(BitStep(x))) <==> Odd(PopCount(x))
  {
    hide BitStep, PopCount;
    PopCountHalf(x);
    PopCountConstants();
    BitStepBranches(x);
    if x & 1 == 1 {
      assert IsXor((x >> 1) ^ 0xA001, x >> 1, 0xA001);
      PopCountXor((x >> 1) ^ 0xA001, x >> 1, 0xA001);
    }
  }

  lemma ByteStepParity(x: bv16)
    ensures Odd(PopCount(ByteStep(x))) <==> Odd(PopCount(x))
  {
    hide BitStep, PopCount;
    var x4 := BitStep(BitStep(BitStep(BitStep(x))));
    BitStepParity(x);
    BitStepParity(BitStep(x));
    BitStepParity(BitStep(BitStep(x)));
    BitStepParity(BitStep(BitStep(BitStep(x))));
    BitStepParity(x4);
    BitStepParity(BitStep(x4));
    BitStepParity(BitStep(BitStep(x4)));
    BitStepParity(BitStep(BitStep(BitStep(x4))));
  }

  lemma AbsorbParity(c: bv16, b: bv8)
    ensures Odd(PopCount(Absorb(c, b))) <==> (Odd(PopCount(c)) != Odd(PopCount(b as bv16)))
  {
    var z := c ^ (b as bv16);
    assert IsXor(z, c, b as bv16);
    hide ByteStep, PopCount, IsXor;
    PopCountXor(z, c, b as bv16);
    ByteStepParity(z);
  }

  lemma {:induction false} CrcParity(c: bv16, s: Bytes)
    ensures Odd(PopCount(CrcFrom(c, s))) <==> (Odd(PopCount(c)) != Odd(BitCount(s)))
  {
    hide Absorb, PopCount;
    if s != [] {
      CrcParity(c, s[..|s| - 1]);
      AbsorbParity(CrcFrom(c, s[..|s| - 1]), s[|s| - 1]);
    }
  }

  // A valid frame has an even number of set bits.
  lemma ValidFrameIsEven(f: Bytes)
    requires |f| >= 2 && ValidFrame(f)
    ensures !Odd(BitCount(f))
  {
    hide ValidFrame, PopCount, CrcFrom;
    ValidIffResidueZero(f);
    CrcParity(0xFFFF, f);
    PopCountConstants();
  }

  // Any corruption that flips an odd number of bits, however far apart, is detected.
  lemma OddErrorDetected(f: Bytes, e: Bytes, g: Bytes)
    requires |f| >= 2 && ValidFrame(f) && Corrupts(f, e, g) && Odd(BitCount(e))
    ensures !ValidFrame(g)
  {
    hide ValidFrame, PopCount, CrcFrom, Corrupts;
    ErrorResidue(f, e, g);
    CrcParity(0, e);
    PopCountConstants();
  }
}
