// Machine bytes and words. A `uint8_t` is a bv8 and a `uint16_t` is a bv16, so that shifts, masks and
// exclusive-ors mean what they mean in C; lengths and indices are unbounded integers.
module Bytes {

  type Bytes = seq<bv8>

  datatype Option<+T> = None | Some(value: T)

  // The integer value of a byte (C's implicit promotion). It counts down to zero, so that proofs go by single steps
  // and not through the bits.
  function Count(b: bv8): nat
    decreases b
  {
    if b == 0 then 0 else Count(b - 1) + 1
  }

  function ByteVal(b: bv8): (n: nat)
    ensures n < 256
    ensures n == 0 <==> b == 0
  {
    CountBelow(b);
    Count(b)
  }

  // The byte with a given value, by counting up.
  function ByteOf(n: nat): bv8
    requires n < 256
  {
    if n == 0 then 0 else ByteOf(n - 1) + 1
  }

  // The cast `(uint8_t)n`: it wraps.
  function CastByte(n: nat): bv8 {
    ByteOf(n % 256)
  }

  lemma CountSixteen(b: bv8)
    requires b <= 0xEF
    ensures Count(b + 16) == Count(b) + 16
  {
    assert Count(b + 4) == Count(b + 3) + 1 == Count(b + 2) + 2 == Count(b + 1) + 3 == Count(b) + 4;
    assert Count(b + 8) == Count(b + 7) + 1 == Count(b + 6) + 2 == Count(b + 5) + 3 == Count(b + 4) + 4;
    assert Count(b + 12) == Count(b + 11) + 1 == Count(b + 10) + 2 == Count(b + 9) + 3 == Count(b + 8) + 4;
    assert Count(b + 16) == Count(b + 15) + 1 == Count(b + 14) + 2 == Count(b + 13) + 3 == Count(b + 12) + 4;
  }

  lemma CountFifteen()
    ensures Count(0x0F) == 15
  {
    assert Count(3) == Count(2) + 1 == Count(1) + 2 == Count(0) + 3 == 3;
    assert Count(7) == Count(6) + 1 == Count(5) + 2 == Count(4) + 3 == Count(3) + 4;
    assert Count(11) == Count(10) + 1 == Count(9) + 2 == Count(8) + 3 == Count(7) + 4;
    assert Count(15) == Count(14) + 1 == Count(13) + 2 == Count(12) + 3 == Count(11) + 4;
  }

  lemma CountMiddle()
    ensures Count(0x7F) == 127
  {
    hide Count;
    CountFifteen();
    CountSixteen(0x0F); CountSixteen(0x1F); CountSixteen(0x2F); CountSixteen(0x3F);
    CountSixteen(0x4F); CountSixteen(0x5F); CountSixteen(0x6F);
  }

  lemma CountTop()
    ensures Count(0xFF) == 255
  {
    hide Count;
    CountMiddle();
    CountSixteen(0x7F); CountSixteen(0x8F); CountSixteen(0x9F); CountSixteen(0xAF);
    CountSixteen(0xBF); CountSixteen(0xCF); CountSixteen(0xDF); CountSixteen(0xEF);
  }

  lemma {:induction false} CountBelow(b: bv8)
    ensures Count(b) <= 255
    decreases 0xFF - b
  {
    if b == 0xFF {
      CountTop();
    } else {
      CountBelow(b + 1);
    }
  }

  lemma {:induction false} ByteOfVal(n: nat)
    requires n < 256
    ensures ByteVal(ByteOf(n)) == n
  {
    CountOfByte(n);
  }

  lemma {:induction false} CountOfByte(n: nat)
    requires n < 256
    ensures Count(ByteOf(n)) == n
  {
    if n > 0 {
      CountOfByte(n - 1);
      if ByteOf(n - 1) == 0xFF {
        CountTop();
      }
    }
  }

  // The high and the low byte of a word: `(uint8_t)(w >> 8)` and `(uint8_t)(w & 0xFF)`.
  function Hi(w: bv16): bv8 { (w >> 8) as bv8 }

  function Lo(w: bv16): bv8 { (w & 0xFF) as bv8 }

  // `(uint16_t)hi << 8 | lo`
  function Word(hi: bv8, lo: bv8): bv16 {
    ((hi as bv16) << 8) | (lo as bv16)
  }

  lemma WordOfBytes(w: bv16)
    ensures Word(Hi(w), Lo(w)) == w
  {
  }

  lemma BytesOfWord(hi: bv8, lo: bv8)
    ensures Hi(Word(hi, lo)) == hi && Lo(Word(hi, lo)) == lo
  {
  }

  // The integer value of a word, through its two bytes.
  function WordVal(w: bv16): (n: nat)
    ensures n < 0x1_0000
  {
    ByteVal(Hi(w)) * 256 + ByteVal(Lo(w))
  }

  // The cast `(uint16_t)n`: it wraps.
  function CastWord(n: nat): bv16 {
    Word(ByteOf(n / 256 % 256), ByteOf(n % 256))
  }

  lemma WordOfVal(n: nat)
    requires n < 0x1_0000
    ensures WordVal(CastWord(n)) == n
  {
    hide ByteVal, ByteOf, Hi, Lo, Word;
    BytesOfWord(ByteOf(n / 256 % 256), ByteOf(n % 256));
    ByteOfVal(n / 256 % 256);
    ByteOfVal(n % 256);
  }

  function Min(a: nat, b: nat): nat {
    if a < b then a else b
  }

  // The bytes of a list of chunks, in order.
  function Flatten(chunks: seq<Bytes>): Bytes {
    if chunks == [] then [] else Flatten(chunks[..|chunks| - 1]) + chunks[|chunks| - 1]
  }
}
