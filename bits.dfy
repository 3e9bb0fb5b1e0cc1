/**
 * The byte operation of FlipBit: `byte ^= 1 << bit`, computed on the
 * 8-bit pattern of the byte.
 */
module Bits {
  import opened Bytes

  /** `x ^ (1 << bit)` on the 8-bit pattern. */
  function FlipBv(x: bv8, bit: nat): bv8
    requires bit < 8
  {
    x ^ ((1 as bv8) << bit)
  }

  /** The 8-bit pattern of a byte (`(uint8_t)b`), counted up from zero. */
  function Pattern(b: Byte): (y: bv8)
    ensures y as int == b
  {
    if b == 0 then 0 else Pattern(b - 1) + 1
  }

  /** The byte with bit `bit` inverted, as FlipBit computes it. */
  function FlipBitOf(b: Byte, bit: nat): Byte
    requires bit < 8
  {
    FlipBv(Pattern(b), bit) as int
  }

  /** Bit `j` of an 8-bit pattern. */
  predicate BitBv(x: bv8, j: nat)
    requires j < 8
  {
    (x >> j) & 1 == 1
  }

  /** Bit `j` of a byte. */
  predicate BitOf(b: Byte, j: nat)
    requires j < 8
  {
    BitBv(Pattern(b), j)
  }

  lemma Bv8RoundTrip(y: bv8)
    ensures (y as int) as bv8 == y
  {
  }

  /** Every 8-bit pattern is the pattern of its value. */
  lemma PatternOf(y: bv8)
    ensures Pattern(y as int) == y
  {
    Bv8RoundTrip(y);
    Bv8RoundTrip(Pattern(y as int));
  }

  lemma FlipBvTwice(x: bv8, bit: nat)
    requires bit < 8
    ensures FlipBv(FlipBv(x, bit), bit) == x
  {
  }

  lemma FlipBvBit(x: bv8, bit: nat, j: nat)
    requires bit < 8 && j < 8
    ensures BitBv(FlipBv(x, bit), j) != BitBv(x, j) <==> j == bit
  {
    var m := (1 as bv8) << bit;
    assert (m >> j) & 1 == (if j == bit then 1 else 0);
    assert ((x ^ m) >> j) & 1 == ((x >> j) & 1) ^ ((m >> j) & 1);
  }

  /** Flipping the same bit twice restores the byte. */
  lemma FlipBitTwice(b: Byte, bit: nat)
    requires bit < 8
    ensures FlipBitOf(FlipBitOf(b, bit), bit) == b
  {
    var x := Pattern(b);
    PatternOf(FlipBv(x, bit));
    FlipBvTwice(x, bit);
  }

  /** Flipping inverts bit `bit` and no other bit. */
  lemma FlipBitChangesOneBit(b: Byte, bit: nat, j: nat)
    requires bit < 8 && j < 8
    ensures BitOf(FlipBitOf(b, bit), j) != BitOf(b, j) <==> j == bit
  {
    var x := Pattern(b);
    PatternOf(FlipBv(x, bit));
    FlipBvBit(x, bit, j);
  }
}
