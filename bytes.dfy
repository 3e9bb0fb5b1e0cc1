/**
 * Byte-level representation of the fixed-width integers the mutation engine
 * reads and writes: little-endian encoding and decoding, byte reversal
 * (endianness swap) and two's complement reinterpretation.
 *
 * The engine targets little-endian machines, so the byte image of an integer
 * of width `w` bytes is `Encode(v, w)`: the least significant byte first.
 */
module Bytes {

  /** One byte of a buffer. */
  type Byte = b: int | 0 <= b < 256

  /** The widths, in bytes, of the integer types the engine mutates
      (uint8_t, uint16_t, uint32_t and uint64_t). */
  type Width = w: nat | w == 1 || w == 2 || w == 4 || w == 8 witness 1

  /** 256 to the power `n`: the number of distinct values of an `n`-byte integer. */
  function Pow256(n: nat): (p: nat)
    ensures p >= 1
  {
    if n == 0 then 1 else 256 * Pow256(n - 1)
  }

  /** The `w`-byte little-endian image of `v`. For a negative `v` this is its
      two's complement bit pattern, because `%` and `/` are Euclidean. */
  function Encode(v: int, w: nat): (bs: seq<Byte>)
    ensures |bs| == w
    decreases w
  {
    if w == 0 then [] else [v % 256] + Encode(v / 256, w - 1)
  }

  /** The unsigned integer whose little-endian image is `bs`. */
  function Decode(bs: seq<Byte>): (v: nat)
    ensures v < Pow256(|bs|)
  {
    if bs == [] then 0 else bs[0] + 256 * Decode(bs[1..])
  }

  /** The bytes of `s` in the opposite order. */
  function Reverse<T>(s: seq<T>): (r: seq<T>)
    ensures |r| == |s|
  {
    if s == [] then [] else Reverse(s[1..]) + [s[0]]
  }

  /** Swaps the byte order of the `w`-byte bit pattern of `v` and returns the
      resulting pattern as an unsigned integer. */
  function SwapEndian(v: int, w: nat): (r: nat)
    ensures r < Pow256(w)
  {
    Decode(Reverse(Encode(v, w)))
  }

  /** The value of type intN_t (N = 8 * w) whose bit pattern is `u`. */
  function ToSigned(u: nat, w: nat): (r: int)
    requires u < Pow256(w)
    ensures -(Pow256(w) as int) <= 2 * r < Pow256(w)
    ensures r % Pow256(w) == u
  {
    var P := Pow256(w);
    if 2 * u < P then
      DivModUnique(u, P, 0, u);
      u
    else
      var r := u - P;
      DivModUnique(r, P, -1, u);
      r
  }

  /** `v` is a value of some N-bit integer type, signed or unsigned (N = 8 * w). */
  predicate FitsIn(v: int, w: nat)
  {
    -(Pow256(w) as int) <= 2 * v < 2 * Pow256(w)
  }

  // ---------------------------------------------------------------------------
  // Arithmetic helpers

  /** A positive multiple of a positive number is at least that number. */
  lemma {:induction false} MulAtLeast(m: int, x: int)
    requires m > 0 && x >= 1
    ensures m * x >= m
    decreases x
  {
    if x > 1 {
      MulAtLeast(m, x - 1);
      assert m * x == m * (x - 1) + m;
    }
  }

  /** Euclidean division is unique. */
  lemma DivModUnique(v: int, m: int, q: int, r: int)
    requires m > 0 && v == m * q + r && 0 <= r < m
    ensures v / m == q && v % m == r
  {
    var q0, r0 := v / m, v % m;
    var d := q - q0;
    assert m * d == r0 - r;
    if d >= 1 {
      MulAtLeast(m, d);
    } else if d <= -1 {
      MulAtLeast(m, -d);
    }
  }

  /** Taking `v` modulo 256^(n+1) keeps its low byte and its higher bytes modulo 256^n. */
  lemma ModPow256Step(v: int, n: nat)
    ensures v % Pow256(n + 1) == v % 256 + 256 * ((v / 256) % Pow256(n))
  {
    var P := Pow256(n);
    var q, r := v / 256, v % 256;
    var a, b := q / P, q % P;
    assert q == P * a + b;
    assert v == 256 * q + r;
    assert v == (256 * P) * a + (256 * b + r) by {
      assert 256 * q == 256 * (P * a) + 256 * b;
      assert 256 * (P * a) == (256 * P) * a;
    }
    assert 256 * b + r < 256 * P by {
      assert b <= P - 1;
      assert 256 * b <= 256 * (P - 1);
    }
    DivModUnique(v, 256 * P, a, 256 * b + r);
  }

  // ---------------------------------------------------------------------------
  // Encoding round trips

  /** Decoding the `w`-byte image of `v` gives `v` modulo 256^w: for an
      unsigned `v` of that width, `v` itself. */
  lemma {:induction false} DecodeEncode(v: int, w: nat)
    ensures Decode(Encode(v, w)) == v % Pow256(w)
    decreases w
  {
    if w == 0 {
    } else {
      DecodeEncode(v / 256, w - 1);
      ModPow256Step(v, w - 1);
      assert Encode(v, w)[1..] == Encode(v / 256, w - 1);
    }
  }

  /** Encoding the value of a byte sequence gives that byte sequence back. */
  lemma {:induction false} EncodeDecode(bs: seq<Byte>)
    ensures Encode(Decode(bs), |bs|) == bs
  {
    if bs != [] {
      var d := Decode(bs[1..]);
      DivModUnique(Decode(bs), 256, d, bs[0]);
      EncodeDecode(bs[1..]);
      assert bs == [bs[0]] + bs[1..];
    }
  }

  /** Only the value modulo 256^w matters to the `w`-byte image. */
  lemma EncodeMod(v: int, w: nat)
    ensures Encode(v % Pow256(w), w) == Encode(v, w)
  {
    DecodeEncode(v, w);
    EncodeDecode(Encode(v, w));
  }

  /** Two values have the same `w`-byte image exactly when they agree modulo 256^w. */
  lemma EncodeInjective(u: int, v: int, w: nat)
    ensures Encode(u, w) == Encode(v, w) <==> u % Pow256(w) == v % Pow256(w)
  {
    DecodeEncode(u, w);
    DecodeEncode(v, w);
    EncodeMod(u, w);
    EncodeMod(v, w);
  }

  // ---------------------------------------------------------------------------
  // Byte reversal

  /** Element `k` of the reversal is element `|s| - 1 - k` of the original. */
  lemma {:induction false} ReverseAt<T>(s: seq<T>, k: nat)
    requires k < |s|
    ensures Reverse(s)[k] == s[|s| - 1 - k]
  {
    if k < |s| - 1 {
      ReverseAt(s[1..], k);
    }
  }

  /** Reversing twice restores the sequence. */
  lemma ReverseReverse<T>(s: seq<T>)
    ensures Reverse(Reverse(s)) == s
  {
    forall k | 0 <= k < |s|
      ensures Reverse(Reverse(s))[k] == s[k]
    {
      ReverseAt(Reverse(s), k);
      ReverseAt(s, |s| - 1 - k);
    }
  }

  /** The image of the swapped value is the reversed image of the value. */
  lemma SwapEndianBytes(v: int, w: nat)
    ensures Encode(SwapEndian(v, w), w) == Reverse(Encode(v, w))
  {
    EncodeDecode(Reverse(Encode(v, w)));
  }

  /** Swapping the byte order twice restores the bit pattern, and a single
      byte has only one byte order. */
  lemma SwapEndianInvolution(v: int, w: nat)
    ensures SwapEndian(SwapEndian(v, w), w) == v % Pow256(w)
    ensures w == 1 ==> SwapEndian(v, w) == v % 256
  {
    SwapEndianBytes(v, w);
    ReverseReverse(Encode(v, w));
    DecodeEncode(v, w);
    if w == 1 {
      assert Reverse(Encode(v, 1)) == Encode(v, 1);
    }
  }

  /** Byte `k` of the swapped value is byte `w - 1 - k` of the value. */
  lemma SwapEndianByteAt(v: int, w: nat, k: nat)
    requires k < w
    ensures Encode(SwapEndian(v, w), w)[k] == Encode(v, w)[w - 1 - k]
  {
    SwapEndianBytes(v, w);
    ReverseAt(Encode(v, w), k);
  }

  /** Reading a value back through `ToSigned` and the `w`-byte pattern is lossless. */
  lemma ToSignedEncode(u: nat, w: nat)
    requires u < Pow256(w)
    ensures Encode(ToSigned(u, w), w) == Encode(u, w)
  {
    EncodeMod(ToSigned(u, w), w);
    EncodeMod(u, w);
    DivModUnique(u, Pow256(w), 0, u);
  }
}
