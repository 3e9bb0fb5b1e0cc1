/**
 * The interesting-integer table of CAFLMutationFunctions: the seed lists of
 * signed 8-, 16-, 32- and 64-bit boundary values, each wider list followed
 * by the byte-swapped form of each of its seeds, all sign-extended to size_t
 * and stored one list after the other. The table is neither sorted nor free
 * of duplicates.
 */
module AFLTable {
  import opened Bytes

  /** int8_t seeds: INT8_MIN, -1, 0, 1, 16, 32, 100, INT8_MAX. */
  const Interesting8: seq<int> := [-128, -1, 0, 1, 16, 32, 100, 127]

  /** int16_t seeds; INT16_MIN appears first and last. */
  const Interesting16: seq<int> := [-32768, -129, 128, 255, 256, 512, 1000, 1024, 4096, -32768]

  /** int32_t seeds, with the two endian-agnostic large numbers. */
  const Interesting32: seq<int> := [-2147483648, 100663046, -32769, 32768, 65535, 65536, 100663045, 2147483647]

  /** int64_t seeds. */
  const Interesting64: seq<int> :=
    [-0x8000_0000_0000_0000, -2147483649, 2147483648, 4294967295, 4294967296, 0x7FFF_FFFF_FFFF_FFFF]

  /** 2^64: the number of size_t values. */
  const SizeTModulus: nat := 0x1_0000_0000_0000_0000

  /** The value of type intN_t (N = 8 * w) whose bytes are those of `v` in
      the opposite order: the unsigned swap converted back to the signed type. */
  function OtherEndian(v: int, w: nat): (r: int)
  {
    ToSigned(SwapEndian(v, w), w)
  }

  /** A seed list after AddOtherEndian: the list, then the other-endian form
      of each of its entries in order. */
  function WithOtherEndian(vs: seq<int>, w: nat): (r: seq<int>)
    ensures |r| == 2 * |vs|
  {
    vs + seq(|vs|, i requires 0 <= i < |vs| => OtherEndian(vs[i], w))
  }

  /** `static_cast<size_t>` of a signed value: its two's complement pattern
      in 64 bits, so a negative value is sign-extended. */
  function SizeT(v: int): (r: nat)
    ensures r < SizeTModulus
  {
    v % SizeTModulus
  }

  /** Every entry of a list converted to size_t. */
  function AsSizeT(vs: seq<int>): (r: seq<nat>)
    ensures |r| == |vs|
  {
    seq(|vs|, i requires 0 <= i < |vs| => SizeT(vs[i]))
  }

  /** m_vecInterestingInts as the constructor leaves it. */
  function LegacyTable(): seq<nat>
  {
    AsSizeT(Interesting8)
    + AsSizeT(WithOtherEndian(Interesting16, 2))
    + AsSizeT(WithOtherEndian(Interesting32, 4))
    + AsSizeT(WithOtherEndian(Interesting64, 8))
  }

  /** m_uiIteresting8Bit … m_uiIteresting64Bit: the length of each width's
      list, which GetInterestingValues uses as the length of a prefix of the
      whole table. */
  function LegacyCount(w: Width): nat
  {
    match w
    case 1 => |Interesting8|
    case 2 => |WithOtherEndian(Interesting16, 2)|
    case 4 => |WithOtherEndian(Interesting32, 4)|
    case 8 => |WithOtherEndian(Interesting64, 8)|
  }

  /** The span GetInterestingValues returns for a width. */
  function LegacySpan(w: Width): seq<nat>
  {
    var t := LegacyTable();
    LegacyTableLayout();
    t[..LegacyCount(w)]
  }

  /** The table holds 8 + 20 + 16 + 12 = 56 entries, one list after the
      other in width order, every one a size_t value; the per-width counts
      are 8, 20, 16 and 12, so every span lies within the table. */
  lemma LegacyTableLayout()
    ensures |LegacyTable()| == 56
    ensures LegacyCount(1) == 8 && LegacyCount(2) == 20 && LegacyCount(4) == 16 && LegacyCount(8) == 12
    ensures forall w: Width :: LegacyCount(w) <= |LegacyTable()|
    ensures LegacyTable()[..8] == AsSizeT(Interesting8)
    ensures LegacyTable()[8..28] == AsSizeT(WithOtherEndian(Interesting16, 2))
    ensures LegacyTable()[28..44] == AsSizeT(WithOtherEndian(Interesting32, 4))
    ensures LegacyTable()[44..] == AsSizeT(WithOtherEndian(Interesting64, 8))
    ensures forall i :: 0 <= i < |LegacyTable()| ==> LegacyTable()[i] < SizeTModulus
  {
    var a := AsSizeT(Interesting8);
    var b := AsSizeT(WithOtherEndian(Interesting16, 2));
    var c := AsSizeT(WithOtherEndian(Interesting32, 4));
    var d := AsSizeT(WithOtherEndian(Interesting64, 8));
    assert LegacyTable() == a + b + c + d;
    assert (a + b + c + d)[..8] == a;
    assert (a + b + c + d)[8..28] == b;
    assert (a + b + c + d)[28..44] == c;
    assert (a + b + c + d)[44..] == d;
  }

  /** The conversion to size_t sign-extends: INT8_MIN becomes
      0xFFFFFFFFFFFFFF80 and -1 becomes 2^64 - 1, not 0x80 and 0xFF. */
  lemma LegacyTableSignExtends()
    ensures LegacyTable()[0] == 0xFFFF_FFFF_FFFF_FF80
    ensures LegacyTable()[1] == 0xFFFF_FFFF_FFFF_FFFF
  {
    LegacyTableLayout();
    assert LegacyTable()[0] == AsSizeT(Interesting8)[0];
    assert LegacyTable()[1] == AsSizeT(Interesting8)[1];
  }

  /** The table is not sorted (entry 1 exceeds entry 2) and not free of
      duplicates (INT16_MIN is stored at index 8 and again at index 17). */
  lemma LegacyTableUnsortedWithDuplicates()
    ensures LegacyTable()[1] > LegacyTable()[2]
    ensures LegacyTable()[8] == LegacyTable()[17]
  {
    LegacyTableLayout();
    LegacyTableSignExtends();
    assert LegacyTable()[2] == AsSizeT(Interesting8)[2];
    assert LegacyTable()[8] == AsSizeT(WithOtherEndian(Interesting16, 2))[0];
    assert LegacyTable()[17] == AsSizeT(WithOtherEndian(Interesting16, 2))[9];
  }

  /** Because the counts are not cumulative, the span of every width lies in
      the 8- and 16-bit part of the table (its first 28 entries): the 64-bit
      span is the eight 8-bit values and the first four 16-bit seeds, and no
      span reaches a 32- or 64-bit seed. */
  lemma LegacySpansStayInNarrowPart(w: Width)
    ensures LegacyCount(w) <= 28
    ensures LegacySpan(w) == LegacyTable()[..28][..LegacyCount(w)]
    ensures LegacySpan(8) == AsSizeT(Interesting8) + AsSizeT(Interesting16[..4])
  {
    LegacyTableLayout();
    var t := LegacyTable();
    assert t[..28][..LegacyCount(w)] == t[..LegacyCount(w)];
    assert t[..12] == t[..8] + t[8..28][..4];
    assert AsSizeT(WithOtherEndian(Interesting16, 2))[..4] == AsSizeT(Interesting16[..4]);
  }

  // ---------------------------------------------------------------------------
  // The other-endian form

  /** A value of the signed N-bit type survives the trip to its bit pattern and back. */
  lemma ToSignedOfSigned(v: int, w: nat)
    requires -(Pow256(w) as int) <= 2 * v < Pow256(w)
    ensures ToSigned(v % Pow256(w), w) == v
  {
    var P := Pow256(w);
    if v >= 0 {
      DivModUnique(v, P, 0, v);
    } else {
      DivModUnique(v, P, -1, v + P);
    }
  }

  /** The other-endian form is a value of the signed type, and taking it
      twice gives back any value of that type. */
  lemma OtherEndianInvolution(v: int, w: nat)
    requires -(Pow256(w) as int) <= 2 * v < Pow256(w)
    ensures -(Pow256(w) as int) <= 2 * OtherEndian(v, w) < Pow256(w)
    ensures OtherEndian(OtherEndian(v, w), w) == v
  {
    var P := Pow256(w);
    var u := SwapEndian(v, w);
    // The swap of the signed value only depends on its bit pattern.
    ToSignedEncode(u, w);
    assert SwapEndian(ToSigned(u, w), w) == SwapEndian(u, w);
    SwapEndianInvolution(v, w);
    ToSignedOfSigned(v, w);
  }

  /** A 1-byte value has only one byte order. */
  lemma OtherEndianOneByte(v: int)
    requires -128 <= v < 128
    ensures OtherEndian(v, 1) == v
  {
    SwapEndianInvolution(v, 1);
    ToSignedOfSigned(v, 1);
  }

  /** The list after AddOtherEndian keeps the seeds as its first half, and
      its second half holds the swapped form of each seed in order. */
  lemma WithOtherEndianShape(vs: seq<int>, w: nat)
    ensures WithOtherEndian(vs, w)[..|vs|] == vs
    ensures forall j :: 0 <= j < |vs| ==> WithOtherEndian(vs, w)[|vs| + j] == OtherEndian(vs[j], w)
  {
  }

  /** AddOtherEndian: appends the other-endian form of every current entry
      of the list (not of the entries it appends). */
  method AddOtherEndian(vec: seq<int>, w: Width) returns (r: seq<int>)
    ensures r == WithOtherEndian(vec, w)
  {
    r := vec;
    var sizeItems := |vec|;
    var i := 0;
    while i < sizeItems
      invariant 0 <= i <= sizeItems
      invariant r == vec + seq(i, j requires 0 <= j < i => OtherEndian(vec[j], w))
    {
      assert r[i] == vec[i];
      ghost var swapped := seq(i, j requires 0 <= j < i => OtherEndian(vec[j], w));
      assert seq(i + 1, j requires 0 <= j < i + 1 => OtherEndian(vec[j], w)) == swapped + [OtherEndian(vec[i], w)];
      r := r + [OtherEndian(r[i], w)];
      i := i + 1;
    }
  }

  /** The constructor's loops that push every entry of a list, converted to
      size_t, onto the table. */
  method AppendAsSizeT(target: seq<nat>, source: seq<int>) returns (r: seq<nat>)
    ensures r == target + AsSizeT(source)
  {
    r := target;
    var i := 0;
    while i < |source|
      invariant 0 <= i <= |source|
      invariant r == target + AsSizeT(source[..i])
    {
      assert AsSizeT(source[..i + 1]) == AsSizeT(source[..i]) + [SizeT(source[i])];
      r := r + [SizeT(source[i])];
      i := i + 1;
    }
    assert source[..i] == source;
  }
}
