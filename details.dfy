/**
 * AFLMutationFunctions::Details: the helpers of the newer, range-based
 * implementation of the mutation functions: byte reversal and widening of
 * integers, the sorted table of interesting integers, the tagged wrapper
 * around mutation functions and the filter that picks the ones a value's
 * size allows, random window selection, and filling a window with cloned or
 * repeated bytes.
 */
module Details {
  import opened Bytes
  import opened Memory
  import opened Random
  import AFLTable
  import opened Algorithms
  import opened DetailsRanges

  // ---------------------------------------------------------------------------
  // Byte reversal and widening

  /** SwapEndian<T>: the value of T whose bytes are those of `value` in the
      opposite order (std::bit_cast of the reversed byte array). */
  function SwapEndianOf(value: int, width: Width, isSigned: bool): (r: int)
    ensures if isSigned then -(Pow256(width) as int) <= 2 * r < Pow256(width) else 0 <= r < Pow256(width)
  {
    var u := Bytes.SwapEndian(value, width);
    if isSigned then ToSigned(u, width) else u
  }

  /** The bytes of the result are the bytes of the argument reversed. */
  lemma SwapEndianOfBytes(value: int, width: Width, isSigned: bool)
    ensures Encode(SwapEndianOf(value, width, isSigned), width) == Reverse(Encode(value, width))
  {
    var u := Bytes.SwapEndian(value, width);
    SwapEndianBytes(value, width);
    if isSigned {
      ToSignedEncode(u, width);
    }
  }

  /** Reversing the bytes twice gives back every value of T, and a
      one-byte type has only one byte order. */
  lemma SwapEndianOfInvolution(value: int, width: Width, isSigned: bool)
    requires if isSigned then -(Pow256(width) as int) <= 2 * value < Pow256(width) else 0 <= value < Pow256(width)
    ensures SwapEndianOf(SwapEndianOf(value, width, isSigned), width, isSigned) == value
    ensures width == 1 ==> SwapEndianOf(value, width, isSigned) == value
  {
    if isSigned {
      AFLTable.OtherEndianInvolution(value, width);
      if width == 1 {
        AFLTable.OtherEndianOneByte(value);
      }
    } else {
      SwapEndianInvolution(value, width);
      DivModUnique(value, Pow256(width), 0, value);
    }
  }

    /** The three steps of swapping 0x1000000000000000: its image, the image
      reversed, and the value of the reversed image. */
  lemma EncodeHighNibble()
    ensures Encode(0x1000_0000_0000_0000, 8) == [0, 0, 0, 0, 0, 0, 0, 16]
  {
  }

  lemma ReverseHighNibble()
    ensures Reverse([0, 0, 0, 0, 0, 0, 0, 16]) == [16, 0, 0, 0, 0, 0, 0, 0]
  {
    assert [0, 0, 0, 0, 0, 0, 0, 16] == Zeros(7) + [16];
    assert [16, 0, 0, 0, 0, 0, 0, 0] == [16] + Zeros(7);
    ReverseZerosThen(7, 16);
  }

  /** Reversing zeros followed by one byte puts that byte first. */
  lemma {:induction false} ReverseZerosThen(n: nat, b: Byte)
    ensures Reverse(Zeros(n) + [b]) == [b] + Zeros(n)
  {
    if n > 0 {
      assert (Zeros(n) + [b])[1..] == Zeros(n - 1) + [b];
      assert (Zeros(n) + [b])[0] == 0;
      ReverseZerosThen(n - 1, b);
      assert Zeros(n - 1) + [0] == Zeros(n);
    } else {
      assert Zeros(n) + [b] == [b];
    }
  }

  lemma DecodeLowNibble()
    ensures Decode([16, 0, 0, 0, 0, 0, 0, 0]) == 16
  {
  }

  /** The compile-time checks of SwapEndian: a byte is unchanged, and
      0x1000000000000000 reversed in 8 bytes is 0x10. */
  lemma SwapEndianExamples()
    ensures SwapEndianOf(1, 1, false) == 1
    ensures SwapEndianOf(0x1000_0000_0000_0000, 8, false) == 0x10
  {
    SwapEndianOfInvolution(1, 1, false);
    EncodeHighNibble();
    ReverseHighNibble();
    DecodeLowNibble();
  }


  /** `n` zero bytes. */
  function Zeros(n: nat): (z: seq<Byte>)
    ensures |z| == n
  {
    seq(n, _ => 0)
  }

  /** ReinterpretInt<To, From>: the bytes of `from` copied into a zeroed
      integer of the wider type To, read back as an unsigned number; the
      value is that of the bit pattern of `from`. */
  function ReinterpretInt(from: int, fromWidth: Width, toWidth: Width): (r: nat)
    requires fromWidth <= toWidth
    ensures r < Pow256(fromWidth)
  {
    from % Pow256(fromWidth)
  }

  /** Zero bytes at the most significant end do not change a number. */
  lemma {:induction false} DecodeZeros(bs: seq<Byte>, n: nat)
    ensures Decode(bs + Zeros(n)) == Decode(bs)
    decreases |bs| + n
  {
    if bs == [] {
      if n > 0 {
        assert bs + Zeros(n) == Zeros(n);
        assert Zeros(n)[1..] == [] + Zeros(n - 1);
        DecodeZeros([], n - 1);
      }
    } else {
      assert (bs + Zeros(n))[1..] == bs[1..] + Zeros(n);
      DecodeZeros(bs[1..], n);
    }
  }

  /** Widening is a byte copy: the To-wide image of the result is the image
      of `from` followed by zero bytes, so a negative value is zero-extended,
      not sign-extended. */
  lemma ReinterpretIntBytes(from: int, fromWidth: Width, toWidth: Width)
    requires fromWidth <= toWidth
    ensures Encode(ReinterpretInt(from, fromWidth, toWidth), toWidth) == Encode(from, fromWidth) + Zeros(toWidth - fromWidth)
  {
    var bs := Encode(from, fromWidth) + Zeros(toWidth - fromWidth);
    DecodeZeros(Encode(from, fromWidth), toWidth - fromWidth);
    DecodeEncode(from, fromWidth);
    EncodeDecode(bs);
  }

  /** The compile-time check of ReinterpretInt: int8_t -1 widened to
      uint64_t is 0xff. */
  lemma ReinterpretIntExample()
    ensures ReinterpretInt(-1, 1, 8) == 0xff
  {
  }

  // ---------------------------------------------------------------------------
  // The interesting integers

  /** int8_t seeds. */
  const Interesting8: seq<int> := [-128, -1, 0, 1, 16, 32, 100, 127]

  /** int16_t seeds. The bounds of int8_t are widened before the +/-1, so
      INT8_MIN - 1 comes out as 127; INT16_MIN appears first and last. */
  const Interesting16: seq<int> :=
    [ -1, -32768, ReinterpretInt(-128, 1, 2) - 1, ReinterpretInt(127, 1, 2) + 1,
      ReinterpretInt(255, 1, 2) + 1, 512, 1000, 1024, 4096, -32768 ]

  /** int32_t seeds, with the two endian-agnostic large numbers. */
  const Interesting32: seq<int> :=
    [ -1, -2147483648, 100663046, ReinterpretInt(-32768, 2, 4) - 1, ReinterpretInt(32767, 2, 4) + 1,
      ReinterpretInt(65535, 2, 4) + 1, 100663045, 2147483647 ]

  /** int64_t seeds. */
  const Interesting64: seq<int> :=
    [ -1, -0x8000_0000_0000_0000, ReinterpretInt(-2147483648, 4, 8) - 1, ReinterpretInt(2147483647, 4, 8) + 1,
      4294967295, ReinterpretInt(4294967295, 4, 8) + 1, 0x7FFF_FFFF_FFFF_FFFF ]

  /** What AddValuesAndTheirSwappedEndians appends for `source`: each value
      widened to uint64_t, followed by its byte-swapped form widened. */
  function Paired(source: seq<int>, width: Width): (r: seq<nat>)
    ensures |r| == 2 * |source|
  {
    seq(2 * |source|, k requires 0 <= k < 2 * |source| =>
      var value := source[k / 2];
      if k % 2 == 0 then ReinterpretInt(value, width, 8) else ReinterpretInt(SwapEndianOf(value, width, true), width, 8))
  }

  /** The entries for seed `i` are at 2i (the value) and 2i + 1 (the swapped value). */
  lemma PairedAt(source: seq<int>, width: Width, i: nat)
    requires i < |source|
    ensures Paired(source, width)[2 * i] == ReinterpretInt(source[i], width, 8)
    ensures Paired(source, width)[2 * i + 1] == ReinterpretInt(SwapEndianOf(source[i], width, true), width, 8)
  {
    assert (2 * i) / 2 == i && (2 * i + 1) / 2 == i;
  }

  /** Appending a seed appends its pair. */
  lemma PairedSnoc(source: seq<int>, value: int, width: Width)
    ensures Paired(source + [value], width)
         == Paired(source, width) + [ReinterpretInt(value, width, 8), ReinterpretInt(SwapEndianOf(value, width, true), width, 8)]
  {
    var l := Paired(source + [value], width);
    var r := Paired(source, width) + [ReinterpretInt(value, width, 8), ReinterpretInt(SwapEndianOf(value, width, true), width, 8)];
    forall k | 0 <= k < |l|
      ensures l[k] == r[k]
    {
      if k < 2 * |source| {
        assert k / 2 < |source|;
      } else {
        assert k / 2 == |source|;
      }
    }
  }

  /** AddValuesAndTheirSwappedEndians: appends, for every source value in
      order, the value and its byte-swapped form, both widened to uint64_t;
      the entries already in the target are kept. */
  method AddValuesAndTheirSwappedEndians(source: seq<int>, width: Width, target: seq<nat>) returns (r: seq<nat>)
    ensures r == target + Paired(source, width)
    ensures |r| == |target| + 2 * |source| && r[..|target|] == target
  {
    r := target;
    var i := 0;
    while i < |source|
      invariant 0 <= i <= |source|
      invariant r == target + Paired(source[..i], width)
    {
      var value := source[i];
      assert source[..i + 1] == source[..i] + [value];
      PairedSnoc(source[..i], value, width);
      r := r + [ReinterpretInt(value, width, 8)];
      r := r + [ReinterpretInt(SwapEndianOf(value, width, true), width, 8)];
      i := i + 1;
    }
    assert source[..i] == source;
  }

  /** The table before sorting: the pairs of all four seed lists. */
  function RawInteresting(): seq<nat>
  {
    Paired(Interesting8, 1) + Paired(Interesting16, 2) + Paired(Interesting32, 4) + Paired(Interesting64, 8)
  }

  /** A seed's widened value is among the entries its list contributes. */
  lemma PairedContains(source: seq<int>, width: Width, i: nat)
    requires i < |source|
    ensures ReinterpretInt(source[i], width, 8) in Paired(source, width)
  {
    PairedAt(source, width, i);
    assert 2 * i < |Paired(source, width)|;
  }

  /** 0 and -1 widened from 8 bits are among the 8-bit entries. */
  lemma Paired8Contains()
    ensures 0 in Paired(Interesting8, 1) && 0xff in Paired(Interesting8, 1)
  {
    assert Interesting8[1] == -1 && Interesting8[2] == 0;
    assert ReinterpretInt(-1, 1, 8) == 0xff && ReinterpretInt(0, 1, 8) == 0;
    PairedContains(Interesting8, 1, 1);
    PairedContains(Interesting8, 1, 2);
  }

  /** -1 widened from 16 bits is among the 16-bit entries. */
  lemma Paired16Contains()
    ensures 0xffff in Paired(Interesting16, 2)
  {
    MinusOneWidened(Interesting16, 2);
  }

  /** -1 widened from 32 bits is among the 32-bit entries. */
  lemma Paired32Contains()
    ensures 0xffffffff in Paired(Interesting32, 4)
  {
    MinusOneWidened(Interesting32, 4);
  }

  /** A list starting with -1 contributes the all-ones value of its width. */
  lemma MinusOneWidened(source: seq<int>, width: Width)
    requires |source| > 0 && source[0] == -1
    ensures Pow256(width) - 1 in Paired(source, width)
  {
    var P := Pow256(width);
    PairedAt(source, width, 0);
    DivModUnique(-1, P, -1, P - 1);
    assert Paired(source, width)[0] == P - 1;
  }

  /** An entry of one of four lists is an entry of their concatenation. */
  lemma InConcatenation(a: seq<nat>, b: seq<nat>, c: seq<nat>, d: seq<nat>)
    ensures forall x :: x in a || x in b || x in c || x in d ==> x in a + b + c + d
  {
  }

  /** The numbers the compile-time checks look for are among the raw entries:
      0, and -1 widened from 8, 16 and 32 bits. */
  lemma RawInterestingContains()
    ensures 0 in RawInteresting() && 0xff in RawInteresting()
    ensures 0xffff in RawInteresting() && 0xffffffff in RawInteresting()
  {
    var a, b, c, d := Paired(Interesting8, 1), Paired(Interesting16, 2), Paired(Interesting32, 4), Paired(Interesting64, 8);
    Paired8Contains();
    Paired16Contains();
    Paired32Contains();
    InConcatenation(a, b, c, d);
  }

  /** GetInteresting: every seed and its swapped form widened to uint64_t,
      sorted, with duplicates erased. */
  method GetInteresting() returns (r: seq<nat>)
    ensures StrictlyIncreasing(r)
    ensures forall x :: x in r <==> x in RawInteresting()
    ensures 0 in r && 0xff in r && 0xffff in r && 0xffffffff in r
  {
    var vec: seq<nat> := [];
    vec := AddValuesAndTheirSwappedEndians(Interesting8, 1, vec);
    vec := AddValuesAndTheirSwappedEndians(Interesting16, 2, vec);
    vec := AddValuesAndTheirSwappedEndians(Interesting32, 4, vec);
    vec := AddValuesAndTheirSwappedEndians(Interesting64, 8, vec);
    assert vec == RawInteresting();
    var a := new nat[|vec|](i requires 0 <= i < |vec| => vec[i]);
    assert a[..] == vec;
    Sort(a);
    ghost var sorted := a[..];
    var removed := Unique(a);
    r := a[..removed];
    DedupFacts(sorted);
    forall x
      ensures x in r <==> x in RawInteresting()
    {
      assert x in sorted <==> x in multiset(sorted);
      assert x in vec <==> x in multiset(vec);
    }
    RawInterestingContains();
  }

  // ---------------------------------------------------------------------------
  // Maximum values

  /** The narrowest of uint8_t, uint16_t, uint32_t and uint64_t that holds
      `bits` bits (uint64_t for anything wider). */
  function WidthForBits(bits: nat): Width
  {
    if bits <= 8 then 1 else if bits <= 16 then 2 else if bits <= 32 then 4 else 8
  }

  /** MaxIntWithSize: the largest value of an 8-, 16-, 32- or 64-bit
      unsigned integer, chosen by a width in bits. */
  function MaxIntWithSize(bits: nat): (r: nat)
    requires bits < 256
    ensures r == Pow256(WidthForBits(bits)) - 1
  {
    assert Pow256(1) == 0x100;
    assert Pow256(2) == 0x1_0000;
    assert Pow256(4) == 0x1_0000_0000;
    assert Pow256(8) == 0x1_0000_0000_0000_0000;
    if bits <= 8 then 0xff
    else if bits <= 16 then 0xffff
    else if bits <= 32 then 0xffff_ffff
    else 0xffff_ffff_ffff_ffff
  }

  /** The bound is the all-ones value of the narrowest unsigned type that
      holds `bits` bits (uint64_t beyond 64 bits), so every value of that
      many bits is at or below it; it grows with `bits`. The compile-time
      checks 1, 9, 18 and 33 bits give 0xff, 0xffff, 0xffffffff and 2^64 - 1. */
  lemma MaxIntWithSizeFacts(bits: nat, more: nat)
    requires bits <= more < 256
    ensures MaxIntWithSize(bits) == Pow256(WidthForBits(bits)) - 1
    ensures bits <= 64 ==> bits <= 8 * WidthForBits(bits)
    ensures WidthForBits(bits) > 1 ==> 4 * WidthForBits(bits) < bits
    ensures MaxIntWithSize(bits) <= MaxIntWithSize(more)
    ensures MaxIntWithSize(1) == 0xff && MaxIntWithSize(9) == 0xffff
    ensures MaxIntWithSize(18) == 0xffff_ffff && MaxIntWithSize(33) == 0xffff_ffff_ffff_ffff
  {
  }

  /** The number of leading entries of `table` at or below `bound`. */
  function CountAtMost(table: seq<nat>, bound: nat): (k: nat)
    ensures k <= |table|
  {
    if table == [] || table[0] > bound then 0 else 1 + CountAtMost(table[1..], bound)
  }

  /** In a sorted table the entries at or below any bound form a prefix: the
      leading run found by one scan from the front holds every such entry. */
  lemma {:induction false} BoundedPrefix(table: seq<nat>, bound: nat)
    requires Sorted(table)
    ensures forall i :: 0 <= i < CountAtMost(table, bound) ==> table[i] <= bound
    ensures forall i :: CountAtMost(table, bound) <= i < |table| ==> table[i] > bound
  {
    if table != [] {
      assert Sorted(table[1..]);
      BoundedPrefix(table[1..], bound);
      if table[0] > bound {
        assert forall i :: 0 <= i < |table| ==> table[0] <= table[i];
      } else {
        assert forall i :: 1 <= i < |table| ==> table[i] == table[1..][i - 1];
      }
    }
  }

  /** A larger bound never ends the leading run sooner. */
  lemma {:induction false} CountAtMostMonotone(table: seq<nat>, b: nat, c: nat)
    requires b <= c
    ensures CountAtMost(table, b) <= CountAtMost(table, c)
  {
    if table != [] && table[0] <= b {
      CountAtMostMonotone(table[1..], b, c);
    }
  }

  /** An interesting-value table (sorted without duplicates, as GetInteresting
      returns it) cut at MaxIntWithSize(bits): the entries before the cut are
      exactly those that fit the narrowest unsigned type of `bits` bits, and
      a wider type never keeps fewer of them. */
  lemma InterestingFitting(table: seq<nat>, bits: nat, more: nat)
    requires StrictlyIncreasing(table)
    requires bits <= more < 256
    ensures var n := CountAtMost(table, MaxIntWithSize(bits));
      (forall i :: 0 <= i < n ==> table[i] < Pow256(WidthForBits(bits))) &&
      (forall i :: n <= i < |table| ==> table[i] >= Pow256(WidthForBits(bits)))
    ensures CountAtMost(table, MaxIntWithSize(bits)) <= CountAtMost(table, MaxIntWithSize(more))
  {
    var b, c := MaxIntWithSize(bits), MaxIntWithSize(more);
    MaxIntWithSizeFacts(bits, more);
    assert Sorted(table);
    BoundedPrefix(table, b);
    CountAtMostMonotone(table, b, c);
  }

  // ---------------------------------------------------------------------------
  // Mutations treated alike

  /** A std::span into the buffer: where it starts and how many bytes it holds. */
  datatype Span = Span(offset: nat, length: nat)

  /** Which way a mutation changes the size of the value. */
  datatype MutationType = Constant | Reducing | Increasing

  /** A size-constant mutation: rewrites the bytes of the value in place. */
  type ConstantOperation = f: seq<Byte> -> seq<Byte> | forall v :: |f(v)| == |v|
    witness (v: seq<Byte>) => v

  /** A size-reducing mutation: rewrites the value in place and returns the
      span of it that holds the new, smaller value. */
  type ReducingOperation = f: seq<Byte> -> (seq<Byte>, Span)
    | forall v :: |f(v).0| == |v| && f(v).1.offset + f(v).1.length <= |v|
    witness (v: seq<Byte>) => (v, Span(0, |v|))

  /** A size-increasing mutation: gets the whole buffer and the size of the
      value, rewrites the buffer in place and returns the span of the new value. */
  type IncreasingOperation = f: (seq<Byte>, nat) -> (seq<Byte>, Span)
    | forall b, n :: |f(b, n).0| == |b| && f(b, n).1.offset + f(b, n).1.length <= |b|
    witness (b: seq<Byte>, n: nat) => (b, Span(0, |b|))

  /** The common call signature: maps the buffer and the value size to the
      new buffer contents and the span of the new value. Every wrapped
      operation writes through a span of fixed length, so the buffer keeps
      its size and the returned span lies within it. */
  type MutationFunction = f: (seq<Byte>, nat) -> (seq<Byte>, Span)
    | forall b: seq<Byte>, n: nat :: n <= |b| ==> |f(b, n).0| == |b| && f(b, n).1.offset + f(b, n).1.length <= |b|
    witness (b: seq<Byte>, n: nat) => (b, Span(0, |b|))

  /** Mutation: one call signature for all three kinds, plus the kind; the
      function is only called with a size that fits the buffer. */
  datatype Mutation = Mutation(mutationType: MutationType, fMutation: MutationFunction)
  {
    predicate IsReducing() { mutationType == Reducing }
    predicate IsIncreasing() { mutationType == Increasing }
    predicate IsConstant() { mutationType == Constant }
  }

  /** The first `size` bytes of the buffer (at most all of it). */
  function Prefix(buffer: seq<Byte>, size: nat): (r: seq<Byte>)
    ensures |r| == if size <= |buffer| then size else |buffer|
  {
    if size <= |buffer| then buffer[..size] else buffer
  }

  /** The constructor for a size-constant mutation: the operation gets only
      the value (the first `size` bytes) and the value span is returned. */
  function FromConstant(op: ConstantOperation): (m: Mutation)
    ensures m.IsConstant()
  {
    Mutation(Constant, (buffer: seq<Byte>, size: nat) => ConstantApplied(op, buffer, size))
  }

  /** The wrapped call of a size-constant operation. */
  function ConstantApplied(op: ConstantOperation, buffer: seq<Byte>, size: nat): (r: (seq<Byte>, Span))
    ensures |r.0| == |buffer| && r.1.offset + r.1.length <= |buffer|
  {
    var value := Prefix(buffer, size);
    (op(value) + buffer[|value|..], Span(0, |value|))
  }

  /** The constructor for a size-reducing mutation: the operation gets only
      the value and its answer is returned. */
  function FromReducing(op: ReducingOperation): (m: Mutation)
    ensures m.IsReducing()
  {
    Mutation(Reducing, (buffer: seq<Byte>, size: nat) => ReducingApplied(op, buffer, size))
  }

  /** The wrapped call of a size-reducing operation. */
  function ReducingApplied(op: ReducingOperation, buffer: seq<Byte>, size: nat): (r: (seq<Byte>, Span))
    ensures |r.0| == |buffer| && r.1.offset + r.1.length <= |buffer|
  {
    var value := Prefix(buffer, size);
    (op(value).0 + buffer[|value|..], op(value).1)
  }

  /** The constructor for a size-increasing mutation: the operation is used
      as it is. */
  function FromIncreasing(op: IncreasingOperation): (m: Mutation)
    ensures m.IsIncreasing()
  {
    Mutation(Increasing, op)
  }

  /** operator(): invokes the mutation on a buffer holding a value of `size` bytes. */
  function Invoke(m: Mutation, buffer: seq<Byte>, size: nat): (r: (seq<Byte>, Span))
    requires size <= |buffer|
    ensures |r.0| == |buffer| && r.1.offset + r.1.length <= |buffer|
  {
    m.fMutation(buffer, size)
  }

  /** Every mutation is of exactly one kind. */
  lemma MutationKinds(m: Mutation)
    ensures m.IsConstant() <==> !m.IsReducing() && !m.IsIncreasing()
    ensures !(m.IsReducing() && m.IsIncreasing())
  {
  }

  /** A size-constant mutation rewrites the value in place with its
      operation, never touches the bytes past the value, and returns the
      value span. */
  lemma ConstantMutationInvoke(op: ConstantOperation, buffer: seq<Byte>, size: nat)
    requires size <= |buffer|
    ensures Invoke(FromConstant(op), buffer, size).0 == op(buffer[..size]) + buffer[size..]
    ensures Invoke(FromConstant(op), buffer, size).1 == Span(0, size)
    ensures |Invoke(FromConstant(op), buffer, size).0| == |buffer|
  {
    var value := Prefix(buffer, size);
    assert value == buffer[..size];
    assert |op(value)| == size;
  }

  /** What a size-constant mutation writes depends on the value alone, not
      on the rest of the buffer. */
  lemma ConstantMutationSeesValueOnly(op: ConstantOperation, buffer: seq<Byte>, other: seq<Byte>, size: nat)
    requires size <= |buffer| && size <= |other| && buffer[..size] == other[..size]
    ensures var t, u := Invoke(FromConstant(op), buffer, size).0, Invoke(FromConstant(op), other, size).0;
      size <= |t| && size <= |u| && t[..size] == u[..size]
  {
    ConstantMutationInvoke(op, buffer, size);
    ConstantMutationInvoke(op, other, size);
    var v := op(buffer[..size]);
    assert (v + buffer[size..])[..size] == v;
    assert (v + other[size..])[..size] == v;
  }

  /** A size-reducing mutation hands its operation only the value: it never
      touches the bytes past the value and returns a span within the value. */
  lemma ReducingMutationInvoke(op: ReducingOperation, buffer: seq<Byte>, size: nat)
    requires size <= |buffer|
    ensures Invoke(FromReducing(op), buffer, size).0 == op(buffer[..size]).0 + buffer[size..]
    ensures Invoke(FromReducing(op), buffer, size).1 == op(buffer[..size]).1
    ensures |Invoke(FromReducing(op), buffer, size).0| == |buffer|
    ensures Invoke(FromReducing(op), buffer, size).1.offset + Invoke(FromReducing(op), buffer, size).1.length <= size
  {
    var value := Prefix(buffer, size);
    assert value == buffer[..size];
    assert |op(value).0| == size;
  }

  /** What a size-reducing mutation writes and the span it returns depend on
      the value alone, not on the rest of the buffer. */
  lemma ReducingMutationSeesValueOnly(op: ReducingOperation, buffer: seq<Byte>, other: seq<Byte>, size: nat)
    requires size <= |buffer| && size <= |other| && buffer[..size] == other[..size]
    ensures var t, u := Invoke(FromReducing(op), buffer, size).0, Invoke(FromReducing(op), other, size).0;
      size <= |t| && size <= |u| && t[..size] == u[..size]
    ensures Invoke(FromReducing(op), buffer, size).1 == Invoke(FromReducing(op), other, size).1
  {
    ReducingMutationInvoke(op, buffer, size);
    ReducingMutationInvoke(op, other, size);
    var v := op(buffer[..size]).0;
    assert (v + buffer[size..])[..size] == v;
    assert (v + other[size..])[..size] == v;
  }

  /** A size-increasing mutation gets the whole buffer and the value size
      and its answer is returned unchanged. */
  lemma IncreasingMutationInvoke(op: IncreasingOperation, buffer: seq<Byte>, size: nat)
    requires size <= |buffer|
    ensures Invoke(FromIncreasing(op), buffer, size) == op(buffer, size)
    ensures |Invoke(FromIncreasing(op), buffer, size).0| == |buffer|
  {
  }

  // ---------------------------------------------------------------------------
  // Random windows

  /** SelectRandomSubspan: a `size`-byte span inside `source`, at an offset
      drawn so that the span fits. */
  method SelectRandomSubspan(source: Span, size: nat, gen: RandomEngine) returns (r: Span)
    requires size <= source.length
    modifies gen
    ensures r.length == size
    ensures source.offset <= r.offset && r.offset + r.length <= source.offset + source.length
  {
    var sizeOffset := gen.Next(0, source.length - size);
    r := Span(source.offset + sizeOffset, size);
  }

  /** The smaller of two sizes. */
  function Min(a: nat, b: nat): nat
  {
    if a <= b then a else b
  }

  /** What FillSubrangeWithRandomValues may leave in the buffer, for the
      range [rangeLo, rangeLo + rangeLen) and the subrange [subLo, subLo + subLen):
      either (only when the range has at least two bytes) the first
      min(rangeLen, subLen) bytes of the subrange are a copy of a window of
      the range as it was before, or the whole subrange holds one byte. */
  ghost predicate FillEffect(s: seq<Byte>, rangeLo: nat, rangeLen: nat, subLo: nat, subLen: nat, t: seq<Byte>)
    requires rangeLo + rangeLen <= |s| && subLo + subLen <= |s|
  {
    var n := Min(rangeLen, subLen);
    (rangeLen > 1 && exists src :: rangeLo <= src && src + n <= rangeLo + rangeLen && t == Moved(s, subLo, src, n))
    || (exists b: Byte :: t == Filled(s, subLo, b, subLen))
  }

  /** FillSubrangeWithRandomValues: with probability 3/4 (when the range
      has at least two bytes) clones a random window of the range into the
      subrange, copying back to front when the window lies before the
      subrange and front to back when after it; otherwise fills the subrange
      with one byte, taken from the range or drawn from [0, 255]. */
  method FillSubrangeWithRandomValues(buf: array<Byte>, rangeLo: nat, rangeLen: nat, subLo: nat, subLen: nat, gen: RandomEngine)
    requires rangeLo + rangeLen <= buf.Length && subLo + subLen <= buf.Length
    requires rangeLo <= subLo <= rangeLo + rangeLen
    modifies buf, gen
    ensures FillEffect(old(buf[..]), rangeLo, rangeLen, subLo, subLen, buf[..])
  {
    var rangeSize := rangeLen;
    var clone := false;
    if rangeSize > 1 {
      var c := gen.Next(0, 3);
      clone := c != 0;
    }
    if clone {
      var n := Min(rangeSize, subLen);
      var offset, _ := SelectRandomSubrange(buf[rangeLo..rangeLo + rangeLen], n, gen);
      var sourceBegin := rangeLo + offset;
      if sourceBegin < subLo {
        CopyBackward(buf, subLo, sourceBegin, n);
      } else if sourceBegin > subLo {
        CopyForward(buf, subLo, sourceBegin, n);
      } else {
        assert Moved(old(buf[..]), subLo, sourceBegin, n) == old(buf[..]);
      }
    } else {
      var byteRandom: Byte;
      var pick := 1;
      if rangeSize > 0 {
        pick := gen.Next(0, 1);
      }
      if rangeSize > 0 && pick == 0 {
        byteRandom := SelectRandom(buf[rangeLo..rangeLo + rangeLen], gen);
      } else {
        var drawn := gen.Next(0, 255);
        byteRandom := drawn;
      }
      MemSet(buf, subLo, byteRandom, subLen);
    }
  }

  /** What a fill promises: nothing outside the subrange changes; and
      either every byte of the subrange is the same, or the subrange starts
      with a copy of min(rangeLen, subLen) consecutive bytes of the range as
      they were before, the rest of the subrange unchanged. */
  lemma FillEffectFacts(s: seq<Byte>, rangeLo: nat, rangeLen: nat, subLo: nat, subLen: nat, t: seq<Byte>)
    requires rangeLo + rangeLen <= |s| && subLo + subLen <= |s|
    requires FillEffect(s, rangeLo, rangeLen, subLo, subLen, t)
    ensures |t| == |s|
    ensures forall i :: 0 <= i < |s| && !(subLo <= i < subLo + subLen) ==> t[i] == s[i]
    ensures (forall i, j :: subLo <= i < subLo + subLen && subLo <= j < subLo + subLen ==> t[i] == t[j])
         || (rangeLen > 1
             && (exists src :: rangeLo <= src && src + Min(rangeLen, subLen) <= rangeLo + rangeLen
                            && Window(t, subLo, Min(rangeLen, subLen)) == Window(s, src, Min(rangeLen, subLen)))
             && forall i :: subLo + Min(rangeLen, subLen) <= i < subLo + subLen ==> t[i] == s[i])
  {
    var n := Min(rangeLen, subLen);
    if exists b: Byte :: t == Filled(s, subLo, b, subLen) {
      var b: Byte :| t == Filled(s, subLo, b, subLen);
      FilledBytes(s, subLo, b, subLen);
      assert forall i :: subLo <= i < subLo + subLen ==> t[i] == b;
    } else {
      var src :| rangeLo <= src && src + n <= rangeLo + rangeLen && t == Moved(s, subLo, src, n);
      MovedBytes(s, subLo, src, n);
      assert Window(t, subLo, n) == Window(s, src, n);
      assert forall i :: subLo + n <= i < subLo + subLen ==> t[i] == s[i];
    }
  }
}
