/**
 * What one application of each havoc operator does to the buffer, as
 * functions of the buffer contents before the call and of the random
 * choices the operator made. The operators in AFLMutationFunctions are
 * proved to produce one of these results; the lemmas here state what every
 * such result looks like, whatever the choices.
 */
module AFLEffects {
  import opened Bytes
  import opened Memory
  import opened AlignmentSafeReference
  import opened Bits

  /** The outcome of one operator: the new value size, or MUTATION_FAILED
      (size_t(-1)) when the value is too short or the buffer too full. */
  datatype MutationResult = MutationFailed | NewSize(size: nat)

  /** Upper bound of the random operand of ArithmeticAdd and ArithmeticSubstract. */
  const ARITHMETIC_MAX: nat := 35

  // ---------------------------------------------------------------------------
  // Single bytes

  /** Storing one byte is an update of that byte, and loading one byte reads it. */
  lemma StoredByte(s: seq<Byte>, k: nat, v: Byte)
    requires k < |s|
    ensures Stored(s, k, 1, v) == s[k := v]
    ensures Loaded(s, k, 1) == s[k]
  {
    assert Encode(v, 1) == [v];
    assert s[k..k + 1][1..] == [];
  }

  // ---------------------------------------------------------------------------
  // Fixed-width integers

  /** The random operand of the arithmetic operators: `x`, or `x` with its
      bytes reversed when the operator chose to swap the endianness. */
  function ArithmeticOperand(x: nat, swapped: bool, width: Width): nat
  {
    if swapped then SwapEndian(x, width) else x
  }

  /** `s` after the integer at `offset` has been increased by `d`, wrapping
      around modulo 2^(8 * width) like the unsigned type T. */
  function AddedAt(s: seq<Byte>, offset: nat, width: Width, d: nat): (r: seq<Byte>)
    requires offset + width <= |s|
    ensures |r| == |s|
  {
    Stored(s, offset, width, (Loaded(s, offset, width) + d) % Pow256(width))
  }

  /** `s` after the integer at `offset` has been decreased by `d`, wrapping
      around modulo 2^(8 * width) like the unsigned type T. */
  function SubtractedAt(s: seq<Byte>, offset: nat, width: Width, d: nat): (r: seq<Byte>)
    requires offset + width <= |s|
    ensures |r| == |s|
  {
    Stored(s, offset, width, (Loaded(s, offset, width) - d) % Pow256(width))
  }

  /** Adding a multiple of the modulus does not change the remainder. */
  lemma ModShift(x: int, m: int, q: int)
    requires m > 0
    ensures (x + m * q) % m == x % m
  {
    var a, r := x / m, x % m;
    assert x + m * q == m * (a + q) + r;
    DivModUnique(x + m * q, m, a + q, r);
  }

  /** The arithmetic operators change exactly the `width` bytes at `offset`,
      and the new integer there is the old one plus `d` modulo 2^(8 * width). */
  lemma AddedAtShape(s: seq<Byte>, offset: nat, width: Width, d: nat)
    requires offset + width <= |s|
    ensures AddedAt(s, offset, width, d)[..offset] == s[..offset]
    ensures AddedAt(s, offset, width, d)[offset + width..] == s[offset + width..]
    ensures Loaded(AddedAt(s, offset, width, d), offset, width) == (Loaded(s, offset, width) + d) % Pow256(width)
  {
    var v := (Loaded(s, offset, width) + d) % Pow256(width);
    LoadStored(s, offset, width, v);
    DivModUnique(v, Pow256(width), 0, v);
  }

  /** The mirror of AddedAtShape: subtracting changes exactly the `width`
      bytes at `offset`, and the new integer there is the old one minus `d`
      modulo 2^(8 * width). */
  lemma SubtractedAtShape(s: seq<Byte>, offset: nat, width: Width, d: nat)
    requires offset + width <= |s|
    ensures SubtractedAt(s, offset, width, d)[..offset] == s[..offset]
    ensures SubtractedAt(s, offset, width, d)[offset + width..] == s[offset + width..]
    ensures Loaded(SubtractedAt(s, offset, width, d), offset, width) == (Loaded(s, offset, width) - d) % Pow256(width)
  {
    var v := (Loaded(s, offset, width) - d) % Pow256(width);
    LoadStored(s, offset, width, v);
    DivModUnique(v, Pow256(width), 0, v);
  }

  /** For an unsigned `a` below the modulus, adding and then subtracting `d`
      modulo `m` gives `a` back. */
  lemma ModAddSub(a: int, d: int, m: int)
    requires 0 <= a < m
    ensures ((a + d) % m - d) % m == a
  {
    var q := (a + d) / m;
    assert (a + d) % m - d == m * (-q) + a;
    DivModUnique((a + d) % m - d, m, -q, a);
  }

  /** Subtracting what was added restores the buffer: the two operators are
      inverse to each other for the same operand, offset and width. */
  lemma SubtractAfterAdd(s: seq<Byte>, offset: nat, width: Width, d: nat)
    requires offset + width <= |s|
    ensures SubtractedAt(AddedAt(s, offset, width, d), offset, width, d) == s
  {
    var P := Pow256(width);
    var a := Loaded(s, offset, width);
    var b := (a + d) % P;
    var t := AddedAt(s, offset, width, d);
    assert t == Stored(s, offset, width, b);
    AddedAtShape(s, offset, width, d);
    assert Loaded(t, offset, width) == b;
    ModAddSub(a, d, P);
    assert SubtractedAt(t, offset, width, d) == Stored(t, offset, width, a);
    StoredTwice(s, offset, width, b, a);
    StoredLoaded(s, offset, width);
  }

  // ---------------------------------------------------------------------------
  // Blocks

  /** `s` after the `d`-byte block at `k` of the value `s[..size]` has been
      removed: the rest of the value closes the gap and the `d` vacated bytes
      at its end become zero. Bytes from `size` on are not touched. */
  function BlockRemoved(s: seq<Byte>, size: nat, k: nat, d: nat): (r: seq<Byte>)
    requires k + d <= size <= |s|
    ensures |r| == |s|
  {
    s[..k] + s[k + d..size] + seq(d, _ => 0) + s[size..]
  }

  /** RemoveRandomBlock's memmove of the remainder followed by its memset of
      the tail gives `BlockRemoved`. */
  lemma {:induction false} MoveAndFillRemoveBlock(s: seq<Byte>, size: nat, k: nat, d: nat)
    requires k + d <= size <= |s|
    ensures Filled(Moved(s, k, k + d, size - k - d), size - d, 0, d) == BlockRemoved(s, size, k, d)
  {
    var rem := size - k - d;
    var m := Moved(s, k, k + d, rem);
    var f := Filled(m, size - d, 0, d);
    var r := BlockRemoved(s, size, k, d);
    forall i | 0 <= i < |s|
      ensures f[i] == r[i]
    {
      FilledAt(m, size - d, 0, d, i);
      MovedAt(s, k, k + d, rem, i);
    }
  }

  /** After a block removal the value is one byte or more, holds what was
      before and after the block in order, and is followed by `d` zeros up
      to the old size; the rest of the buffer is unchanged. */
  lemma BlockRemovedShape(s: seq<Byte>, size: nat, k: nat, d: nat)
    requires 1 <= d <= size - 1 && k + d <= size <= |s|
    ensures 1 <= size - d < size
    ensures BlockRemoved(s, size, k, d)[..size - d] == s[..k] + s[k + d..size]
    ensures forall i :: size - d <= i < size ==> BlockRemoved(s, size, k, d)[i] == 0
    ensures BlockRemoved(s, size, k, d)[size..] == s[size..]
  {
    var r := BlockRemoved(s, size, k, d);
    assert r[..size - d] == s[..k] + s[k + d..size];
    forall i | size - d <= i < size
      ensures r[i] == 0
    {
      assert r[i] == seq(d, _ => 0)[i - (size - d)];
    }
  }

  /** The buffer after RandomBlockInsert's memcpy, which shifts the tail of
      the value `s[p..size]` right by `n` bytes. */
  function TailShifted(s: seq<Byte>, size: nat, p: nat, n: nat): (r: seq<Byte>)
    requires p <= size && size + n <= |s|
    ensures |r| == |s|
  {
    Moved(s, p + n, p, size - p)
  }

  /** `s` with `block` inserted at `p` into the value `s[..size]`: the value
      before `p`, the block, the rest of the value, then the bytes that were
      beyond the new end. */
  function Inserted(s: seq<Byte>, size: nat, p: nat, block: seq<Byte>): (r: seq<Byte>)
    requires p <= size && size + |block| <= |s|
    ensures |r| == |s|
  {
    s[..p] + block + s[p..size] + s[size + |block|..]
  }

  /** Every byte of `block` is the same. */
  predicate Repeated(block: seq<Byte>)
  {
    forall i :: 0 <= i < |block| ==> block[i] == block[0]
  }

  /** The memcpy of the tail followed by a move or fill of the hole gives
      `Inserted` with the block that was written. */
  lemma {:induction false} ShiftAndMoveInsertBlock(s: seq<Byte>, size: nat, p: nat, n: nat, from: nat)
    requires p <= size && size + n <= |s| && from + n <= |s|
    ensures Moved(TailShifted(s, size, p, n), p, from, n)
         == Inserted(s, size, p, Window(TailShifted(s, size, p, n), from, n))
  {
    var t := TailShifted(s, size, p, n);
    var m := Moved(t, p, from, n);
    var r := Inserted(s, size, p, Window(t, from, n));
    forall i | 0 <= i < |s|
      ensures m[i] == r[i]
    {
      MovedAt(t, p, from, n, i);
      MovedAt(s, p + n, p, size - p, i);
    }
  }

  lemma {:induction false} ShiftAndFillInsertBlock(s: seq<Byte>, size: nat, p: nat, n: nat, b: Byte)
    requires p <= size && size + n <= |s|
    ensures Filled(TailShifted(s, size, p, n), p, b, n) == Inserted(s, size, p, seq(n, _ => b))
  {
    var t := TailShifted(s, size, p, n);
    var f := Filled(t, p, b, n);
    var r := Inserted(s, size, p, seq(n, _ => b));
    forall i | 0 <= i < |s|
      ensures f[i] == r[i]
    {
      FilledAt(t, p, b, n, i);
      MovedAt(s, p + n, p, size - p, i);
    }
  }

  /** After an insertion the value before `p` is unchanged, the old value
      from `p` on now starts at `p + |block|`, and nothing beyond the new
      size changed. */
  lemma InsertedShape(s: seq<Byte>, size: nat, p: nat, block: seq<Byte>)
    requires p <= size && size + |block| <= |s|
    ensures Inserted(s, size, p, block)[..p] == s[..p]
    ensures Inserted(s, size, p, block)[p..p + |block|] == block
    ensures Inserted(s, size, p, block)[p + |block|..size + |block|] == s[p..size]
    ensures Inserted(s, size, p, block)[size + |block|..] == s[size + |block|..]
  {
  }

  // ---------------------------------------------------------------------------
  // The effect of each operator, for all random choices. `s` is the buffer
  // before the call, `t` after it and `r` the returned size. Every operator
  // that fails leaves the buffer as it was.

  /** `static_cast<T>`: the low `width` bytes of a value. */
  function Truncated(v: int, width: Width): (r: nat)
    ensures r < Pow256(width)
  {
    v % Pow256(width)
  }

  /** `n` copies of the byte `b`. */
  function Run(b: Byte, n: nat): (r: seq<Byte>)
    ensures |r| == n && Repeated(r)
  {
    seq(n, _ => b)
  }

  ghost predicate Failed(s: seq<Byte>, t: seq<Byte>, r: MutationResult)
  {
    r == MutationFailed && t == s
  }

  /** FlipBit: one bit of one byte of the value is inverted. */
  ghost predicate FlipBitEffect(s: seq<Byte>, size: nat, t: seq<Byte>, r: MutationResult)
    requires size <= |s|
  {
    if size == 0 then Failed(s, t, r)
    else (
      r == NewSize(size) &&
      exists k: nat, bit: nat :: k < size && bit < 8 && t == s[k := FlipBitOf(s[k], bit)]
    )
  }

  /** InterestingValue<T>: a `width`-byte integer of the value is replaced by
      the truncation of an entry of `values`. */
  ghost predicate InterestingValueEffect(s: seq<Byte>, size: nat, width: Width, values: seq<nat>, t: seq<Byte>, r: MutationResult)
    requires size <= |s|
  {
    if size < width then Failed(s, t, r)
    else (
      r == NewSize(size) &&
      exists k: nat, j: nat :: k + width <= size && j < |values| && t == Stored(s, k, width, Truncated(values[j], width))
    )
  }

  /** ArithmeticAdd<T>: a `width`-byte integer of the value is increased, with
      wrap-around, by a number in [1, ARITHMETIC_MAX] or, for T wider than a
      byte, possibly by its byte-swapped form. */
  ghost predicate ArithmeticAddEffect(s: seq<Byte>, size: nat, width: Width, t: seq<Byte>, r: MutationResult)
    requires size <= |s|
  {
    if size < width then Failed(s, t, r)
    else (
      r == NewSize(size) &&
      exists k: nat, x: nat, swapped: bool ::
          k + width <= size && 1 <= x <= ARITHMETIC_MAX && (swapped ==> width >= 2) &&
          t == AddedAt(s, k, width, ArithmeticOperand(x, swapped, width))
    )
  }

  /** ArithmeticSubstract<T>: as ArithmeticAdd, decreasing the integer. */
  ghost predicate ArithmeticSubtractEffect(s: seq<Byte>, size: nat, width: Width, t: seq<Byte>, r: MutationResult)
    requires size <= |s|
  {
    if size < width then Failed(s, t, r)
    else (
      r == NewSize(size) &&
      exists k: nat, x: nat, swapped: bool ::
          k + width <= size && 1 <= x <= ARITHMETIC_MAX && (swapped ==> width >= 2) &&
          t == SubtractedAt(s, k, width, ArithmeticOperand(x, swapped, width))
    )
  }

  /** `s` with byte `k` set to `b`. */
  function Replaced(s: seq<Byte>, k: nat, b: Byte): (r: seq<Byte>)
    requires k < |s|
    ensures |r| == |s|
  {
    s[k := b]
  }

  /** RandomByteReplace: one byte of the value becomes a value in [1, 255]. */
  ghost predicate RandomByteReplaceEffect(s: seq<Byte>, size: nat, t: seq<Byte>, r: MutationResult)
    requires size <= |s|
  {
    if size == 0 then Failed(s, t, r)
    else (
      r == NewSize(size) &&
      exists k: nat, b: Byte :: k < size && 1 <= b && t == Replaced(s, k, b)
    )
  }

  /** RemoveRandomBlock: a block of 1 to size - 1 bytes is removed from the value. */
  ghost predicate RemoveRandomBlockEffect(s: seq<Byte>, size: nat, t: seq<Byte>, r: MutationResult)
    requires size <= |s|
  {
    if size <= 1 then Failed(s, t, r)
    else exists k: nat, d: nat ::
      1 <= d <= size - 1 && k + d <= size && t == BlockRemoved(s, size, k, d) && r == NewSize(size - d)
  }

  /** Removing a block of 1 to size - 1 bytes is one of the outcomes of
      RemoveRandomBlock. */
  lemma RemoveRandomBlockChoice(s: seq<Byte>, size: nat, k: nat, d: nat)
    requires 1 <= d <= size - 1 && k + d <= size <= |s|
    ensures RemoveRandomBlockEffect(s, size, BlockRemoved(s, size, k, d), NewSize(size - d))
  {
  }

  /** Where an inserted block comes from: a window of the buffer after the
      tail was shifted, starting anywhere in [0, sizeMax - |block|] (only
      when the value is not empty), or a repeated byte. */
  ghost predicate InsertSource(s: seq<Byte>, size: nat, sizeMax: nat, p: nat, block: seq<Byte>)
    requires p <= size && size + |block| <= sizeMax <= |s|
  {
    (size > 0 && exists from: nat :: from + |block| <= sizeMax && block == Window(TailShifted(s, size, p, |block|), from, |block|))
    || (exists b: Byte :: block == Run(b, |block|))
  }

  /** RandomBlockInsert: a block of 1 to sizeMax - size bytes is inserted
      into the value. */
  ghost predicate RandomBlockInsertEffect(s: seq<Byte>, size: nat, sizeMax: nat, t: seq<Byte>, r: MutationResult)
    requires size <= |s| && sizeMax <= |s|
  {
    if sizeMax <= size then Failed(s, t, r)
    else exists p: nat, block: seq<Byte> ::
      p <= size && 1 <= |block| <= sizeMax - size && InsertSource(s, size, sizeMax, p, block) &&
      t == Inserted(s, size, p, block) && r == NewSize(size + |block|)
  }

  /** The `n` bytes at `to` of the value hold a copy of another `n`-byte
      block of the value, or one byte repeated; nothing else changed. */
  ghost predicate ChunkOverwritten(s: seq<Byte>, size: nat, to: nat, n: nat, t: seq<Byte>)
    requires to + n <= size <= |s|
  {
    (exists from: nat :: from + n <= size && t == Moved(s, to, from, n))
    || (exists b: Byte :: t == Filled(s, to, b, n))
  }

  /** RandomChunkOverwrite: a block of the value of 1 to size bytes is
      overwritten with a copy of another block of the value or with a
      repeated byte. */
  ghost predicate RandomChunkOverwriteEffect(s: seq<Byte>, size: nat, t: seq<Byte>, r: MutationResult)
    requires size <= |s|
  {
    if size == 0 then Failed(s, t, r)
    else (
      r == NewSize(size) &&
      exists to: nat, n: nat :: 1 <= n <= size && to + n <= size && ChunkOverwritten(s, size, to, n, t)
    )
  }

  // ---------------------------------------------------------------------------
  // What every outcome of each operator looks like

  /** `t` and `s` agree everywhere but in the `n` bytes at `lo`. */
  ghost predicate UnchangedOutside(s: seq<Byte>, t: seq<Byte>, lo: nat, n: nat)
    requires lo + n <= |s| && |t| == |s|
  {
    t[..lo] == s[..lo] && t[lo + n..] == s[lo + n..]
  }

  /** A store inside the value changes nothing outside its window, so in
      particular nothing beyond the value. */
  lemma StoredInside(s: seq<Byte>, size: nat, k: nat, width: Width, v: int)
    requires k + width <= size <= |s|
    ensures UnchangedOutside(s, Stored(s, k, width, v), k, width)
    ensures Stored(s, k, width, v)[size..] == s[size..]
  {
    StoredOutside(s, k, width, v, k + width);
    StoredOutside(s, k, width, v, size);
  }

  /** Adding `d` inside the value keeps everything outside the window, and
      subtracting `d` afterwards restores the buffer. */
  lemma AddedInside(s: seq<Byte>, size: nat, k: nat, width: Width, d: nat)
    requires k + width <= size <= |s|
    ensures UnchangedOutside(s, AddedAt(s, k, width, d), k, width)
    ensures AddedAt(s, k, width, d)[size..] == s[size..]
    ensures SubtractedAt(AddedAt(s, k, width, d), k, width, d) == s
  {
    StoredInside(s, size, k, width, (Loaded(s, k, width) + d) % Pow256(width));
    SubtractAfterAdd(s, k, width, d);
  }

  /** Subtracting `d` inside the value keeps everything outside the window. */
  lemma SubtractedInside(s: seq<Byte>, size: nat, k: nat, width: Width, d: nat)
    requires k + width <= size <= |s|
    ensures UnchangedOutside(s, SubtractedAt(s, k, width, d), k, width)
    ensures SubtractedAt(s, k, width, d)[size..] == s[size..]
  {
    StoredInside(s, size, k, width, (Loaded(s, k, width) - d) % Pow256(width));
  }

  /** The window of an addition holds the old integer plus the operand,
      nothing outside it changed, and subtracting the operand undoes it. */
  lemma AddedWindow(s: seq<Byte>, size: nat, k: nat, width: Width, x: nat, swapped: bool, t: seq<Byte>)
    requires k + width <= size <= |s| && t == AddedAt(s, k, width, ArithmeticOperand(x, swapped, width))
    ensures |t| == |s| && t[size..] == s[size..]
    ensures SubtractedAt(t, k, width, ArithmeticOperand(x, swapped, width)) == s
    ensures Loaded(t, k, width) == (Loaded(s, k, width) + ArithmeticOperand(x, swapped, width)) % Pow256(width)
    ensures UnchangedOutside(s, t, k, width)
  {
    AddedInside(s, size, k, width, ArithmeticOperand(x, swapped, width));
    AddedAtShape(s, k, width, ArithmeticOperand(x, swapped, width));
  }

  /** The window of a subtraction holds the old integer minus the operand,
      and nothing outside it changed. */
  lemma SubtractedWindow(s: seq<Byte>, size: nat, k: nat, width: Width, x: nat, swapped: bool, t: seq<Byte>)
    requires k + width <= size <= |s| && t == SubtractedAt(s, k, width, ArithmeticOperand(x, swapped, width))
    ensures |t| == |s| && t[size..] == s[size..]
    ensures Loaded(t, k, width) == (Loaded(s, k, width) - ArithmeticOperand(x, swapped, width)) % Pow256(width)
    ensures UnchangedOutside(s, t, k, width)
  {
    SubtractedInside(s, size, k, width, ArithmeticOperand(x, swapped, width));
    SubtractedAtShape(s, k, width, ArithmeticOperand(x, swapped, width));
  }

  /** Some `width`-byte window of the value now holds its old integer plus
      an arithmetic operand (a number in [1, ARITHMETIC_MAX], byte-swapped
      only for T of two bytes or more), modulo 2^(8 * width); nothing
      outside the window changed, and subtracting the same operand there
      gives `s` back. */
  ghost predicate AddedInSomeWindow(s: seq<Byte>, size: nat, width: Width, t: seq<Byte>)
    requires size <= |s| && |t| == |s|
  {
    exists k: nat, x: nat, swapped: bool ::
      k + width <= size && 1 <= x <= ARITHMETIC_MAX && (swapped ==> width >= 2) &&
      Loaded(t, k, width) == (Loaded(s, k, width) + ArithmeticOperand(x, swapped, width)) % Pow256(width) &&
      UnchangedOutside(s, t, k, width) && SubtractedAt(t, k, width, ArithmeticOperand(x, swapped, width)) == s
  }

  /** Some `width`-byte window of the value now holds its old integer minus
      an arithmetic operand, modulo 2^(8 * width), and nothing outside the
      window changed. */
  ghost predicate SubtractedInSomeWindow(s: seq<Byte>, size: nat, width: Width, t: seq<Byte>)
    requires size <= |s| && |t| == |s|
  {
    exists k: nat, x: nat, swapped: bool ::
      k + width <= size && 1 <= x <= ARITHMETIC_MAX && (swapped ==> width >= 2) &&
      Loaded(t, k, width) == (Loaded(s, k, width) - ArithmeticOperand(x, swapped, width)) % Pow256(width) &&
      UnchangedOutside(s, t, k, width)
  }

  /** One window with the add outcome witnesses AddedInSomeWindow. */
  lemma AddedInWindow(s: seq<Byte>, size: nat, width: Width, t: seq<Byte>, k: nat, x: nat, swapped: bool)
    requires size <= |s| && |t| == |s|
    requires k + width <= size && 1 <= x <= ARITHMETIC_MAX && (swapped ==> width >= 2)
    requires Loaded(t, k, width) == (Loaded(s, k, width) + ArithmeticOperand(x, swapped, width)) % Pow256(width)
    requires UnchangedOutside(s, t, k, width) && SubtractedAt(t, k, width, ArithmeticOperand(x, swapped, width)) == s
    ensures AddedInSomeWindow(s, size, width, t)
  {
  }

  /** One window with the subtract outcome witnesses SubtractedInSomeWindow. */
  lemma SubtractedInWindow(s: seq<Byte>, size: nat, width: Width, t: seq<Byte>, k: nat, x: nat, swapped: bool)
    requires size <= |s| && |t| == |s|
    requires k + width <= size && 1 <= x <= ARITHMETIC_MAX && (swapped ==> width >= 2)
    requires Loaded(t, k, width) == (Loaded(s, k, width) - ArithmeticOperand(x, swapped, width)) % Pow256(width)
    requires UnchangedOutside(s, t, k, width)
    ensures SubtractedInSomeWindow(s, size, width, t)
  {
  }

  /** FlipBit fails exactly on an empty value; otherwise the size is kept,
      no byte beyond the value changes, and flipping the same bit again
      would restore the buffer. */
  lemma FlipBitEffectFacts(s: seq<Byte>, size: nat, t: seq<Byte>, r: MutationResult)
    requires size <= |s| && FlipBitEffect(s, size, t, r)
    ensures r == MutationFailed <==> size == 0
    ensures r == MutationFailed ==> t == s
    ensures r.NewSize? ==> r.size == size && |t| == |s| && t[size..] == s[size..]
    ensures r.NewSize? ==> exists k: nat, bit: nat :: k < size && bit < 8 && s == t[k := FlipBitOf(t[k], bit)]
  {
    if size != 0 {
      var k: nat, bit: nat :| k < size && bit < 8 && t == s[k := FlipBitOf(s[k], bit)];
      FlipBitTwice(s[k], bit);
      assert s == t[k := FlipBitOf(t[k], bit)];
      assert t[size..] == s[size..];
    }
  }

  /** InterestingValue<T> fails exactly when the value is shorter than T;
      otherwise the size is kept, only a `width`-byte window inside the value
      changes, and that window then holds an entry of `values` truncated to
      the width. */
  lemma InterestingValueEffectFacts(s: seq<Byte>, size: nat, width: Width, values: seq<nat>, t: seq<Byte>, r: MutationResult)
    requires size <= |s| && InterestingValueEffect(s, size, width, values, t, r)
    ensures r == MutationFailed <==> size < width
    ensures r == MutationFailed ==> t == s
    ensures r.NewSize? ==> r.size == size && |t| == |s| && t[size..] == s[size..]
    ensures r.NewSize? ==> exists k: nat, j: nat ::
      k + width <= size && j < |values| && Loaded(t, k, width) == values[j] % Pow256(width) && UnchangedOutside(s, t, k, width)
  {
    if size >= width {
      var k: nat, j: nat :| k + width <= size && j < |values| && t == Stored(s, k, width, Truncated(values[j], width));
      var v := Truncated(values[j], width);
      LoadStored(s, k, width, v);
      DivModUnique(v, Pow256(width), 0, v);
      StoredInside(s, size, k, width, v);
      assert Loaded(t, k, width) == values[j] % Pow256(width) && UnchangedOutside(s, t, k, width);
    }
  }

  /** ArithmeticAdd<T> fails exactly when the value is shorter than T;
      otherwise the size is kept, only a `width`-byte window inside the value
      changes, the integer there grows (with wrap-around) by a number in
      [1, ARITHMETIC_MAX] or its byte-swapped form, and subtracting the same
      operand there would restore the buffer. */
  lemma ArithmeticAddEffectFacts(s: seq<Byte>, size: nat, width: Width, t: seq<Byte>, r: MutationResult)
    requires size <= |s| && ArithmeticAddEffect(s, size, width, t, r)
    ensures r == MutationFailed <==> size < width
    ensures r == MutationFailed ==> t == s
    ensures r.NewSize? ==> r.size == size && |t| == |s| && t[size..] == s[size..]
    ensures r.NewSize? ==> AddedInSomeWindow(s, size, width, t)
  {
    if size >= width {
      var k: nat, x: nat, swapped: bool :| k + width <= size && 1 <= x <= ARITHMETIC_MAX && (swapped ==> width >= 2)
        && t == AddedAt(s, k, width, ArithmeticOperand(x, swapped, width));
      AddedWindow(s, size, k, width, x, swapped, t);
      AddedInWindow(s, size, width, t, k, x, swapped);
    }
  }

  /** ArithmeticSubstract<T> fails exactly when the value is shorter than T;
      otherwise the size is kept, only a `width`-byte window inside the value
      changes, and the integer there shrinks (with wrap-around) by a number
      in [1, ARITHMETIC_MAX] or its byte-swapped form. */
  lemma ArithmeticSubtractEffectFacts(s: seq<Byte>, size: nat, width: Width, t: seq<Byte>, r: MutationResult)
    requires size <= |s| && ArithmeticSubtractEffect(s, size, width, t, r)
    ensures r == MutationFailed <==> size < width
    ensures r == MutationFailed ==> t == s
    ensures r.NewSize? ==> r.size == size && |t| == |s| && t[size..] == s[size..]
    ensures r.NewSize? ==> SubtractedInSomeWindow(s, size, width, t)
  {
    if size >= width {
      var k: nat, x: nat, swapped: bool :| k + width <= size && 1 <= x <= ARITHMETIC_MAX && (swapped ==> width >= 2)
        && t == SubtractedAt(s, k, width, ArithmeticOperand(x, swapped, width));
      SubtractedWindow(s, size, k, width, x, swapped, t);
      SubtractedInWindow(s, size, width, t, k, x, swapped);
    }
  }

  /** RandomByteReplace fails exactly on an empty value; otherwise the size
      is kept and at most one byte of the value differs, that byte then
      holding a value in [1, 255]. */
  lemma RandomByteReplaceEffectFacts(s: seq<Byte>, size: nat, t: seq<Byte>, r: MutationResult)
    requires size <= |s| && RandomByteReplaceEffect(s, size, t, r)
    ensures r == MutationFailed <==> size == 0
    ensures r == MutationFailed ==> t == s
    ensures r.NewSize? ==> r.size == size && |t| == |s| && t[size..] == s[size..]
    ensures r.NewSize? ==> exists k: nat :: k < size && t[k] != 0 && forall i :: 0 <= i < |s| && i != k ==> t[i] == s[i]
  {
    if size != 0 {
      var k: nat, b: Byte :| k < size && 1 <= b && t == Replaced(s, k, b);
      assert t[size..] == s[size..];
      assert k < size && t[k] != 0 && forall i :: 0 <= i < |s| && i != k ==> t[i] == s[i];
    }
  }
  /** The replacement byte is assigned, not XORed in, so drawing the value
      the chosen byte already holds leaves the buffer as it was: a success
      need not change anything. */
  lemma RandomByteReplaceMayKeepBuffer(s: seq<Byte>, size: nat)
    requires 0 < size <= |s| && s[0] != 0
    ensures RandomByteReplaceEffect(s, size, s, NewSize(size))
  {
    assert s == Replaced(s, 0, s[0]);
  }


  /** RemoveRandomBlock fails exactly when the value has fewer than two
      bytes; otherwise the new size is in [1, size - 1], the new value is the
      old one without a block of size - newSize bytes, the bytes freed at its
      end are zero and nothing beyond the old size changes. */
  lemma RemoveRandomBlockEffectFacts(s: seq<Byte>, size: nat, t: seq<Byte>, r: MutationResult)
    requires size <= |s| && RemoveRandomBlockEffect(s, size, t, r)
    ensures r == MutationFailed <==> size <= 1
    ensures r == MutationFailed ==> t == s
    ensures r.NewSize? ==> 1 <= r.size < size && |t| == |s| && t[size..] == s[size..]
    ensures r.NewSize? ==> exists k: nat :: k <= r.size && t[..r.size] == s[..k] + s[k + (size - r.size)..size]
    ensures r.NewSize? ==> forall i :: r.size <= i < size ==> t[i] == 0
  {
    if size > 1 {
      var k: nat, d: nat :| 1 <= d <= size - 1 && k + d <= size && t == BlockRemoved(s, size, k, d) && r == NewSize(size - d);
      BlockRemovedShape(s, size, k, d);
      assert k <= r.size && t[..r.size] == s[..k] + s[k + (size - r.size)..size];
    }
  }

  /** RandomBlockInsert fails exactly when the value fills the capacity;
      otherwise the new size is in [size + 1, sizeMax], the value before the
      insertion point is kept, the old value from there on follows the
      inserted block, and nothing beyond the new size changes. */
  lemma RandomBlockInsertEffectFacts(s: seq<Byte>, size: nat, sizeMax: nat, t: seq<Byte>, r: MutationResult)
    requires size <= |s| && sizeMax <= |s| && RandomBlockInsertEffect(s, size, sizeMax, t, r)
    ensures r == MutationFailed <==> sizeMax <= size
    ensures r == MutationFailed ==> t == s
    ensures r.NewSize? ==> size < r.size <= sizeMax && |t| == |s| && t[r.size..] == s[r.size..]
    ensures r.NewSize? ==> exists p: nat :: p <= size && t[..p] == s[..p] && t[p + (r.size - size)..r.size] == s[p..size]
  {
    if sizeMax > size {
      var p: nat, block: seq<Byte> :| p <= size && 1 <= |block| <= sizeMax - size && InsertSource(s, size, sizeMax, p, block)
        && t == Inserted(s, size, p, block) && r == NewSize(size + |block|);
      InsertedShape(s, size, p, block);
      assert t[..p] == s[..p] && t[p + (r.size - size)..r.size] == s[p..size];
    }
  }

  /** RandomChunkOverwrite fails exactly on an empty value; otherwise the
      size is kept, no byte beyond the value changes, and the value differs
      from the old one only inside a block of 1 to size bytes. */
  lemma RandomChunkOverwriteEffectFacts(s: seq<Byte>, size: nat, t: seq<Byte>, r: MutationResult)
    requires size <= |s| && RandomChunkOverwriteEffect(s, size, t, r)
    ensures r == MutationFailed <==> size == 0
    ensures r == MutationFailed ==> t == s
    ensures r.NewSize? ==> r.size == size && |t| == |s| && t[size..] == s[size..]
    ensures r.NewSize? ==> exists to: nat, n: nat :: 1 <= n && to + n <= size && UnchangedOutside(s, t, to, n)
  {
    if size != 0 {
      var to: nat, n: nat :| 1 <= n <= size && to + n <= size && ChunkOverwritten(s, size, to, n, t);
      if exists from: nat :: from + n <= size && t == Moved(s, to, from, n) {
        var from: nat :| from + n <= size && t == Moved(s, to, from, n);
      } else {
        var b: Byte :| t == Filled(s, to, b, n);
      }
      assert t[size..] == s[size..] by {
        assert t[to + n..][size - to - n..] == t[size..];
        assert s[to + n..][size - to - n..] == s[size..];
      }
      assert UnchangedOutside(s, t, to, n);
    }
  }
}
