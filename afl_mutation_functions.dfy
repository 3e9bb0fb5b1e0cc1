/**
 * CAFLMutationFunctions: the AFL havoc stage. The engine owns the
 * interesting-integer table, the lists of havoc operators and a random
 * engine; each operator edits the first `size` bytes of a caller's buffer in
 * place and returns the new size or MUTATION_FAILED, and Havoc applies a
 * number of randomly chosen operators one after the other.
 */
module AFLMutationFunctions {
  import opened Bytes
  import opened Memory
  import opened AlignmentSafeReference
  import opened Errors
  import opened Random
  import opened VectorConcatenation
  import opened AFLTable
  import opened AFLEffects
  import opened Bits

  /** MAX_FAILED_MUTATIONS: Havoc gives up after this many failures in a row. */
  const MAX_FAILED_MUTATIONS: nat := 128

  /** The havoc operators; the templates carry the width of T. */
  datatype Operation =
    | FlipBit
    | InterestingValue(width: Width)
    | ArithmeticSubstract(width: Width)
    | ArithmeticAdd(width: Width)
    | RandomByteReplace
    | RemoveRandomBlock
    | RandomChunkOverwrite
    | RandomBlockInsert

  /** m_vecHavocOperationsConstSize: the operators offered whenever the value
      is not empty. RemoveRandomBlock is listed twice so that shrinking is
      drawn more often than growing. */
  function ConstSizeOperations(): (ops: seq<Operation>)
    ensures |ops| == 17
  {
    [ FlipBit,
      InterestingValue(1), InterestingValue(2), InterestingValue(4), InterestingValue(8),
      ArithmeticSubstract(1), ArithmeticSubstract(2), ArithmeticSubstract(4), ArithmeticSubstract(8),
      ArithmeticAdd(1), ArithmeticAdd(2), ArithmeticAdd(4), ArithmeticAdd(8),
      RandomByteReplace, RemoveRandomBlock, RemoveRandomBlock, RandomChunkOverwrite ]
  }

  /** m_vecHavocOperationsSizeIncrease: the operators offered while the value
      can still grow. */
  function SizeIncreaseOperations(): (ops: seq<Operation>)
    ensures |ops| == 1
  {
    [RandomBlockInsert]
  }

  /** The candidate list Havoc builds for the current size. */
  function Candidates(size: nat, sizeMax: nat): seq<Operation>
  {
    (if sizeMax > size then SizeIncreaseOperations() else [])
    + (if size != 0 then ConstSizeOperations() else [])
  }

  /** When an operator returns MUTATION_FAILED. */
  predicate Fails(op: Operation, size: nat, sizeMax: nat)
  {
    match op
    case FlipBit => size == 0
    case InterestingValue(w) => size < w
    case ArithmeticSubstract(w) => size < w
    case ArithmeticAdd(w) => size < w
    case RandomByteReplace => size == 0
    case RemoveRandomBlock => size <= 1
    case RandomChunkOverwrite => size == 0
    case RandomBlockInsert => sizeMax <= size
  }

  /** What a call of `op` may do to the buffer `s` holding a value of `size`
      bytes in a capacity of `sizeMax` bytes. */
  ghost predicate MutationEffect(op: Operation, s: seq<Byte>, size: nat, sizeMax: nat, t: seq<Byte>, r: MutationResult)
    requires size <= |s| && sizeMax <= |s|
  {
    match op
    case FlipBit => FlipBitEffect(s, size, t, r)
    case InterestingValue(w) => InterestingValueEffect(s, size, w, LegacySpan(w), t, r)
    case ArithmeticSubstract(w) => ArithmeticSubtractEffect(s, size, w, t, r)
    case ArithmeticAdd(w) => ArithmeticAddEffect(s, size, w, t, r)
    case RandomByteReplace => RandomByteReplaceEffect(s, size, t, r)
    case RemoveRandomBlock => RemoveRandomBlockEffect(s, size, t, r)
    case RandomChunkOverwrite => RandomChunkOverwriteEffect(s, size, t, r)
    case RandomBlockInsert => RandomBlockInsertEffect(s, size, sizeMax, t, r)
  }

  /** The buffer and value size between two havoc iterations. */
  datatype State = State(buffer: seq<Byte>, size: nat)

  /** One successful havoc iteration: an operator from the candidate list of
      the current size turned `a` into `b`. */
  ghost predicate Step(a: State, b: State, sizeMax: nat)
  {
    a.size <= |a.buffer| && sizeMax <= |a.buffer| &&
    exists op :: op in Candidates(a.size, sizeMax) && MutationEffect(op, a.buffer, a.size, sizeMax, b.buffer, NewSize(b.size))
  }

  /** A sequence of states each reached from the previous one by a step. */
  ghost predicate Trace(trace: seq<State>, sizeMax: nat)
  {
    forall i :: 0 < i < |trace| ==> Step(trace[i - 1], trace[i], sizeMax)
  }

  // ---------------------------------------------------------------------------
  // Properties of the candidate list and the operators

  /** The candidate list holds the inserting operator exactly when the value
      can grow and the 17 constant-size operators exactly when it is not
      empty, so it is never empty for a valid size. Only a candidate that
      needs more than the bytes of the value can fail, which takes a value of
      fewer than 8 bytes, and the inserting operator never fails when it is
      offered. */
  lemma CandidatesFacts(size: nat, sizeMax: nat)
    ensures |Candidates(size, sizeMax)| == (if sizeMax > size then 1 else 0) + (if size != 0 then 17 else 0)
    ensures size <= sizeMax && sizeMax != 0 ==> |Candidates(size, sizeMax)| >= 1
    ensures RandomBlockInsert in Candidates(size, sizeMax) <==> sizeMax > size
    ensures size == 0 ==> forall op :: op in Candidates(size, sizeMax) ==> op == RandomBlockInsert
    ensures forall op :: op in Candidates(size, sizeMax) && Fails(op, size, sizeMax) ==> size < 8 && op != RandomBlockInsert
  {
    forall op | op in Candidates(size, sizeMax) && Fails(op, size, sizeMax)
      ensures size < 8 && op != RandomBlockInsert
    {
      if op != RandomBlockInsert {
        assert op in ConstSizeOperations();
      }
    }
  }

  /** Whether an operator keeps, decreases or increases the size. */
  predicate SizeChange(op: Operation, size: nat, newSize: nat)
  {
    match op
    case RemoveRandomBlock => newSize < size
    case RandomBlockInsert => newSize > size
    case _ => newSize == size
  }

  /** Every operator fails exactly under its size condition and then leaves
      the buffer untouched. When it succeeds, the new size lies in
      [1, sizeMax], changes in the operator's direction, and no byte at or
      beyond the larger of the old and the new size changes. */
  lemma MutationEffectFacts(op: Operation, s: seq<Byte>, size: nat, sizeMax: nat, t: seq<Byte>, r: MutationResult)
    requires size <= sizeMax <= |s|
    requires MutationEffect(op, s, size, sizeMax, t, r)
    ensures r == MutationFailed <==> Fails(op, size, sizeMax)
    ensures r == MutationFailed ==> t == s
    ensures r.NewSize? ==> 1 <= r.size <= sizeMax && SizeChange(op, size, r.size) && |t| == |s|
    ensures r.NewSize? && !op.RandomBlockInsert? ==> t[size..] == s[size..]
    ensures r.NewSize? && op.RandomBlockInsert? ==> t[r.size..] == s[r.size..]
  {
    match op
    case FlipBit => FlipBitEffectFacts(s, size, t, r);
    case InterestingValue(w) => InterestingValueEffectFacts(s, size, w, LegacySpan(w), t, r);
    case ArithmeticSubstract(w) => ArithmeticSubtractEffectFacts(s, size, w, t, r);
    case ArithmeticAdd(w) => ArithmeticAddEffectFacts(s, size, w, t, r);
    case RandomByteReplace => RandomByteReplaceEffectFacts(s, size, t, r);
    case RemoveRandomBlock => RemoveRandomBlockEffectFacts(s, size, t, r);
    case RandomChunkOverwrite => RandomChunkOverwriteEffectFacts(s, size, t, r);
    case RandomBlockInsert => RandomBlockInsertEffectFacts(s, size, sizeMax, t, r);
  }

  /** One havoc step from a size within the capacity keeps the buffer's
      length, yields a size in [1, sizeMax] and leaves the bytes from
      sizeMax on as they were. */
  lemma StepFacts(a: State, b: State, sizeMax: nat)
    requires Step(a, b, sizeMax) && a.size <= sizeMax
    ensures |b.buffer| == |a.buffer| && 1 <= b.size <= sizeMax
    ensures b.buffer[sizeMax..] == a.buffer[sizeMax..]
  {
    var op :| op in Candidates(a.size, sizeMax) && MutationEffect(op, a.buffer, a.size, sizeMax, b.buffer, NewSize(b.size));
    EffectFacts(op, a, b, sizeMax);
  }

  /** StepFacts for a known operator. `MutateOnce` knows which operator it
      applied but has no `Step` to hand, and `StepFacts` only knows that
      some candidate made the step; both go through this lemma. */
  lemma EffectFacts(op: Operation, a: State, b: State, sizeMax: nat)
    requires a.size <= sizeMax <= |a.buffer|
    requires MutationEffect(op, a.buffer, a.size, sizeMax, b.buffer, NewSize(b.size))
    ensures |b.buffer| == |a.buffer| && 1 <= b.size <= sizeMax
    ensures b.buffer[sizeMax..] == a.buffer[sizeMax..]
  {
    MutationEffectFacts(op, a.buffer, a.size, sizeMax, b.buffer, NewSize(b.size));
    var from := if op.RandomBlockInsert? then b.size else a.size;
    SuffixKept(a.buffer, b.buffer, from, sizeMax);
  }

  /** Every state of a havoc trace that starts from a valid size keeps the
      size in [0, sizeMax] (in [1, sizeMax] after the first step) and leaves
      the bytes from sizeMax on as they were. */
  lemma {:induction false} TraceFacts(trace: seq<State>, sizeMax: nat)
    requires Trace(trace, sizeMax) && |trace| >= 1
    requires trace[0].size <= sizeMax <= |trace[0].buffer|
    ensures forall i :: 0 <= i < |trace| ==> trace[i].size <= sizeMax && |trace[i].buffer| == |trace[0].buffer|
    ensures forall i :: 0 < i < |trace| ==> 1 <= trace[i].size
    ensures forall i :: 0 <= i < |trace| ==> trace[i].buffer[sizeMax..] == trace[0].buffer[sizeMax..]
  {
    var n := |trace|;
    if n > 1 {
      var init := trace[..n - 1];
      assert Trace(init, sizeMax) by {
        forall i | 0 < i < |init|
          ensures Step(init[i - 1], init[i], sizeMax)
        {
          assert init[i - 1] == trace[i - 1] && init[i] == trace[i];
        }
      }
      TraceFacts(init, sizeMax);
      var last := trace[n - 1];
      assert init[n - 2] == trace[n - 2];
      StepFacts(trace[n - 2], last, sizeMax);
      forall i | 0 <= i < n
        ensures trace[i].size <= sizeMax && |trace[i].buffer| == |trace[0].buffer|
        ensures i > 0 ==> 1 <= trace[i].size
        ensures trace[i].buffer[sizeMax..] == trace[0].buffer[sizeMax..]
      {
        if i < n - 1 {
          assert trace[i] == init[i];
        }
      }
    }
  }

  // ---------------------------------------------------------------------------
  // The engine

  /** The byte work of RemoveRandomBlock: the rest of the value moves over
      the `d`-byte block at `k` and the `d` bytes freed at its end are
      zeroed. */
  method RemoveBlock(buf: array<Byte>, size: nat, k: nat, d: nat)
    requires k + d <= size <= buf.Length
    modifies buf
    ensures buf[..] == BlockRemoved(old(buf[..]), size, k, d)
  {
    ghost var s := buf[..];
    var remainder := size - k - d;
    MemMove(buf, k, k + d, remainder);
    MemSet(buf, k + remainder, 0, d);
    MoveAndFillRemoveBlock(s, size, k, d);
  }

  class MutationFunctions {
    /** m_vecInterestingInts. */
    const interesting: seq<nat>
    /** m_uiIteresting8Bit … m_uiIteresting64Bit. */
    const interesting8Bit: nat
    const interesting16Bit: nat
    const interesting32Bit: nat
    const interesting64Bit: nat
    /** m_vecHavocOperationsConstSize and m_vecHavocOperationsSizeIncrease. */
    const constSizeOperations: seq<Operation>
    const sizeIncreaseOperations: seq<Operation>
    /** m_randomengine. */
    const random: RandomEngine

    ghost predicate Valid()
    {
      interesting == LegacyTable() &&
      interesting8Bit == LegacyCount(1) && interesting16Bit == LegacyCount(2) &&
      interesting32Bit == LegacyCount(4) && interesting64Bit == LegacyCount(8) &&
      constSizeOperations == ConstSizeOperations() &&
      sizeIncreaseOperations == SizeIncreaseOperations()
    }

    /** Builds the interesting table (seeds, their other-endian forms, all
        widened to size_t) and the operator lists. */
    constructor ()
      ensures Valid() && fresh(random)
    {
      var vec16 := AddOtherEndian(Interesting16, 2);
      var vec32 := AddOtherEndian(Interesting32, 4);
      var vec64 := AddOtherEndian(Interesting64, 8);
      var table := AppendAsSizeT([], Interesting8);
      table := AppendAsSizeT(table, vec16);
      table := AppendAsSizeT(table, vec32);
      table := AppendAsSizeT(table, vec64);
      interesting := table;
      interesting8Bit := |Interesting8|;
      interesting16Bit := |vec16|;
      interesting32Bit := |vec32|;
      interesting64Bit := |vec64|;
      constSizeOperations := ConstSizeOperations();
      sizeIncreaseOperations := SizeIncreaseOperations();
      random := new RandomEngine();
    }

    /** The prefix of the table used for integers of `width` bytes; any other
        type has no interesting values (std::invalid_argument). */
    function GetInterestingValues(width: nat): (r: Result<seq<nat>>)
      requires Valid()
      ensures width == 1 || width == 2 || width == 4 || width == 8 ==> r == Ok(LegacySpan(width))
      ensures !(width == 1 || width == 2 || width == 4 || width == 8) ==> r == Err(InvalidArgument)
    {
      LegacyTableLayout();
      if width == 1 then Ok(interesting[..interesting8Bit])
      else if width == 2 then Ok(interesting[..interesting16Bit])
      else if width == 4 then Ok(interesting[..interesting32Bit])
      else if width == 8 then Ok(interesting[..interesting64Bit])
      else Err(InvalidArgument)
    }

    /** A random integer in [lo, hi]. */
    method RandomPosition(lo: nat, hi: nat) returns (r: nat)
      requires lo <= hi
      modifies random
      ensures lo <= r <= hi
    {
      r := random.Next(lo, hi);
    }

    /** A random offset at which a block of `sizeBlock` bytes fits in `size` bytes. */
    method ChooseIndexOfRandomBlock(size: nat, sizeBlock: nat) returns (r: nat)
      requires sizeBlock <= size
      modifies random
      ensures r + sizeBlock <= size
    {
      r := RandomPosition(0, size - sizeBlock);
    }

    /** A reference to a `width`-byte integer at a random offset of the value. */
    method ChooseRandomValueReference(buf: array<Byte>, size: nat, width: Width) returns (ref: AlignmentSafeReference)
      requires width <= size <= buf.Length
      modifies random
      ensures fresh(ref) && ref.Valid()
      ensures ref.data == buf && ref.width == width && ref.offset + width <= size
      ensures ref.Get() == Loaded(buf[..], ref.offset, width)
    {
      var offset := ChooseIndexOfRandomBlock(size, width);
      ref := new AlignmentSafeReference(buf, offset, width);
    }

    /** Flips a random bit of a random byte of the value. */
    method FlipBit(buf: array<Byte>, size: nat) returns (r: MutationResult)
      requires size <= buf.Length
      modifies buf, random
      ensures FlipBitEffect(old(buf[..]), size, buf[..], r)
    {
      if size == 0 {
        return MutationFailed;
      }
      ghost var s := buf[..];
      var ref := ChooseRandomValueReference(buf, size, 1);
      ghost var k := ref.offset;
      StoredByte(s, k, 0);
      var bit := RandomPosition(0, 7);
      var flipped := FlipBitOf(ref.Get(), bit);
      ref.Set(flipped);
      StoredByte(s, k, flipped);
      assert buf[..] == s[k := FlipBitOf(s[k], bit)];
      return NewSize(size);
    }

    /** Overwrites a random `width`-byte integer of the value with a random
        entry of the width's interesting values, truncated to the width. */
    method InterestingValue(buf: array<Byte>, size: nat, width: Width) returns (r: MutationResult)
      requires Valid() && size <= buf.Length
      modifies buf, random
      ensures InterestingValueEffect(old(buf[..]), size, width, LegacySpan(width), buf[..], r)
    {
      if size < width {
        return MutationFailed;
      }
      ghost var s := buf[..];
      var span := GetInterestingValues(width).value;
      LegacyTableLayout();
      var ref := ChooseRandomValueReference(buf, size, width);
      var j := RandomPosition(0, |span| - 1);
      ref.Set(Truncated(span[j], width));
      assert buf[..] == Stored(s, ref.offset, width, Truncated(span[j], width));
      return NewSize(size);
    }

    /** The random operand of the arithmetic operators: a number in
        [1, ARITHMETIC_MAX], byte-swapped with probability 1/2 when T is
        wider than a byte. */
    method ArithmeticOperandOf(width: Width) returns (d: nat, x: nat, swapped: bool)
      modifies random
      ensures 1 <= x <= ARITHMETIC_MAX && (swapped ==> width >= 2)
      ensures d == ArithmeticOperand(x, swapped, width)
    {
      x := RandomPosition(1, ARITHMETIC_MAX);
      d := x;
      swapped := false;
      if width >= 2 {
        var coin := RandomPosition(0, 1);
        if coin == 1 {
          d := SwapEndian(x, width);
          swapped := true;
        }
      }
    }

    /** Adds a random operand to a random `width`-byte integer of the value. */
    method ArithmeticAdd(buf: array<Byte>, size: nat, width: Width) returns (r: MutationResult)
      requires size <= buf.Length
      modifies buf, random
      ensures ArithmeticAddEffect(old(buf[..]), size, width, buf[..], r)
    {
      if size < width {
        return MutationFailed;
      }
      ghost var s := buf[..];
      var d, x, swapped := ArithmeticOperandOf(width);
      var ref := ChooseRandomValueReference(buf, size, width);
      ref.Set((ref.Get() + d) % Pow256(width));
      assert buf[..] == AddedAt(s, ref.offset, width, ArithmeticOperand(x, swapped, width));
      return NewSize(size);
    }

    /** Subtracts a random operand from a random `width`-byte integer of the value. */
    method ArithmeticSubstract(buf: array<Byte>, size: nat, width: Width) returns (r: MutationResult)
      requires size <= buf.Length
      modifies buf, random
      ensures ArithmeticSubtractEffect(old(buf[..]), size, width, buf[..], r)
    {
      if size < width {
        return MutationFailed;
      }
      ghost var s := buf[..];
      var d, x, swapped := ArithmeticOperandOf(width);
      var ref := ChooseRandomValueReference(buf, size, width);
      ref.Set((ref.Get() - d) % Pow256(width));
      assert buf[..] == SubtractedAt(s, ref.offset, width, ArithmeticOperand(x, swapped, width));
      return NewSize(size);
    }

    /** Replaces a random byte of the value with a random value in [1, 255]. */
    method RandomByteReplace(buf: array<Byte>, size: nat) returns (r: MutationResult)
      requires size <= buf.Length
      modifies buf, random
      ensures RandomByteReplaceEffect(old(buf[..]), size, buf[..], r)
    {
      if size == 0 {
        return MutationFailed;
      }
      ghost var s := buf[..];
      var ref := ChooseRandomValueReference(buf, size, 1);
      var b := RandomPosition(1, 255);
      ref.Set(b);
      StoredByte(s, ref.offset, b);
      assert buf[..] == Replaced(s, ref.offset, b);
      return NewSize(size);
    }

    /** Removes a random block of 1 to size - 1 bytes: the rest of the value
        moves over it and the freed bytes at the end become zero. */
    method RemoveRandomBlock(buf: array<Byte>, size: nat) returns (r: MutationResult)
      requires size <= buf.Length
      modifies buf, random
      ensures RemoveRandomBlockEffect(old(buf[..]), size, buf[..], r)
    {
      if size <= 1 {
        return MutationFailed;
      }
      ghost var s := buf[..];
      var sizeDelete := RandomPosition(1, size - 1);
      var blockIndex := ChooseIndexOfRandomBlock(size, sizeDelete);
      RemoveBlock(buf, size, blockIndex, sizeDelete);
      RemoveRandomBlockChoice(s, size, blockIndex, sizeDelete);
      return NewSize(size - sizeDelete);
    }

    /** Inserts a block of 1 to sizeMax - size bytes at a random position:
        the tail of the value is shifted right, and the hole is filled with a
        cloned block (probability 3/4, when the value is not empty) or with
        one byte repeated. */
    method RandomBlockInsert(buf: array<Byte>, size: nat, sizeMax: nat) returns (r: MutationResult)
      requires size <= buf.Length && sizeMax <= buf.Length
      modifies buf, random
      ensures RandomBlockInsertEffect(old(buf[..]), size, sizeMax, buf[..], r)
    {
      if sizeMax <= size {
        return MutationFailed;
      }
      ghost var s := buf[..];
      var sizeInsertBlock := RandomPosition(1, sizeMax - size);
      var insertPosition := RandomPosition(0, size);
      var sizeTail := size - insertPosition;
      var newTailPosition := insertPosition + sizeInsertBlock;
      // The source copies the tail with memcpy although the two ranges
      // overlap whenever the tail is longer than the block; the model gives
      // the copy memmove's meaning, which is what the code intends.
      MemMove(buf, newTailPosition, insertPosition, sizeTail);
      assert buf[..] == TailShifted(s, size, insertPosition, sizeInsertBlock);
      ghost var block := WriteInsertedBlock(buf, s, size, sizeMax, insertPosition, sizeInsertBlock);
      assert buf[..] == Inserted(s, size, insertPosition, block);
      return NewSize(size + sizeInsertBlock);
    }

    /** The second half of RandomBlockInsert: with the tail already moved
        out of the way, fills the gap at `insertPosition` with a cloned
        block (probability 3/4, when the value is not empty) or with one
        byte repeated. */
    method WriteInsertedBlock(buf: array<Byte>, ghost s: seq<Byte>, size: nat, sizeMax: nat, insertPosition: nat, sizeInsertBlock: nat)
      returns (ghost block: seq<Byte>)
      requires insertPosition <= size && 1 <= sizeInsertBlock && size + sizeInsertBlock <= sizeMax <= buf.Length == |s|
      requires buf[..] == TailShifted(s, size, insertPosition, sizeInsertBlock)
      modifies buf, random
      ensures |block| == sizeInsertBlock && InsertSource(s, size, sizeMax, insertPosition, block)
      ensures buf[..] == Inserted(s, size, insertPosition, block)
    {
      ghost var shifted := buf[..];
      var clone := RandomPosition(0, 3);
      if clone != 0 && size > 0 {
        // The clone source is drawn from the whole capacity, not only the value.
        var cloneFrom := ChooseIndexOfRandomBlock(sizeMax, sizeInsertBlock);
        MemMove(buf, insertPosition, cloneFrom, sizeInsertBlock);
        ShiftAndMoveInsertBlock(s, size, insertPosition, sizeInsertBlock, cloneFrom);
        block := Window(shifted, cloneFrom, sizeInsertBlock);
      } else {
        var randomByte;
        ghost var fromValue;
        randomByte, fromValue := InsertedByte(buf, size);
        MemSet(buf, insertPosition, randomByte, sizeInsertBlock);
        ShiftAndFillInsertBlock(s, size, insertPosition, sizeInsertBlock, randomByte);
        block := Run(randomByte, sizeInsertBlock);
      }
    }

    /** The byte RandomBlockInsert repeats: drawn from [0, 255] or (with
        probability 1/2, when the value is not empty) read from a random
        position of the value; `fromValue` tells which. */
    method InsertedByte(buf: array<Byte>, size: nat) returns (randomByte: Byte, ghost fromValue: bool)
      requires size <= buf.Length
      modifies random
      ensures size == 0 ==> !fromValue
      ensures fromValue ==> randomByte in buf[..size]
    {
      var coin := RandomPosition(0, 1);
      if coin == 0 || size == 0 {
        randomByte := RandomPosition(0, 255);
        fromValue := false;
      } else {
        var ref := ChooseRandomValueReference(buf, size, 1);
        randomByte := ref.Get();
        fromValue := true;
        assert Loaded(buf[..], ref.offset, 1) == buf[ref.offset];
        assert buf[..size][ref.offset] == buf[ref.offset];
      }
    }

    /** Overwrites a random block of 1 to size bytes of the value with a
        cloned block of the value (probability 3/4) or with one byte repeated. */
    method RandomChunkOverwrite(buf: array<Byte>, size: nat) returns (r: MutationResult)
      requires size <= buf.Length
      modifies buf, random
      ensures RandomChunkOverwriteEffect(old(buf[..]), size, buf[..], r)
    {
      if size == 0 {
        return MutationFailed;
      }
      ghost var s := buf[..];
      var sizeReplaceBlock := RandomPosition(1, size);
      var replaceTo := ChooseIndexOfRandomBlock(size, sizeReplaceBlock);
      var clone := RandomPosition(0, 3);
      if clone != 0 {
        var cloneFrom := ChooseIndexOfRandomBlock(size, sizeReplaceBlock);
        MemMove(buf, replaceTo, cloneFrom, sizeReplaceBlock);
        assert buf[..] == Moved(s, replaceTo, cloneFrom, sizeReplaceBlock);
      } else {
        var coin := RandomPosition(0, 1);
        var randomByte: Byte;
        if coin != 0 {
          var ref := ChooseRandomValueReference(buf, size, 1);
          randomByte := ref.Get();
        } else {
          randomByte := RandomPosition(0, 255);
        }
        MemSet(buf, replaceTo, randomByte, sizeReplaceBlock);
        assert buf[..] == Filled(s, replaceTo, randomByte, sizeReplaceBlock);
      }
      assert ChunkOverwritten(s, size, replaceTo, sizeReplaceBlock, buf[..]);
      return NewSize(size);
    }

    /** Invokes one operator on the buffer, as the bound std::function does. */
    method Apply(op: Operation, buf: array<Byte>, size: nat, sizeMax: nat) returns (r: MutationResult)
      requires Valid() && size <= buf.Length && sizeMax <= buf.Length
      modifies buf, random
      ensures MutationEffect(op, old(buf[..]), size, sizeMax, buf[..], r)
    {
      match op
      case FlipBit => r := FlipBit(buf, size);
      case InterestingValue(w) => r := InterestingValue(buf, size, w);
      case ArithmeticSubstract(w) => r := ArithmeticSubstract(buf, size, w);
      case ArithmeticAdd(w) => r := ArithmeticAdd(buf, size, w);
      case RandomByteReplace => r := RandomByteReplace(buf, size);
      case RemoveRandomBlock => r := RemoveRandomBlock(buf, size);
      case RandomChunkOverwrite => r := RandomChunkOverwrite(buf, size);
      case RandomBlockInsert => r := RandomBlockInsert(buf, size, sizeMax);
    }

    /** Refills the candidate list for one round: the size-increasing
        operators while the value can grow, then the size-constant ones while
        the value is not empty. */
    method CollectCandidates(possibleMutations: VectorConcatenation<Operation>, sizeNew: nat, sizeMax: nat)
      requires Valid()
      modifies possibleMutations
      ensures possibleMutations.Valid() && possibleMutations.Elements() == Candidates(sizeNew, sizeMax)
    {
      possibleMutations.Clear();
      if sizeMax > sizeNew {
        possibleMutations.Concatenate(sizeIncreaseOperations);
      }
      if sizeNew != 0 {
        possibleMutations.Concatenate(constSizeOperations);
      }
    }

    /** One round of the havoc loop: collects the candidates the size
        allows, picks one (`op`) at random and applies it. A failure leaves
        the buffer as it was, is a failure of the drawn candidate and can
        only happen to a value of fewer than 8 bytes; a success is a step of
        the trace. */
    method MutateOnce(possibleMutations: VectorConcatenation<Operation>, buf: array<Byte>, size: nat, sizeMax: nat)
      returns (result: MutationResult, ghost op: Operation)
      requires Valid() && size <= sizeMax <= buf.Length && sizeMax != 0
      modifies possibleMutations, buf, random
      ensures op in Candidates(size, sizeMax)
      ensures result == MutationFailed <==> Fails(op, size, sizeMax)
      ensures result == MutationFailed ==> buf[..] == old(buf[..]) && size < 8
      ensures result.NewSize? ==>
        Step(State(old(buf[..]), size), State(buf[..], result.size), sizeMax) &&
        1 <= result.size <= sizeMax && buf[sizeMax..] == old(buf[sizeMax..])
    {
      CollectCandidates(possibleMutations, size, sizeMax);
      CandidatesFacts(size, sizeMax);
      var operationIndex := RandomPosition(0, possibleMutations.Size() - 1);
      var chosen := possibleMutations.Subscript(operationIndex);
      var operation := chosen.value;
      op := operation;
      assert operation in Candidates(size, sizeMax);
      ghost var before := buf[..];
      result := Apply(operation, buf, size, sizeMax);
      MutationEffectFacts(operation, before, size, sizeMax, buf[..], result);
      if result.NewSize? {
        EffectFacts(operation, State(before, size), State(buf[..], result.size), sizeMax);
      }
    }

    /** Applies `iterations` successful havoc mutations to the value
        `buf[..size]` in a capacity of `sizeMax` bytes and returns the new
        size. A failed operator restores the size and does not count; the
        128th failure in a row aborts with HavocHung, and a success resets
        the count. Sizes that leave no operator to draw are rejected with
        InvalidArgument.

        `trace` holds the state before the call and after every successful
        mutation; `failed` holds the operators drawn since the last success,
        each of which failed on the last state of the trace. */
    method Havoc(buf: array<Byte>, size: nat, sizeMax: nat, iterations: nat)
      returns (r: Result<nat>, ghost trace: seq<State>, ghost failed: seq<Operation>)
      requires Valid() && sizeMax <= buf.Length
      modifies buf, random
      ensures r == Err(InvalidArgument) <==> size > sizeMax || (size == 0 && sizeMax == 0)
      ensures r == Err(InvalidArgument) ==> buf[..] == old(buf[..])
      ensures r.Ok? || r == Err(HavocHung) ==>
        |trace| >= 1 && trace[0] == State(old(buf[..]), size) && Trace(trace, sizeMax) &&
        trace[|trace| - 1].buffer == buf[..]
      ensures r.Ok? ==> |trace| == iterations + 1 && r.value == trace[|trace| - 1].size
      ensures r.Ok? ==> r.value <= sizeMax && (iterations > 0 ==> r.value >= 1)
      ensures r.Ok? || r == Err(HavocHung) ==> buf[sizeMax..] == old(buf[sizeMax..])
      ensures r == Err(HavocHung) ==> trace[|trace| - 1].size < 8
      ensures r == Err(HavocHung) ==> |failed| == MAX_FAILED_MUTATIONS
      ensures r == Err(HavocHung) ==> forall op <- failed ::
        op in Candidates(trace[|trace| - 1].size, sizeMax) && Fails(op, trace[|trace| - 1].size, sizeMax)
      ensures r.Ok? ==> failed == []
      ensures r.Err? ==> r.error == InvalidArgument || r.error == HavocHung
    {
      trace, failed := [], [];
      if size > sizeMax || (size == 0 && sizeMax == 0) {
        return Err(InvalidArgument), trace, failed;
      }
      var sizeNew: nat := size;
      var iterationsWithErrors: nat := 0;
      var possibleMutations := new VectorConcatenation<Operation>();
      trace := [State(buf[..], size)];
      var i: int := 0;
      while i < iterations
        invariant 0 <= i <= iterations
        invariant sizeNew <= sizeMax && iterationsWithErrors < MAX_FAILED_MUTATIONS
        invariant |trace| == i + 1 && trace[0] == State(old(buf[..]), size) && Trace(trace, sizeMax)
        invariant trace[|trace| - 1] == State(buf[..], sizeNew)
        invariant i > 0 ==> sizeNew >= 1
        invariant buf[sizeMax..] == old(buf[sizeMax..])
        invariant fresh(possibleMutations)
        invariant |failed| == iterationsWithErrors && (iterationsWithErrors > 0 ==> i < iterations)
        invariant forall op <- failed :: op in Candidates(sizeNew, sizeMax) && Fails(op, sizeNew, sizeMax)
        decreases iterations - i, MAX_FAILED_MUTATIONS - iterationsWithErrors
      {
        var result;
        ghost var op;
        result, op := MutateOnce(possibleMutations, buf, sizeNew, sizeMax);
        if result == MutationFailed {
          i := i - 1;
          iterationsWithErrors := iterationsWithErrors + 1;
          failed := failed + [op];
          if iterationsWithErrors >= MAX_FAILED_MUTATIONS {
            return Err(HavocHung), trace, failed;
          }
        } else {
          sizeNew := result.size;
          iterationsWithErrors := 0;
          failed := [];
          trace := trace + [State(buf[..], sizeNew)];
        }
        i := i + 1;
      }
      return Ok(sizeNew), trace, failed;
    }
  }
}
