/**
 * AFLMutationFunctions::Details::Ranges: picking a random element or a
 * random window of a range, and filtering mutations by what the sizes of the
 * buffer and of the value allow.
 *
 * A mutation is anything that says whether it increases and whether it
 * reduces the size of the value (the SizeModifying concept); the two
 * questions are passed to the filter as functions.
 */
module DetailsRanges {
  import opened Random

  /** SelectRandom on a random-access range: the element at a position drawn
      from [0, size - 1]. */
  method SelectRandom<T>(range: seq<T>, gen: RandomEngine) returns (r: T)
    requires |range| > 0
    modifies gen
    ensures exists i :: 0 <= i < |range| && range[i] == r
  {
    var i := gen.Next(0, |range| - 1);
    r := range[i];
  }

  /** SelectRandomSubrange: `size` consecutive elements of `source` from an
      offset drawn from [0, |source| - size], so that the window fits. */
  method SelectRandomSubrange<T>(source: seq<T>, size: nat, gen: RandomEngine) returns (offset: nat, subrange: seq<T>)
    requires size <= |source|
    modifies gen
    ensures offset + size <= |source|
    ensures subrange == source[offset..offset + size]
  {
    offset := gen.Next(0, |source| - size);
    subrange := source[offset..offset + size];
  }

  // ---------------------------------------------------------------------------
  // Filtering

  /** The elements of `s` that satisfy `p`, in their order (std::views::filter). */
  function Select<T>(s: seq<T>, p: T -> bool): (r: seq<T>)
    ensures |r| <= |s|
  {
    if s == [] then [] else (if p(s[0]) then [s[0]] else []) + Select(s[1..], p)
  }

  /** A filter keeps exactly the elements that satisfy its predicate. */
  lemma {:induction false} SelectMembers<T>(s: seq<T>, p: T -> bool)
    ensures forall i :: 0 <= i < |Select(s, p)| ==> p(Select(s, p)[i])
    ensures forall x :: x in Select(s, p) <==> x in s && p(x)
  {
    if s != [] {
      SelectMembers(s[1..], p);
      assert forall x :: x in s <==> x == s[0] || x in s[1..];
    }
  }

  /** Filtering keeps the order: filtering a concatenation concatenates the
      filtered parts. */
  lemma {:induction false} SelectAppend<T>(a: seq<T>, b: seq<T>, p: T -> bool)
    ensures Select(a + b, p) == Select(a, p) + Select(b, p)
  {
    if a != [] {
      assert (a + b)[1..] == a[1..] + b;
      SelectAppend(a[1..], b, p);
    } else {
      assert a + b == b;
    }
  }

  /** Two predicates that agree on the elements select the same elements. */
  lemma {:induction false} SelectAgree<T>(s: seq<T>, p: T -> bool, q: T -> bool)
    requires forall i :: 0 <= i < |s| ==> p(s[i]) == q(s[i])
    ensures Select(s, p) == Select(s, q)
  {
    if s != [] {
      SelectAgree(s[1..], p, q);
    }
  }

  /** Chaining two filters is filtering by both predicates. */
  lemma {:induction false} SelectSelect<T>(s: seq<T>, p: T -> bool, q: T -> bool)
    ensures Select(Select(s, p), q) == Select(s, x => p(x) && q(x))
  {
    if s != [] {
      SelectSelect(s[1..], p, q);
      var head := if p(s[0]) then [s[0]] else [];
      SelectAppend(head, Select(s[1..], p), q);
      if p(s[0]) {
        assert Select(head, q) == if q(s[0]) then [s[0]] else [] by {
          assert head[1..] == [];
        }
      }
    }
  }

  /** A filter whose predicate holds everywhere keeps everything. */
  lemma {:induction false} SelectAll<T>(s: seq<T>, p: T -> bool)
    requires forall i :: 0 <= i < |s| ==> p(s[i])
    ensures Select(s, p) == s
  {
    if s != [] {
      SelectAll(s[1..], p);
    }
  }

  /** A filter whose predicate holds nowhere keeps nothing. */
  lemma {:induction false} SelectNone<T>(s: seq<T>, p: T -> bool)
    requires forall i :: 0 <= i < |s| ==> !p(s[i])
    ensures Select(s, p) == []
  {
    if s != [] {
      SelectNone(s[1..], p);
    }
  }

  /** An element that passed three chained filters is an element of the
      unfiltered list that satisfies all three. */
  lemma SelectedByAll<T>(s: seq<T>, p1: T -> bool, p2: T -> bool, p3: T -> bool, x: T)
    requires x in Select(Select(Select(s, p1), p2), p3)
    ensures x in s && p1(x) && p2(x) && p3(x)
  {
    SelectMembers(Select(Select(s, p1), p2), p3);
    SelectMembers(Select(s, p1), p2);
    SelectMembers(s, p1);
  }

  /** The three filters of FilterMutations for one mutation together:
      increasing mutations only when the value is empty, reducing ones only
      when the value exceeds the buffer, and no increasing one when the
      buffer has no room. */
  predicate Suitable<T>(m: T, isIncreasing: T -> bool, isReducing: T -> bool, sizeBuffer: nat, sizeValue: nat)
  {
    var canIncrease := sizeBuffer > sizeValue;
    var mustIncrease := sizeValue == 0;
    var mustReduce := sizeBuffer < sizeValue;
    (!mustIncrease || isIncreasing(m)) && (!mustReduce || isReducing(m)) && (canIncrease || !isIncreasing(m))
  }

  /** The first filter: only increasing mutations while the value is empty. */
  function MustIncreaseFilter<T>(isIncreasing: T -> bool, sizeValue: nat): T -> bool
  {
    var mustIncrease := sizeValue == 0;
    m => !mustIncrease || isIncreasing(m)
  }

  /** The second filter: only reducing mutations while the value exceeds the buffer. */
  function MustReduceFilter<T>(isReducing: T -> bool, sizeBuffer: nat, sizeValue: nat): T -> bool
  {
    var mustReduce := sizeBuffer < sizeValue;
    m => !mustReduce || isReducing(m)
  }

  /** The third filter: no increasing mutation once the buffer has no room. */
  function CanIncreaseFilter<T>(isIncreasing: T -> bool, sizeBuffer: nat, sizeValue: nat): T -> bool
  {
    var canIncrease := sizeBuffer > sizeValue;
    m => canIncrease || !isIncreasing(m)
  }

  /** FilterMutations: the three filters chained over the mutations. */
  function FilterMutations<T>(mutations: seq<T>, isIncreasing: T -> bool, isReducing: T -> bool, sizeBuffer: nat, sizeValue: nat): (r: seq<T>)
    ensures |r| <= |mutations|
    ensures forall m <- r :: m in mutations && Suitable(m, isIncreasing, isReducing, sizeBuffer, sizeValue)
    ensures forall m <- mutations :: Suitable(m, isIncreasing, isReducing, sizeBuffer, sizeValue) ==> m in r
  {
    var p1 := MustIncreaseFilter(isIncreasing, sizeValue);
    var p2 := MustReduceFilter(isReducing, sizeBuffer, sizeValue);
    var p3 := CanIncreaseFilter(isIncreasing, sizeBuffer, sizeValue);
    var r := Select(Select(Select(mutations, p1), p2), p3);
    assert forall m <- r :: m in mutations && Suitable(m, isIncreasing, isReducing, sizeBuffer, sizeValue) by {
      forall m | m in r
        ensures m in mutations && Suitable(m, isIncreasing, isReducing, sizeBuffer, sizeValue)
      {
        SelectedByAll(mutations, p1, p2, p3, m);
      }
    }
    assert forall m <- mutations :: Suitable(m, isIncreasing, isReducing, sizeBuffer, sizeValue) ==> m in r by {
      SelectMembers(mutations, p1);
      SelectMembers(Select(mutations, p1), p2);
      SelectMembers(Select(Select(mutations, p1), p2), p3);
    }
    r
  }

  /** The filtered mutations are, in their original order, exactly the
      suitable ones. */
  lemma FilterMutationsSuitable<T>(mutations: seq<T>, isIncreasing: T -> bool, isReducing: T -> bool, sizeBuffer: nat, sizeValue: nat)
    ensures FilterMutations(mutations, isIncreasing, isReducing, sizeBuffer, sizeValue)
         == Select(mutations, m => Suitable(m, isIncreasing, isReducing, sizeBuffer, sizeValue))
    ensures forall m :: m in FilterMutations(mutations, isIncreasing, isReducing, sizeBuffer, sizeValue)
                    <==> m in mutations && Suitable(m, isIncreasing, isReducing, sizeBuffer, sizeValue)
  {
    var p1 := MustIncreaseFilter(isIncreasing, sizeValue);
    var p2 := MustReduceFilter(isReducing, sizeBuffer, sizeValue);
    var p3 := CanIncreaseFilter(isIncreasing, sizeBuffer, sizeValue);
    var p12: T -> bool := m => p1(m) && p2(m);
    var suitable: T -> bool := m => Suitable(m, isIncreasing, isReducing, sizeBuffer, sizeValue);
    SelectSelect(mutations, p1, p2);
    SelectSelect(mutations, p12, p3);
    SelectAgree(mutations, m => p12(m) && p3(m), suitable);
    SelectMembers(mutations, suitable);
  }

  /** What the filter leaves for each relation of value size to buffer size:
      everything while the value is non-empty and has room to grow, every
      mutation but the increasing ones when the buffer is full, only
      reducing ones (that do not also increase) when the value exceeds the
      buffer, only increasing ones when the value is empty, and nothing
      when both sizes are zero. */
  lemma FilterMutationsCases<T>(mutations: seq<T>, isIncreasing: T -> bool, isReducing: T -> bool, sizeBuffer: nat, sizeValue: nat)
    ensures 0 < sizeValue < sizeBuffer ==> FilterMutations(mutations, isIncreasing, isReducing, sizeBuffer, sizeValue) == mutations
    ensures 0 < sizeValue == sizeBuffer ==>
      FilterMutations(mutations, isIncreasing, isReducing, sizeBuffer, sizeValue) == Select(mutations, m => !isIncreasing(m))
    ensures sizeBuffer < sizeValue ==>
      FilterMutations(mutations, isIncreasing, isReducing, sizeBuffer, sizeValue) == Select(mutations, m => isReducing(m) && !isIncreasing(m))
    ensures sizeValue == 0 < sizeBuffer ==>
      FilterMutations(mutations, isIncreasing, isReducing, sizeBuffer, sizeValue) == Select(mutations, isIncreasing)
    ensures sizeValue == 0 == sizeBuffer ==> FilterMutations(mutations, isIncreasing, isReducing, sizeBuffer, sizeValue) == []
  {
    var suitable: T -> bool := m => Suitable(m, isIncreasing, isReducing, sizeBuffer, sizeValue);
    FilterMutationsSuitable(mutations, isIncreasing, isReducing, sizeBuffer, sizeValue);
    if 0 < sizeValue < sizeBuffer {
      SelectAll(mutations, suitable);
    } else if 0 < sizeValue == sizeBuffer {
      SelectAgree(mutations, suitable, m => !isIncreasing(m));
    } else if sizeBuffer < sizeValue {
      SelectAgree(mutations, suitable, m => isReducing(m) && !isIncreasing(m));
    } else if sizeValue == 0 < sizeBuffer {
      SelectAgree(mutations, suitable, isIncreasing);
    } else {
      SelectNone(mutations, suitable);
    }
  }

  /** A stand-in mutation that only answers the two size questions. */
  datatype MockSizeModifying = MockSizeModifying(increasing: bool, reducing: bool)
  {
    predicate IsIncreasing() { increasing }
    predicate IsReducing() { reducing }
    predicate IsConstant() { !(increasing || reducing) }
  }

  /** One constant, one increasing and one reducing stand-in. */
  function AllSizeModifying(): seq<MockSizeModifying>
  {
    [MockSizeModifying(false, false), MockSizeModifying(true, false), MockSizeModifying(false, true)]
  }

  /** The two size questions of the stand-ins, as functions. */
  function IncreasingOf(m: MockSizeModifying): bool { m.IsIncreasing() }
  function ReducingOf(m: MockSizeModifying): bool { m.IsReducing() }

  /** Filtering a three-element list, spelled out. */
  lemma SelectOfThree<T>(a: T, b: T, c: T, p: T -> bool)
    ensures Select([a, b, c], p) == (if p(a) then [a] else []) + (if p(b) then [b] else []) + (if p(c) then [c] else [])
  {
    assert [a, b, c][1..] == [b, c];
    assert [b, c][1..] == [c];
    assert [c][1..] == [];
    assert Select([c], p) == (if p(c) then [c] else []);
    assert Select([b, c], p) == (if p(b) then [b] else []) + Select([c], p);
    assert Select([a, b, c], p) == (if p(a) then [a] else []) + Select([b, c], p);
  }

  /** The compile-time checks of FilterMutations (buffer size first, then
      value size): a full buffer keeps no increasing mutation. */
  lemma FilterMutationsFullBuffer()
    ensures var r := FilterMutations(AllSizeModifying(), IncreasingOf, ReducingOf, 5, 5);
      |r| == 2 && forall i :: 0 <= i < |r| ==> !r[i].IsIncreasing()
  {
    FilterMutationsCases(AllSizeModifying(), IncreasingOf, ReducingOf, 5, 5);
    SelectOfThree(MockSizeModifying(false, false), MockSizeModifying(true, false), MockSizeModifying(false, true), m => !IncreasingOf(m));
  }

  /** A value with room to grow keeps all three stand-ins. */
  lemma FilterMutationsRoomToGrow()
    ensures FilterMutations(AllSizeModifying(), IncreasingOf, ReducingOf, 6, 5) == AllSizeModifying()
  {
    FilterMutationsCases(AllSizeModifying(), IncreasingOf, ReducingOf, 6, 5);
  }

  /** A value larger than its buffer keeps only the reducing stand-in. */
  lemma FilterMutationsOversized()
    ensures var r := FilterMutations(AllSizeModifying(), IncreasingOf, ReducingOf, 4, 5);
      |r| == 1 && forall i :: 0 <= i < |r| ==> r[i].IsReducing()
  {
    FilterMutationsCases(AllSizeModifying(), IncreasingOf, ReducingOf, 4, 5);
    SelectOfThree(MockSizeModifying(false, false), MockSizeModifying(true, false), MockSizeModifying(false, true), m => ReducingOf(m) && !IncreasingOf(m));
  }

  /** An empty value keeps only the increasing stand-in. */
  lemma FilterMutationsEmptyValue()
    ensures var r := FilterMutations(AllSizeModifying(), IncreasingOf, ReducingOf, 5, 0);
      |r| == 1 && forall i :: 0 <= i < |r| ==> r[i].IsIncreasing()
  {
    FilterMutationsCases(AllSizeModifying(), IncreasingOf, ReducingOf, 5, 0);
    SelectOfThree(MockSizeModifying(false, false), MockSizeModifying(true, false), MockSizeModifying(false, true), IncreasingOf);
  }
}
