/**
 * The two standard range algorithms the interesting-integer table is built
 * with: `std::ranges::sort` (modelled as an in-place insertion sort) and
 * `std::ranges::unique`, which moves the first element of every run of equal
 * neighbours to the front and reports where they end.
 */
module Algorithms {

  /** Ascending order, duplicates allowed. */
  ghost predicate Sorted(s: seq<nat>)
  {
    forall i, j :: 0 <= i < j < |s| ==> s[i] <= s[j]
  }

  /** Ascending order without duplicates. */
  ghost predicate StrictlyIncreasing(s: seq<nat>)
  {
    forall i, j :: 0 <= i < j < |s| ==> s[i] < s[j]
  }

  /** `std::ranges::sort`: an in-place insertion sort. */
  method Sort(a: array<nat>)
    modifies a
    ensures Sorted(a[..])
    ensures multiset(a[..]) == multiset(old(a[..]))
  {
    var i := 0;
    while i < a.Length
      invariant 0 <= i <= a.Length
      invariant Sorted(a[..i])
      invariant multiset(a[..]) == multiset(old(a[..]))
    {
      InsertLast(a, i);
      i := i + 1;
    }
    assert a[..] == a[..a.Length];
  }

  /** The state while `a[j]` sinks into the sorted prefix `a[..i]`: the
      first i + 1 elements are in order except at position j, and the
      neighbours of j are in order with each other. */
  ghost predicate Sinking(s: seq<nat>, j: nat, i: nat)
  {
    j <= i < |s| &&
    (forall p, q :: 0 <= p < q <= i && q != j ==> s[p] <= s[q]) &&
    (0 < j < i ==> s[j - 1] <= s[j + 1])
  }

  /** `s` with elements j - 1 and j exchanged. */
  function Swapped(s: seq<nat>, j: nat): (r: seq<nat>)
    requires 0 < j < |s|
    ensures multiset(r) == multiset(s)
  {
    s[j - 1 := s[j]][j := s[j - 1]]
  }

  /** Exchanging the sinking element with a larger left neighbour keeps the
      shape one position further left. */
  lemma SinkingStep(s: seq<nat>, j: nat, i: nat)
    requires Sinking(s, j, i) && 0 < j && s[j - 1] > s[j]
    ensures Sinking(Swapped(s, j), j - 1, i)
  {
  }

  /** Once the sinking element meets a neighbour no larger than it, the
      prefix is sorted. */
  lemma SinkingDone(s: seq<nat>, j: nat, i: nat)
    requires Sinking(s, j, i) && (j == 0 || s[j - 1] <= s[j])
    ensures Sorted(s[..i + 1])
  {
  }

  /** One step of the insertion sort: swaps `a[i]` down into the sorted
      prefix `a[..i]`. */
  method InsertLast(a: array<nat>, i: nat)
    requires i < a.Length
    requires Sorted(a[..i])
    modifies a
    ensures Sorted(a[..i + 1])
    ensures multiset(a[..]) == multiset(old(a[..]))
  {
    var j: nat := i;
    while j > 0 && a[j - 1] > a[j]
      invariant Sinking(a[..], j, i)
      invariant multiset(a[..]) == multiset(old(a[..]))
    {
      ghost var s := a[..];
      SinkingStep(s, j, i);
      a[j - 1], a[j] := a[j], a[j - 1];
      assert a[..] == Swapped(s, j);
      j := j - 1;
    }
    SinkingDone(a[..], j, i);
  }

  /** The sequence with every run of equal neighbours reduced to its first
      element: what `std::ranges::unique` keeps in front. */
  function Dedup(s: seq<nat>): (r: seq<nat>)
    ensures |r| <= |s|
    ensures s != [] ==> r != [] && r[|r| - 1] == s[|s| - 1]
  {
    if s == [] then []
    else
      var d := Dedup(s[..|s| - 1]);
      if d != [] && d[|d| - 1] == s[|s| - 1] then d else d + [s[|s| - 1]]
  }

  /** Removing repeated neighbours keeps every value and drops none, and on
      a sorted sequence it leaves a strictly increasing one. */
  lemma {:induction false} DedupFacts(s: seq<nat>)
    ensures forall x :: x in Dedup(s) <==> x in s
    ensures Sorted(s) ==> StrictlyIncreasing(Dedup(s))
    decreases |s|
  {
    if s != [] {
      var init := s[..|s| - 1];
      var x := s[|s| - 1];
      assert s == init + [x];
      DedupFacts(init);
      if Sorted(s) {
        assert Sorted(init);
        var d := Dedup(init);
        if init != [] {
          assert d[|d| - 1] == init[|init| - 1] <= x;
        }
      }
    }
  }

  /** Dedup of a non-empty prefix extended by one element: the element is
      appended unless it repeats the last one kept. */
  lemma DedupSnoc(s: seq<nat>, i: nat)
    requires 0 < i < |s|
    ensures var d := Dedup(s[..i]);
      Dedup(s[..i + 1]) == if d[|d| - 1] == s[i] then d else d + [s[i]]
  {
    assert s[..i + 1][..i] == s[..i];
  }

  /** `std::ranges::unique`: moves the first element of every run of equal
      neighbours to the front, in order, and returns how many there are. */
  method Unique(a: array<nat>) returns (k: nat)
    modifies a
    ensures k <= a.Length
    ensures a[..k] == Dedup(old(a[..]))
  {
    ghost var s := a[..];
    if a.Length == 0 {
      return 0;
    }
    k := 1;
    var i := 1;
    assert s[..1] == [s[0]];
    while i < a.Length
      invariant 1 <= k <= i <= a.Length
      invariant a[..k] == Dedup(s[..i])
      invariant a[i..] == s[i..]
    {
      DedupSnoc(s, i);
      assert a[i] == s[i];
      k := KeepIfNew(a, k, i);
      i := i + 1;
    }
    assert s[..i] == s;
  }

  /** One step of Unique: element `i` is kept, at position `k`, unless it
      equals the last element kept. Elements after `i` are not touched. */
  method KeepIfNew(a: array<nat>, k: nat, i: nat) returns (k': nat)
    requires 1 <= k <= i < a.Length
    modifies a
    ensures k' <= i + 1
    ensures a[..k'] == if old(a[k - 1]) == old(a[i]) then old(a[..k]) else old(a[..k]) + [old(a[i])]
    ensures a[i + 1..] == old(a[i + 1..])
  {
    if a[k - 1] != a[i] {
      a[k] := a[i];
      k' := k + 1;
    } else {
      k' := k;
    }
  }


}
