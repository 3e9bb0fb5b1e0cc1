/**
 * CVectorConcatenation<T>: a read-only view of several vectors one after the
 * other, indexed as if they were one vector. The view holds the vectors it
 * was given and the total number of their elements.
 *
 * The vectors are modelled as the values they hold when they are added; the
 * view never changes them.
 */
module VectorConcatenation {
  import opened Errors

  /** The elements of `vs` one vector after the other. */
  function Flatten<T>(vs: seq<seq<T>>): seq<T>
  {
    if vs == [] then [] else vs[0] + Flatten(vs[1..])
  }

  /** Appending a vector appends its elements: the elements already in the
      concatenation keep their indices. */
  lemma {:induction false} FlattenAppend<T>(vs: seq<seq<T>>, v: seq<T>)
    ensures Flatten(vs + [v]) == Flatten(vs) + v
  {
    if vs == [] {
      assert [v][1..] == [];
    } else {
      assert (vs + [v])[1..] == vs[1..] + [v];
      FlattenAppend(vs[1..], v);
    }
  }

  /** Element `i` of the concatenation, when `i` lies in vector `k`, is
      element `i - (lengths of vectors 0..k-1)` of that vector. */
  lemma {:induction false} FlattenAt<T>(vs: seq<seq<T>>, k: nat, j: nat)
    requires k < |vs| && j < |vs[k]|
    ensures |Flatten(vs[..k])| + j < |Flatten(vs)|
    ensures Flatten(vs)[|Flatten(vs[..k])| + j] == vs[k][j]
  {
    if k > 0 {
      assert vs[1..][..k - 1] == vs[..k][1..];
      FlattenAt(vs[1..], k - 1, j);
    }
  }

  class VectorConcatenation<T> {
    /** m_vecpvecConcatenated: the concatenated vectors, in order. */
    var vectors: seq<seq<T>>
    /** m_sizeElements: the number of elements in all the vectors. */
    var sizeElements: nat

    ghost predicate Valid()
      reads this
    {
      sizeElements == |Flatten(vectors)|
    }

    /** The elements the view presents, in index order. */
    ghost function Elements(): seq<T>
      reads this
    {
      Flatten(vectors)
    }

    constructor ()
      ensures Valid() && vectors == [] && Elements() == []
    {
      vectors := [];
      sizeElements := 0;
    }

    /** Adds a vector to the end of the concatenation. */
    method Concatenate(source: seq<T>)
      requires Valid()
      modifies this
      ensures Valid()
      ensures vectors == old(vectors) + [source]
      ensures Elements() == old(Elements()) + source
    {
      FlattenAppend(vectors, source);
      vectors := vectors + [source];
      sizeElements := sizeElements + |source|;
    }

    /** The number of elements in all the concatenated vectors. */
    function Size(): (n: nat)
      reads this
      requires Valid()
      ensures n == |Elements()|
    {
      sizeElements
    }

    /** Forgets the concatenated vectors (which are themselves not changed). */
    method Clear()
      modifies this
      ensures Valid() && vectors == [] && Elements() == []
    {
      vectors := [];
      sizeElements := 0;
    }

    /** The element at `position`, found by walking the vectors and
        subtracting the length of each one passed; out_of_range when
        `position` is beyond the last element. */
    method At(position: nat) returns (r: Result<T>)
      ensures position < |Elements()| ==> r == Ok(Elements()[position])
      ensures position >= |Elements()| ==> r == Err(OutOfRange)
    {
      var pos: nat := position;
      var k := 0;
      while k < |vectors|
        invariant 0 <= k <= |vectors|
        invariant position < |Flatten(vectors)| <==> pos < |Flatten(vectors[k..])|
        invariant position < |Flatten(vectors)| ==> Flatten(vectors)[position] == Flatten(vectors[k..])[pos]
      {
        var vec := vectors[k];
        assert Flatten(vectors[k..]) == vec + Flatten(vectors[k + 1..]) by {
          assert vectors[k..][1..] == vectors[k + 1..];
        }
        if pos < |vec| {
          return Ok(vec[pos]);
        }
        pos := pos - |vec|;
        k := k + 1;
      }
      return Err(OutOfRange);
    }

    /** operator[], const and non-const: exactly At. */
    method Subscript(position: nat) returns (r: Result<T>)
      ensures position < |Elements()| ==> r == Ok(Elements()[position])
      ensures position >= |Elements()| ==> r == Err(OutOfRange)
    {
      r := At(position);
    }
  }
}
