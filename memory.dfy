/**
 * The C and C++ library block operations the engine uses on its buffer:
 * `memmove`, `memset`, and the overlap-safe `std::ranges::copy` (front to
 * back) and `std::ranges::copy_backward` (back to front).
 *
 * Each is specified by a function of the buffer contents before the call.
 * A block move is stated with snapshot semantics: every byte of the source
 * block is read as it was before the call, however the blocks overlap.
 */
module Memory {
  import opened Bytes

  /** `s` after its `n` bytes at `src` have been copied to `dst`, reading the
      source as it was before the copy. */
  function Moved(s: seq<Byte>, dst: nat, src: nat, n: nat): (r: seq<Byte>)
    requires dst + n <= |s| && src + n <= |s|
    ensures |r| == |s|
  {
    s[..dst] + s[src..src + n] + s[dst + n..]
  }

  /** `s` after `n` bytes from `dst` on have been set to `b`. */
  function Filled(s: seq<Byte>, dst: nat, b: Byte, n: nat): (r: seq<Byte>)
    requires dst + n <= |s|
    ensures |r| == |s|
  {
    s[..dst] + seq(n, _ => b) + s[dst + n..]
  }

  /** `n` bytes of `s` from `from` on. */
  function Window(s: seq<Byte>, from: nat, n: nat): seq<Byte>
    requires from + n <= |s|
  {
    s[from..from + n]
  }

  /** Two buffers that agree from `from` on agree from any later point on. */
  lemma SuffixKept(s: seq<Byte>, t: seq<Byte>, from: nat, k: nat)
    requires from <= k <= |s| == |t| && t[from..] == s[from..]
    ensures t[k..] == s[k..]
  {
    assert t[k..] == t[from..][k - from..];
    assert s[k..] == s[from..][k - from..];
  }

  /** Byte `i` of a moved buffer: inside the destination block it comes from
      the matching source byte, elsewhere it is unchanged. */
  lemma MovedAt(s: seq<Byte>, dst: nat, src: nat, n: nat, i: nat)
    requires dst + n <= |s| && src + n <= |s| && i < |s|
    ensures Moved(s, dst, src, n)[i] == if dst <= i < dst + n then s[src + (i - dst)] else s[i]
  {
  }

  /** Byte `i` of a filled buffer. */
  lemma FilledAt(s: seq<Byte>, dst: nat, b: Byte, n: nat, i: nat)
    requires dst + n <= |s| && i < |s|
    ensures Filled(s, dst, b, n)[i] == if dst <= i < dst + n then b else s[i]
  {
  }

  /** Byte by byte, a fill sets its block to `b` and keeps the rest. */
  lemma FilledBytes(s: seq<Byte>, lo: nat, b: Byte, n: nat)
    requires lo + n <= |s|
    ensures forall i :: 0 <= i < |s| ==> Filled(s, lo, b, n)[i] == if lo <= i < lo + n then b else s[i]
  {
    forall i | 0 <= i < |s|
      ensures Filled(s, lo, b, n)[i] == if lo <= i < lo + n then b else s[i]
    {
      FilledAt(s, lo, b, n, i);
    }
  }

  /** Byte by byte, a move copies its source window and keeps the rest. */
  lemma MovedBytes(s: seq<Byte>, dst: nat, src: nat, n: nat)
    requires dst + n <= |s| && src + n <= |s|
    ensures forall i :: 0 <= i < |s| ==> Moved(s, dst, src, n)[i] == if dst <= i < dst + n then s[src + (i - dst)] else s[i]
    ensures Window(Moved(s, dst, src, n), dst, n) == Window(s, src, n)
  {
    forall i | 0 <= i < |s|
      ensures Moved(s, dst, src, n)[i] == if dst <= i < dst + n then s[src + (i - dst)] else s[i]
    {
      MovedAt(s, dst, src, n, i);
    }
  }

  /** `std::ranges::copy` of `n` bytes from `src` to `dst` on one buffer:
      copies front to back, which reads each source byte before it is
      overwritten when the destination does not start after the source. */
  method CopyForward(a: array<Byte>, dst: nat, src: nat, n: nat)
    requires dst <= src && src + n <= a.Length
    modifies a
    ensures a[..] == Moved(old(a[..]), dst, src, n)
  {
    var i := 0;
    while i < n
      invariant 0 <= i <= n
      invariant forall k :: dst <= k < dst + i ==> a[k] == old(a[src + (k - dst)])
      invariant forall j :: 0 <= j < a.Length && !(dst <= j < dst + i) ==> a[j] == old(a[j])
    {
      a[dst + i] := a[src + i];
      i := i + 1;
    }
    forall j | 0 <= j < a.Length
      ensures a[..][j] == Moved(old(a[..]), dst, src, n)[j]
    {
      MovedAt(old(a[..]), dst, src, n, j);
    }
  }

  /** `std::ranges::copy_backward` of `n` bytes from `src` to `dst` on one
      buffer: copies back to front, which reads each source byte before it is
      overwritten when the destination does not start before the source. */
  method CopyBackward(a: array<Byte>, dst: nat, src: nat, n: nat)
    requires src <= dst && dst + n <= a.Length
    modifies a
    ensures a[..] == Moved(old(a[..]), dst, src, n)
  {
    var i := n;
    while i > 0
      invariant 0 <= i <= n
      invariant forall k :: dst + i <= k < dst + n ==> a[k] == old(a[src + (k - dst)])
      invariant forall j :: 0 <= j < a.Length && !(dst + i <= j < dst + n) ==> a[j] == old(a[j])
    {
      i := i - 1;
      a[dst + i] := a[src + i];
    }
    forall j | 0 <= j < a.Length
      ensures a[..][j] == Moved(old(a[..]), dst, src, n)[j]
    {
      MovedAt(old(a[..]), dst, src, n, j);
    }
  }

  /** `std::memmove`: copies in the direction that keeps overlapping blocks intact. */
  method MemMove(a: array<Byte>, dst: nat, src: nat, n: nat)
    requires dst + n <= a.Length && src + n <= a.Length
    modifies a
    ensures a[..] == Moved(old(a[..]), dst, src, n)
  {
    if dst <= src {
      CopyForward(a, dst, src, n);
    } else {
      CopyBackward(a, dst, src, n);
    }
  }

  /** `std::memset` and `std::ranges::fill`. */
  method MemSet(a: array<Byte>, dst: nat, b: Byte, n: nat)
    requires dst + n <= a.Length
    modifies a
    ensures a[..] == Filled(old(a[..]), dst, b, n)
  {
    var i := 0;
    while i < n
      invariant 0 <= i <= n
      invariant forall j :: 0 <= j < a.Length ==> a[j] == if dst <= j < dst + i then b else old(a[j])
    {
      a[dst + i] := b;
      i := i + 1;
    }
    forall j | 0 <= j < a.Length
      ensures a[..][j] == Filled(old(a[..]), dst, b, n)[j]
    {
      FilledAt(old(a[..]), dst, b, n, j);
    }
  }
}
