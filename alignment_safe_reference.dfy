/**
 * CAlignmentSafeReference<T>: access to an integer of type T stored at an
 * arbitrary, possibly misaligned, byte offset of a buffer. The integer is
 * copied into a local value on construction, read from that copy, and copied
 * back byte by byte on every write.
 */
module AlignmentSafeReference {
  import opened Bytes

  /** The integer of `width` bytes stored at `offset` of `s`. */
  function Loaded(s: seq<Byte>, offset: nat, width: nat): (v: nat)
    requires offset + width <= |s|
    ensures v < Pow256(width)
  {
    Decode(s[offset..offset + width])
  }

  /** `s` after the `width`-byte image of `v` has been stored at `offset`. */
  function Stored(s: seq<Byte>, offset: nat, width: nat, v: int): (r: seq<Byte>)
    requires offset + width <= |s|
    ensures |r| == |s|
  {
    s[..offset] + Encode(v, width) + s[offset + width..]
  }

  /** Loading what was stored gives the stored value, truncated to the width. */
  lemma LoadStored(s: seq<Byte>, offset: nat, width: nat, v: int)
    requires offset + width <= |s|
    ensures Loaded(Stored(s, offset, width, v), offset, width) == v % Pow256(width)
  {
    assert Stored(s, offset, width, v)[offset..offset + width] == Encode(v, width);
    DecodeEncode(v, width);
  }

  /** Storing what was loaded leaves the buffer as it was. */
  lemma StoredLoaded(s: seq<Byte>, offset: nat, width: nat)
    requires offset + width <= |s|
    ensures Stored(s, offset, width, Loaded(s, offset, width)) == s
  {
    EncodeDecode(s[offset..offset + width]);
    assert s == s[..offset] + s[offset..offset + width] + s[offset + width..];
  }

  /** A store changes no byte outside its `width` bytes, and byte `k` of the
      window becomes byte `k` of the image. */
  lemma StoredAt(s: seq<Byte>, offset: nat, width: nat, v: int, i: nat)
    requires offset + width <= |s| && i < |s|
    ensures Stored(s, offset, width, v)[i] == if offset <= i < offset + width then Encode(v, width)[i - offset] else s[i]
  {
  }

  /** A store keeps the bytes before its window and every suffix that
      starts at or after the end of its window. */
  lemma StoredOutside(s: seq<Byte>, offset: nat, width: nat, v: int, k: nat)
    requires offset + width <= k <= |s|
    ensures Stored(s, offset, width, v)[..offset] == s[..offset]
    ensures Stored(s, offset, width, v)[k..] == s[k..]
  {
    var t := Stored(s, offset, width, v);
    assert t[..offset] == s[..offset];
    assert t[k..] == t[offset + width..][k - offset - width..];
    assert s[k..] == s[offset + width..][k - offset - width..];
  }

  /** A later store to the same window hides an earlier one. */
  lemma StoredTwice(s: seq<Byte>, offset: nat, width: nat, u: int, v: int)
    requires offset + width <= |s|
    ensures Stored(Stored(s, offset, width, u), offset, width, v) == Stored(s, offset, width, v)
  {
    var t := Stored(s, offset, width, u);
    assert t[..offset] == s[..offset];
    assert t[offset + width..] == s[offset + width..];
  }

  /** The byte-by-byte copy of the image of `v` to `offset` of `data`,
      least significant byte first. */
  method WriteImage(data: array<Byte>, offset: nat, width: nat, v: nat)
    requires offset + width <= data.Length
    modifies data
    ensures data[..] == Stored(old(data[..]), offset, width, v)
  {
    var image := Encode(v, width);
    var i := 0;
    while i < width
      invariant 0 <= i <= width
      invariant forall k :: offset <= k < offset + i ==> data[k] == image[k - offset]
      invariant forall k :: 0 <= k < data.Length && !(offset <= k < offset + i) ==> data[k] == old(data[k])
    {
      data[offset + i] := image[i];
      i := i + 1;
    }
    forall k | 0 <= k < data.Length
      ensures data[..][k] == Stored(old(data[..]), offset, width, v)[k]
    {
      StoredAt(old(data[..]), offset, width, v, k);
    }
  }

  class AlignmentSafeReference {
    /** m_Value: the copy of the referenced integer. */
    var value: nat
    /** m_pData: the buffer and the offset in it where the integer is stored. */
    const data: array<Byte>
    const offset: nat
    /** sizeof(T). */
    const width: Width

    ghost predicate Valid()
      reads this
    {
      offset + width <= data.Length && value < Pow256(width)
    }

    /** Copies the `width` bytes at `offset` of `data` into the local value. */
    constructor (data: array<Byte>, offset: nat, width: Width)
      requires offset + width <= data.Length
      ensures Valid()
      ensures this.data == data && this.offset == offset && this.width == width
      ensures value == Loaded(data[..], offset, width)
    {
      this.data := data;
      this.offset := offset;
      this.width := width;
      var v: nat := 0;
      var i := width;
      while i > 0
        invariant 0 <= i <= width
        invariant v == Decode(data[offset + i..offset + width])
      {
        i := i - 1;
        assert data[offset + i..offset + width][1..] == data[offset + i + 1..offset + width];
        v := data[offset + i] + 256 * v;
      }
      value := v;
    }

    /** The move constructor: takes over the target and the copied value. */
    constructor Move(other: AlignmentSafeReference)
      requires other.Valid()
      ensures Valid()
      ensures data == other.data && offset == other.offset && width == other.width
      ensures value == other.value
    {
      data := other.data;
      offset := other.offset;
      width := other.width;
      value := other.value;
    }

    /** The copy of the referenced integer; the buffer is not read again. */
    function Get(): (v: nat)
      reads this
      requires Valid()
      ensures v < Pow256(width)
    {
      value
    }

    /** Updates the local copy and writes the image of `v` over the
        referenced bytes; no other byte of the buffer changes. */
    method Set(v: nat)
      requires Valid() && v < Pow256(width)
      modifies this, data
      ensures Valid() && Get() == v
      ensures data[..] == Stored(old(data[..]), offset, width, v)
    {
      WriteImage(data, offset, width, v);
      value := v;
    }
  }
}
