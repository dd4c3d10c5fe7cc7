/**
 * The bytes of a canvas ImageData buffer. The browser keeps them in a
 * Uint8ClampedArray: every element is an integer in 0..255, a value stored
 * into it is clamped into that range, and a store at or past the end of the
 * array is silently ignored.
 */
module Bytes {

  /** One element of a Uint8ClampedArray. */
  type Byte = b: int | 0 <= b < 256

  /** The byte a Uint8ClampedArray keeps when the integer `v` is stored in it. */
  function Clamp(v: int): (b: Byte)
    ensures 0 <= v < 256 ==> b == v
    ensures v < 0 ==> b == 0
    ensures 255 < v ==> b == 255
  {
    if v < 0 then 0 else if v > 255 then 255 else v
  }

  /**
   * The contents of a Uint8ClampedArray after the element store `a[idx] = v`:
   * the byte at `idx` becomes `v` clamped, every other byte stays, and a
   * store at or past the end changes nothing.
   */
  function Put(s: seq<Byte>, idx: nat, v: int): (r: seq<Byte>)
    ensures |r| == |s|
  {
    if idx < |s| then s[idx := Clamp(v)] else s
  }

  /** Byte `j` after a store: the stored value clamped if the store hit `j`, the old byte otherwise. */
  lemma PutAt(s: seq<Byte>, idx: nat, v: int, j: nat)
    requires j < |s|
    ensures Put(s, idx, v)[j] == if j == idx then Clamp(v) else s[j]
  {
  }

  /** The element store `a[idx] = v` on a Uint8ClampedArray. */
  method Store(a: array<Byte>, idx: nat, v: int)
    modifies a
    ensures a[..] == Put(old(a[..]), idx, v)
  {
    if idx < a.Length {
      a[idx] := Clamp(v);
    }
  }

  /**
   * A zero-filled Uint8ClampedArray of `size` bytes after the values `vals`
   * have been stored into it from offset 0: each clamped, those past its end
   * dropped.
   */
  function Filled(vals: seq<int>, size: nat): (buf: seq<Byte>)
    ensures |buf| == size
  {
    seq(size, i requires 0 <= i < size => if i < |vals| then Clamp(vals[i]) else 0)
  }

  /** The same array part way through: after the stores of the first `d` values only. */
  function Stored(vals: seq<int>, size: nat, d: nat): (buf: seq<Byte>)
    requires d <= |vals|
    ensures |buf| == size
  {
    if d == 0 then seq(size, _ => 0) else Put(Stored(vals, size, d - 1), d - 1, vals[d - 1])
  }

  lemma StoredStep(vals: seq<int>, size: nat, d: nat)
    requires d < |vals|
    ensures Stored(vals, size, d + 1) == Put(Stored(vals, size, d), d, vals[d])
  {
  }

  /** Byte `i` after the first `d` stores: the clamped value if it was stored, zero otherwise. */
  lemma {:induction false} StoredAt(vals: seq<int>, size: nat, d: nat, i: nat)
    requires d <= |vals| && i < size
    ensures Stored(vals, size, d)[i] == if i < d then Clamp(vals[i]) else 0
  {
    if d > 0 {
      StoredAt(vals, size, d - 1, i);
    }
  }

  /** Storing the values one at a time, in order, leaves the array holding them all. */
  lemma StoredAll(vals: seq<int>, size: nat)
    ensures Stored(vals, size, |vals|) == Filled(vals, size)
  {
    forall i | 0 <= i < size
      ensures Stored(vals, size, |vals|)[i] == Filled(vals, size)[i]
    {
      StoredAt(vals, size, |vals|, i);
    }
  }

  /** Values that are bytes already fill an array of their own length unchanged. */
  lemma FilledBytes(vals: seq<int>)
    requires forall i :: 0 <= i < |vals| ==> 0 <= vals[i] < 256
    ensures Filled(vals, |vals|) == vals
  {
  }
}
