/**
 * The two pieces of the Java library whose behaviour the NV21 converter
 * depends on: java.nio.ByteBuffer (relative bulk get, absolute get) and
 * System.arraycopy. Both are modelled only as far as the converter uses them.
 */
module Jvm {
  import opened Wrappers

  /** A Java byte, as the unsigned value of its eight bits. */
  newtype byte = b: int | 0 <= b < 0x100

  function Min(a: int, b: int): int { if a <= b then a else b }

  /**
   * A read-only ByteBuffer: `data` is everything between index 0 and the
   * limit, `position` the cursor that relative reads advance.
   */
  class ByteBuffer {
    const data: seq<byte>
    var position: nat

    ghost predicate Valid()
      reads this
    {
      position <= |data|
    }

    constructor (data: seq<byte>)
      ensures Valid() && this.data == data && position == 0
    {
      this.data := data;
      position := 0;
    }

    /** remaining(): as documented, the number of bytes between the cursor and the limit; the ensures is that definition. */
    function Remaining(): (n: nat)
      reads this
      requires Valid()
      ensures position + n == |data|
    {
      |data| - position
    }

    /**
     * get(dst, offset, length): copies `length` bytes from the cursor into
     * dst[offset..offset+length] and advances the cursor by `length`.
     * Java throws when length > remaining() or the range leaves dst; the
     * converter never asks for either, so both are preconditions here.
     */
    method Get(dst: array<byte>, offset: nat, length: nat)
      requires Valid()
      requires offset + length <= dst.Length && length <= Remaining()
      modifies this, dst
      ensures Valid() && position == old(position) + length
      ensures dst[..offset] == old(dst[..offset])
      ensures dst[offset..offset + length] == data[old(position)..old(position) + length]
      ensures dst[offset + length..] == old(dst[offset + length..])
    {
      var i := 0;
      while i < length
        invariant 0 <= i <= length
        invariant position == old(position)
        invariant dst[..offset] == old(dst[..offset])
        invariant dst[offset..offset + i] == data[position..position + i]
        invariant dst[offset + length..] == old(dst[offset + length..])
      {
        dst[offset + i] := data[position + i];
        i := i + 1;
      }
      position := position + length;
    }

    /**
     * get(index): as documented, the byte at an absolute index, and an
     * IndexOutOfBoundsException (None) at or past the limit; the ensures
     * is that definition, not a derived property.
     */
    function At(index: nat): (r: Option<byte>)
      ensures r.Some? <==> index < |data|
      ensures r.Some? ==> r.value == data[index]
    {
      if index < |data| then Some(data[index]) else None
    }
  }

  /**
   * System.arraycopy on two distinct byte arrays. It throws
   * IndexOutOfBoundsException (here: ok == false, nothing written) when
   * either range leaves its array, and otherwise copies the range.
   */
  method ArrayCopy(src: array<byte>, srcPos: nat, dst: array<byte>, dstPos: nat, length: nat)
    returns (ok: bool)
    requires src != dst
    modifies dst
    ensures ok <==> srcPos + length <= src.Length && dstPos + length <= dst.Length
    ensures ok ==> dst[..dstPos] == old(dst[..dstPos])
    ensures ok ==> dst[dstPos..dstPos + length] == src[srcPos..srcPos + length]
    ensures ok ==> dst[dstPos + length..] == old(dst[dstPos + length..])
    ensures !ok ==> dst[..] == old(dst[..])
  {
    if srcPos + length > src.Length || dstPos + length > dst.Length {
      return false;
    }
    var i := 0;
    while i < length
      invariant 0 <= i <= length
      invariant dst[..dstPos] == old(dst[..dstPos])
      invariant dst[dstPos..dstPos + i] == src[srcPos..srcPos + i]
      invariant dst[dstPos + length..] == old(dst[dstPos + length..])
    {
      dst[dstPos + i] := src[srcPos + i];
      i := i + 1;
    }
    return true;
  }
}
