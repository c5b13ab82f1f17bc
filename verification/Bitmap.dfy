/** Searching a bitmap byte by byte (deps/common/lang/bitmap.cpp). */
module Bitmap {

  type Byte = bv8

  /** `1 << i` on a byte. */
  function Mask(i: nat): Byte
    requires i < 8
  {
    if i == 0 then 1 else if i == 1 then 2 else if i == 2 then 4 else if i == 3 then 8
    else if i == 4 then 16 else if i == 5 then 32 else if i == 6 then 64 else 128
  }

  predicate BitOf(b: Byte, i: nat)
    requires i < 8
  {
    b & Mask(i) != 0
  }

  /** Bit i counts 2^i: a byte is the sum of its set bits. */
  lemma BitsMakeByte(b: Byte)
    ensures (b as int) == (if BitOf(b, 0) then 1 else 0) + (if BitOf(b, 1) then 2 else 0)
                          + (if BitOf(b, 2) then 4 else 0) + (if BitOf(b, 3) then 8 else 0)
                          + (if BitOf(b, 4) then 16 else 0) + (if BitOf(b, 5) then 32 else 0)
                          + (if BitOf(b, 6) then 64 else 0) + (if BitOf(b, 7) then 128 else 0)
  {
  }

  /** The bytes that hold the bits: all of them, and no byte more. */
  lemma BytesHoldBits(size: nat)
    ensures size <= 8 * Bytes(size) < size + 8
  {
  }

  function Bytes(size: int): int {
    if size % 8 == 0 then size / 8 else size / 8 + 1
  }

  lemma SetBitOf(b: Byte, i: nat, j: nat)
    requires i < 8 && j < 8
    ensures BitOf(b | Mask(i), j) <==> i == j || BitOf(b, j)
  {
  }

  lemma ClearBitOf(b: Byte, i: nat, j: nat)
    requires i < 8 && j < 8
    ensures BitOf(b & !Mask(i), j) <==> i != j && BitOf(b, j)
  {
  }

  /** The two bytes the searches skip without looking at their bits. */
  lemma FullAndEmpty(i: nat)
    requires i < 8
    ensures BitOf(0xFF, i) && !BitOf(0, i)
  {
  }

  /** `find_first_zero` and `find_first_setted`: the first bit from start on that has the wanted value. */
  method FindFirst(b: Byte, start: nat, wanted: bool) returns (r: int)
    requires start <= 8
    ensures -1 <= r < 8
    ensures r >= 0 ==> start <= r && BitOf(b, r) == wanted
    ensures forall i | start <= i < (if r < 0 then 8 else r) :: BitOf(b, i) != wanted
  {
    var i := start;
    while i < 8
      invariant start <= i <= 8
      invariant forall k | start <= k < i :: BitOf(b, k) != wanted
    {
      if BitOf(b, i) == wanted { return i; }
      i := i + 1;
    }
    return -1;
  }

  class Bitmap {
    const bytes: array<Byte>
    const size: int

    constructor (bytes: array<Byte>, size: int)
      requires 0 <= size <= 8 * bytes.Length
      ensures this.bytes == bytes && this.size == size
    {
      this.bytes, this.size := bytes, size;
    }

    /** `get_bit`. */
    predicate GetBit(index: int)
      requires 0 <= index < 8 * bytes.Length
      reads bytes
    {
      BitOf(bytes[index / 8], index % 8)
    }

    /** `set_bit` and `clear_bit` change the one bit and no other. */
    method SetBit(index: int)
      requires 0 <= index < 8 * bytes.Length
      modifies bytes
      ensures forall i | 0 <= i < 8 * bytes.Length :: GetBit(i) == (i == index || old(GetBit(i)))
    {
      forall b, j: nat | j < 8 ensures BitOf(b | Mask(index % 8), j) <==> index % 8 == j || BitOf(b, j) {
        SetBitOf(b, index % 8, j);
      }
      bytes[index / 8] := bytes[index / 8] | Mask(index % 8);
    }

    method ClearBit(index: int)
      requires 0 <= index < 8 * bytes.Length
      modifies bytes
      ensures forall i | 0 <= i < 8 * bytes.Length :: GetBit(i) == (i != index && old(GetBit(i)))
    {
      forall b, j: nat | j < 8 ensures BitOf(b & !Mask(index % 8), j) <==> index % 8 != j && BitOf(b, j) {
        ClearBitOf(b, index % 8, j);
      }
      bytes[index / 8] := bytes[index / 8] & !Mask(index % 8);
    }

    /** `next_unsetted_bit` (wanted is false) and `next_setted_bit` (wanted is true), which differ only
        in the bit value looked for and the byte skipped: the least matching index from start on and
        below the size, or -1 exactly when there is none. */
    method NextBit(start: int, wanted: bool) returns (ret: int)
      requires 0 <= start && 0 <= size <= 8 * bytes.Length
      ensures ret == -1 || (start <= ret < size && GetBit(ret) == wanted)
      ensures forall i | start <= i < (if ret == -1 then size else ret) :: GetBit(i) != wanted
    {
      ret := -1;
      var startInByte := start % 8;
      var iter, end := start / 8, Bytes(size);
      while iter < end
        invariant start / 8 <= iter && startInByte == (if iter == start / 8 then start % 8 else 0)
        invariant ret == -1
        invariant forall i | start <= i < 8 * iter && i < size :: GetBit(i) != wanted
      {
        var byte := bytes[iter];
        ghost var index := -1;
        if byte != (if wanted then 0x00 else 0xFF) {
          var indexInByte := FindFirst(byte, startInByte, wanted);
          index := indexInByte;
          if indexInByte >= 0 {
            ret := iter * 8 + indexInByte;
            BitsOfByte(iter, wanted, startInByte, indexInByte);
            break;
          }
        } else {
          forall k: nat | k < 8 ensures BitOf(byte, k) != wanted { FullAndEmpty(k); }
        }
        BitsOfByte(iter, wanted, startInByte, 8);
        startInByte := 0;
        iter := iter + 1;
      }
      if ret >= size { ret := -1; }
    }

    lemma BitsOfByte(iter: nat, wanted: bool, from: nat, to: nat)
      requires iter < bytes.Length && from <= to <= 8
      requires forall k | from <= k < to :: BitOf(bytes[iter], k) != wanted
      ensures forall i | 8 * iter + from <= i < 8 * iter + to :: GetBit(i) != wanted
      ensures to < 8 ==> GetBit(8 * iter + to) == BitOf(bytes[iter], to)
    {
      forall i | 8 * iter + from <= i < 8 * iter + to ensures GetBit(i) != wanted {
        assert i / 8 == iter && i % 8 == i - 8 * iter;
      }
    }
  }
}
