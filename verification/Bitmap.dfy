/** A packed bitmap (bitmap.hpp): it behaves as a sequence of booleans. */
module Bitmap {

  predicate Bit(b: bv8, r: nat)
    requires r < 8
  {
    (b >> (r as bv8)) & 1 == 1
  }

  function Stored(b: bv8, r: nat, v: bool): bv8
    requires r < 8
  {
    StoredAt(b, r as bv8, if v then 1 else 0)
  }

  function StoredAt(b: bv8, k: bv8, one: bv8): bv8
    requires k < 8
  {
    (b & !(1 << k)) | (one << k)
  }

  lemma StoredBit(b: bv8, r: nat, v: bool, q: nat)
    requires r < 8 && q < 8
    ensures Bit(Stored(b, r, v), q) == if q == r then v else Bit(b, q)
  {
    hide StoredAt;
    DistinctCounts(r, q);
    StoredShifts(b, r as bv8, if v then 1 else 0, q as bv8);
  }

  lemma DistinctCounts(n: nat, k: nat)
    requires n < 8 && k < 8
    ensures (n as bv8) < 8 && (n as bv8 == k as bv8 <==> n == k)
  {
  }

  lemma StoredShifts(b: bv8, r: bv8, one: bv8, q: bv8)
    requires r < 8 && q < 8 && one < 2
    ensures (StoredAt(b, r, one) >> q) & 1 == if q == r then one else (b >> q) & 1
  {
  }

  lemma FullByte(q: nat)
    requires q < 8
    ensures Bit(0xFF, q)
  {
    DistinctCounts(q, q);
    FullShifts(q as bv8);
  }

  lemma FullShifts(k: bv8)
    requires k < 8
    ensures (0xFF as bv8 >> k) & 1 == 1
  {
  }

  class Bitmap {
    const buffer: array<bv8>
    const size: nat

    ghost predicate Valid() {
      size <= 8 * buffer.Length
    }

    constructor (buffer: array<bv8>, size: nat)
      requires size <= 8 * buffer.Length
      ensures Valid() && this.buffer == buffer && this.size == size
    {
      this.buffer := buffer;
      this.size := size;
    }

    /** The bits, in index order. */
    ghost function Bits(): (s: seq<bool>)
      reads buffer
      ensures |s| == 8 * buffer.Length
      ensures forall i :: 0 <= i < |s| ==> s[i] == Bit(buffer[i / 8], i % 8)
    {
      seq(8 * buffer.Length, i requires 0 <= i < 8 * buffer.Length reads buffer => Bit(buffer[i / 8], i % 8))
    }

    predicate Get(index: nat)
      requires index < 8 * buffer.Length
      reads buffer
      ensures Get(index) == Bits()[index]
    {
      Bit(buffer[index / 8], index % 8)
    }

    method Set(index: nat, value: bool)
      requires index < 8 * buffer.Length
      modifies buffer
      ensures Bits() == old(Bits())[index := value]
    {
      hide Bit, Stored;
      var d, r := index / 8, index % 8;
      ghost var was := Bits();
      ghost var b := buffer[d];
      buffer[d] := Stored(buffer[d], r, value);
      forall i | 0 <= i < |was|
        ensures Bits()[i] == was[index := value][i]
      {
        StoredBit(b, r, value, i % 8);
        assert i / 8 == d && i % 8 == r ==> i == index;
      }
    }

    /** `fill`: sets the whole bytes below `size`, and then, for a size that is not a multiple of
        eight, the bits at `size`, `size - 1`, ... instead of those below `size`. The argument plays
        no part. */
    method Fill(value: bool)
      requires Valid() && (size % 8 != 0 ==> size < 8 * buffer.Length)
      modifies buffer
      ensures Bits() == Filled(old(Bits()), size)
    {
      hide Bit, Stored;
      ghost var was := Bits();
      forall d | 0 <= d < size / 8 {
        buffer[d] := 0xFF;
      }
      forall i | 0 <= i < |was|
        ensures Bits()[i] == (i < size - size % 8 || was[i])
      {
        FullByte(i % 8);
      }
      for k := 0 to size % 8
        invariant forall i :: 0 <= i < |was| ==> Bits()[i] == (i < size - size % 8 || size - k < i <= size || was[i])
      {
        Set(size - k, true);
      }
    }
  }

  /** What `Fill` leaves, as a function of the bits before. */
  ghost function Filled(bits: seq<bool>, size: nat): seq<bool> {
    seq(|bits|, i requires 0 <= i < |bits| =>
      i < size - size % 8 || (size - size % 8 < i <= size && size % 8 != 0) || bits[i])
  }

  /** For other sizes it leaves out the first bit of the last byte and sets the first bit behind them. */
  lemma FillOffByOne(bits: seq<bool>, size: nat, i: nat)
    requires size % 8 != 0 && i < |bits|
    ensures Filled(bits, size)[i] ==
            if i == size - size % 8 then bits[i] else if i == size then true else i < size || bits[i]
  {
  }

  /** Filling sets exactly the first `size` bits of every bitmap just when the size is a multiple of
      eight. */
  lemma FillExactIffByteSized(size: nat, length: nat)
    requires size <= length && (size % 8 != 0 ==> size < length)
    ensures size % 8 == 0 <==>
            forall bits: seq<bool> :: |bits| == length ==>
              Filled(bits, size) == seq(length, i requires 0 <= i < length => i < size || bits[i])
  {
    if size % 8 != 0 {
      var bits := seq(length, _ => false);
      assert Filled(bits, size)[size];
    } else {
      forall bits: seq<bool> | |bits| == length
        ensures Filled(bits, size) == seq(length, i requires 0 <= i < length => i < size || bits[i])
      {
      }
    }
  }
}
