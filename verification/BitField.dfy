/**
 Structs of bit fields as `#[derive(BitField)]` generates them: a byte array, accessors that go over
 it bit by bit, and fields laid out one after the other from the lowest bit on.
 */
module BitField {
  import opened Bits

  // ---------------------------------------------------------------------------
  // The array as a sequence of bits
  // ---------------------------------------------------------------------------

  /** `get_bit` */
  predicate GetBit(data: seq<bv8>, k: nat)
    requires k < 8 * |data|
  {
    Bit8(data[k / 8], k % 8)
  }

  function BitsOf(data: seq<bv8>): (bits: seq<bool>)
    ensures |bits| == 8 * |data|
  {
    seq(8 * |data|, k requires 0 <= k < 8 * |data| => GetBit(data, k))
  }

  /** The array is its bits. */
  lemma SameBitsSameData(a: seq<bv8>, b: seq<bv8>)
    requires BitsOf(a) == BitsOf(b)
    ensures a == b
  {
    assert |a| == |b|;
    forall j | 0 <= j < |a| ensures a[j] == b[j] {
      forall i | 0 <= i < 8 ensures Bit8(a[j], i) == Bit8(b[j], i) {
        var k := 8 * j + i;
        assert k / 8 == j && k % 8 == i;
        assert BitsOf(a)[k] == BitsOf(b)[k];
      }
      Bytes8(a[j], b[j]);
    }
  }

  /** Writing a bit of one byte writes that bit of the array and no other. */
  lemma BitWritten(data: seq<bv8>, k: nat, val: bool)
    requires k < 8 * |data|
    ensures BitsOf(data[k / 8 := With8(data[k / 8], k % 8, val)]) == BitsOf(data)[k := val]
  {
    var data' := data[k / 8 := With8(data[k / 8], k % 8, val)];
    forall j | 0 <= j < 8 * |data| ensures GetBit(data', j) == BitsOf(data)[k := val][j] {
      if j / 8 == k / 8 {
        Bit8OfWith(data[k / 8], k % 8, val, j % 8);
      }
    }
  }

  /** The two branches of `set_bit`. */
  method Written(b: bv8, i: nat, val: bool) returns (r: bv8)
    requires i < 8
    ensures r == With8(b, i, val)
  {
    var mask := Mask8(i);
    if val {
      r := b | mask;
    } else {
      r := b & !mask;
    }
  }

  lemma SliceOneMore(bits: seq<bool>, offset: nat, i: nat)
    requires offset + i < |bits|
    ensures bits[offset..offset + i + 1] == bits[offset..offset + i] + [bits[offset + i]]
  {
  }

  lemma {:induction false} NextBit(bits: seq<bool>, offset: nat, i: nat)
    requires offset + i < |bits|
    ensures FromBits(bits[offset..offset + i + 1]) ==
            FromBits(bits[offset..offset + i]) + if bits[offset + i] then Pow2(i) else 0
  {
    var low, b := bits[offset..offset + i], bits[offset + i];
    SliceOneMore(bits, offset, i);
    OneMoreBit(low, b);
    assert FromBits(bits[offset..offset + i + 1]) == FromBits(low + [b]);
  }

  /** `bits` with `digits` written over it from `offset` on. */
  function Overwritten(bits: seq<bool>, offset: nat, digits: seq<bool>): (r: seq<bool>)
    requires offset + |digits| <= |bits|
    ensures |r| == |bits|
  {
    bits[..offset] + digits + bits[offset + |digits|..]
  }

  lemma OneMoreWritten(bits: seq<bool>, offset: nat, digits: seq<bool>, i: nat)
    requires i < |digits| && offset + |digits| <= |bits|
    ensures Overwritten(bits, offset, digits[..i])[offset + i := digits[i]]
         == Overwritten(bits, offset, digits[..i + 1])
  {
  }

  /** The generated struct. */
  class Struct {
    const data: array<bv8>

    ghost function Bits(): (bits: seq<bool>)
      reads data
    {
      BitsOf(data[..])
    }

    /** `new` */
    constructor (size: nat)
      ensures fresh(data) && data.Length == size
      ensures forall k :: 0 <= k < 8 * size ==> !Bits()[k]
    {
      data := new bv8[size](_ => 0);
      new;
      forall k | 0 <= k < 8 * size ensures !Bits()[k] {
        Masks8(k % 8, k % 8);
      }
    }

    method ReadBit(k: nat) returns (r: bool)
      requires k < 8 * data.Length
      ensures r == Bits()[k]
    {
      var mask := Mask8(k % 8);
      r := data[k / 8] & mask == mask;
    }

    method WriteBit(k: nat, val: bool)
      requires k < 8 * data.Length
      modifies data
      ensures Bits() == old(Bits())[k := val]
    {
      var byteIndex, bitOffset := k / 8, k % 8;
      ghost var before := data[..];
      data[byteIndex] := Written(data[byteIndex], bitOffset, val);
      BitWritten(before, k, val);
      assert data[..] == before[byteIndex := With8(before[byteIndex], bitOffset, val)];
    }

    /** `get`; the bit set in `val |= 1 << i` is above all bits set so far, so this adds. */
    method Get(offset: nat, width: nat) returns (val: nat)
      requires width <= 64 && offset + width <= 8 * data.Length
      ensures val == FromBits(Bits()[offset..offset + width])
    {
      val := 0;
      var bit := 1;
      ghost var bits := Bits();
      for i := 0 to width
        invariant bit == Pow2(i) && val == FromBits(bits[offset..offset + i])
      {
        var b := ReadBit(i + offset);
        NextBit(bits, offset, i);
        if b {
          val := val + bit;
        }
        bit := 2 * bit;
      }
    }

    /** `set`; `val & (1 << i)` is the `i`-th binary digit of `val`. */
    method Set(offset: nat, width: nat, val: nat)
      requires width <= 64 && offset + width <= 8 * data.Length
      modifies data
      ensures Bits() == Overwritten(old(Bits()), offset, ToBits(val, width))
    {
      ghost var before, digits := Bits(), ToBits(val, width);
      var bit := 1;
      for i := 0 to width
        invariant bit == Pow2(i) && Bits() == Overwritten(before, offset, digits[..i])
      {
        BitAt(val, width, i);
        WriteBit(i + offset, val / bit % 2 == 1);
        OneMoreWritten(before, offset, digits, i);
        bit := 2 * bit;
      }
      assert digits[..width] == digits;
    }
  }
}
