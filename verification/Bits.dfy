/** Single bits of bytes and of 64-bit words, as the shifted masks of the generated accessors see them. */
module Bits {
  import opened Arithmetic

  // ---------------------------------------------------------------------------
  // Bytes
  // ---------------------------------------------------------------------------

  /** `1 << i` on a byte. */
  function Mask8(i: nat): (m: bv8)
    requires i < 8
  {
    if i == 0 then 1 else Mask8(i - 1) << 1
  }

  predicate Bit8(b: bv8, i: nat)
    requires i < 8
  {
    b & Mask8(i) == Mask8(i)
  }

  function With8(b: bv8, i: nat, val: bool): (r: bv8)
    requires i < 8
  {
    if val then b | Mask8(i) else b & !Mask8(i)
  }

  lemma Masks8(i: nat, j: nat)
    requires i < 8 && j < 8
    ensures Mask8(i) != 0
    ensures i != j ==> Mask8(i) & Mask8(j) == 0
  {
    assert Mask8(0) == 1 && Mask8(1) == 2 && Mask8(2) == 4 && Mask8(3) == 8;
    assert Mask8(4) == 16 && Mask8(5) == 32 && Mask8(6) == 64 && Mask8(7) == 128;
  }

  lemma MaskedByte(b: bv8, m: bv8, n: bv8)
    ensures (b | m) & m == m
    ensures m != 0 ==> (b & !m) & m != m
    ensures m & n == 0 ==> ((b | m) & n == n <==> b & n == n) && ((b & !m) & n == n <==> b & n == n)
  {
  }

  /** Writing a bit sets that bit and no other. */
  lemma Bit8OfWith(b: bv8, i: nat, val: bool, j: nat)
    requires i < 8 && j < 8
    ensures Bit8(With8(b, i, val), j) == if i == j then val else Bit8(b, j)
  {
    Masks8(i, j);
    MaskedByte(b, Mask8(i), Mask8(j));
  }

  lemma AllBits8(a: bv8, b: bv8)
    requires (a & 1 == 1) == (b & 1 == 1) && (a & 2 == 2) == (b & 2 == 2)
    requires (a & 4 == 4) == (b & 4 == 4) && (a & 8 == 8) == (b & 8 == 8)
    requires (a & 16 == 16) == (b & 16 == 16) && (a & 32 == 32) == (b & 32 == 32)
    requires (a & 64 == 64) == (b & 64 == 64) && (a & 128 == 128) == (b & 128 == 128)
    ensures a == b
  {
  }

  /** A byte is its bits. */
  lemma Bytes8(a: bv8, b: bv8)
    requires forall i :: 0 <= i < 8 ==> Bit8(a, i) == Bit8(b, i)
    ensures a == b
  {
    assert Mask8(0) == 1 && Mask8(1) == 2 && Mask8(2) == 4 && Mask8(3) == 8;
    assert Mask8(4) == 16 && Mask8(5) == 32 && Mask8(6) == 64 && Mask8(7) == 128;
    assert Bit8(a, 0) == Bit8(b, 0) && Bit8(a, 1) == Bit8(b, 1) && Bit8(a, 2) == Bit8(b, 2) && Bit8(a, 3) == Bit8(b, 3);
    assert Bit8(a, 4) == Bit8(b, 4) && Bit8(a, 5) == Bit8(b, 5) && Bit8(a, 6) == Bit8(b, 6) && Bit8(a, 7) == Bit8(b, 7);
    AllBits8(a, b);
  }

  // ---------------------------------------------------------------------------
  // Words
  // ---------------------------------------------------------------------------

  function Pow2(n: nat): (p: nat)
    ensures p > 0
  {
    if n == 0 then 1 else 2 * Pow2(n - 1)
  }

  /** The low `width` bits of a word, lowest first. */
  function ToBits(v: nat, width: nat): (bits: seq<bool>)
    ensures |bits| == width
  {
    if width == 0 then [] else [v % 2 == 1] + ToBits(v / 2, width - 1)
  }

  function FromBits(bits: seq<bool>): (v: nat)
    ensures v < Pow2(|bits|)
  {
    if bits == [] then 0 else (if bits[0] then 1 else 0) + 2 * FromBits(bits[1..])
  }

  /** A word cut to its low bits is what is left when dividing by the power of two. */
  lemma {:induction false} CutWord(v: nat, width: nat)
    ensures FromBits(ToBits(v, width)) == v % Pow2(width)
  {
    if width > 0 {
      CutWord(v / 2, width - 1);
      assert ToBits(v, width)[1..] == ToBits(v / 2, width - 1);
      ModSplit(v, 2, Pow2(width - 1));
    }
  }

  lemma {:induction false} BitsOfWord(bits: seq<bool>)
    ensures ToBits(FromBits(bits), |bits|) == bits
  {
    if bits != [] {
      BitsOfWord(bits[1..]);
    }
  }

  lemma DivTwice(v: nat, d: nat)
    requires d > 0
    ensures v / 2 / d == v / (2 * d)
  {
    ModSplit(v, 2, d);
    var q := v / 2 / d;
    assert v == q * (2 * d) + v % (2 * d) by {
      assert v / 2 == d * q + v / 2 % d;
      assert 2 * (d * q) == q * (2 * d);
    }
    ModUnique(v, 2 * d, q, v % (2 * d));
  }

  lemma {:induction false} BitAt(v: nat, width: nat, i: nat)
    requires i < width
    ensures ToBits(v, width)[i] <==> v / Pow2(i) % 2 == 1
  {
    if i > 0 {
      BitAt(v / 2, width - 1, i - 1);
      DivTwice(v, Pow2(i - 1));
    }
  }

  /** Adding the next higher bit. */
  lemma {:induction false} OneMoreBit(bits: seq<bool>, b: bool)
    ensures FromBits(bits + [b]) == FromBits(bits) + if b then Pow2(|bits|) else 0
  {
    if bits == [] {
      assert (bits + [b])[1..] == [];
    } else {
      assert (bits + [b])[1..] == bits[1..] + [b];
      OneMoreBit(bits[1..], b);
    }
  }

  lemma {:induction false} NoBits(bits: seq<bool>)
    requires forall i :: 0 <= i < |bits| ==> !bits[i]
    ensures FromBits(bits) == 0
  {
    if bits != [] {
      NoBits(bits[1..]);
    }
  }
}
