/**
 The layout of the fields of a schema, and the laws of the generated getters and setters: they are
 stated on the bits of the struct, which `BitField.Struct` keeps.
 */
module BitFieldLayout {
  import opened Bits
  import opened BitField

  /** The sum of the widths before field `k`. */
  function Offset(widths: seq<nat>, k: nat): (n: nat)
    requires k <= |widths|
  {
    if k == 0 then 0 else Offset(widths, k - 1) + widths[k - 1]
  }

  /** The widths of the fields, in order, of a schema that the generated size test accepts. */
  predicate Schema(widths: seq<nat>) {
    && (forall k :: 0 <= k < |widths| ==> 1 <= widths[k] <= 64)
    && Offset(widths, |widths|) % 8 == 0
  }

  /** A struct of the schema has the bits of its fields and no more. */
  predicate Laid(bits: seq<bool>, widths: seq<nat>) {
    Schema(widths) && |bits| == Offset(widths, |widths|)
  }

  lemma {:induction false} OffsetMonotone(widths: seq<nat>, j: nat, k: nat)
    requires j <= k <= |widths|
    ensures Offset(widths, j) <= Offset(widths, k)
    decreases k
  {
    if j < k {
      OffsetMonotone(widths, j, k - 1);
    }
  }

  lemma FieldRange(widths: seq<nat>, k: nat)
    requires k < |widths|
    ensures Offset(widths, k) + widths[k] == Offset(widths, k + 1) <= Offset(widths, |widths|)
  {
    OffsetMonotone(widths, k + 1, |widths|);
  }

  function FieldBits(bits: seq<bool>, widths: seq<nat>, k: nat): (r: seq<bool>)
    requires Laid(bits, widths) && k < |widths|
    ensures |r| == widths[k]
  {
    FieldRange(widths, k);
    bits[Offset(widths, k)..Offset(widths, k) + widths[k]]
  }

  /** The generated getter of field `k`. */
  function GetField(bits: seq<bool>, widths: seq<nat>, k: nat): (v: nat)
    requires Laid(bits, widths) && k < |widths|
    ensures v < Pow2(widths[k])
  {
    FromBits(FieldBits(bits, widths, k))
  }

  /** The generated setter of field `k`. */
  function SetField(bits: seq<bool>, widths: seq<nat>, k: nat, v: nat): (r: seq<bool>)
    requires Laid(bits, widths) && k < |widths|
    ensures Laid(r, widths)
  {
    FieldRange(widths, k);
    Overwritten(bits, Offset(widths, k), ToBits(v, widths[k]))
  }

  method SumBefore(widths: seq<nat>, k: nat) returns (offset: nat)
    requires k <= |widths|
    ensures offset == Offset(widths, k)
  {
    offset := 0;
    for i := 0 to k
      invariant offset == Offset(widths, i)
    {
      offset := offset + widths[i];
    }
  }

  /** `#( #ct::FIELD_WIDTH )+*`, and the getter that uses it. */
  method ReadField(s: Struct, widths: seq<nat>, k: nat) returns (v: nat)
    requires Laid(s.Bits(), widths) && k < |widths|
    ensures v == GetField(s.Bits(), widths, k)
  {
    var offset := SumBefore(widths, k);
    FieldRange(widths, k);
    v := s.Get(offset, widths[k]);
  }

  method WriteField(s: Struct, widths: seq<nat>, k: nat, v: nat)
    requires Laid(s.Bits(), widths) && k < |widths|
    modifies s.data
    ensures s.Bits() == SetField(old(s.Bits()), widths, k, v)
  {
    var offset := SumBefore(widths, k);
    FieldRange(widths, k);
    s.Set(offset, widths[k], v);
  }

  // ---------------------------------------------------------------------------
  // Laws
  // ---------------------------------------------------------------------------

  lemma ModSmall(v: nat, p: nat)
    requires p > 0
    ensures v % p == v <==> v < p
  {
  }

  /** Getting a field after setting it returns the value, cut to the width of the field. */
  lemma {:induction false} GetAfterSet(bits: seq<bool>, widths: seq<nat>, k: nat, v: nat)
    requires Laid(bits, widths) && k < |widths|
    ensures GetField(SetField(bits, widths, k, v), widths, k) == v % Pow2(widths[k])
    ensures GetField(SetField(bits, widths, k, v), widths, k) == v <==> v < Pow2(widths[k])
  {
    FieldRange(widths, k);
    assert FieldBits(SetField(bits, widths, k, v), widths, k) == ToBits(v, widths[k]);
    CutWord(v, widths[k]);
    ModSmall(v, Pow2(widths[k]));
  }

  lemma OverwrittenElsewhere(bits: seq<bool>, offset: nat, digits: seq<bool>, lo: nat, hi: nat)
    requires offset + |digits| <= |bits| && lo <= hi <= |bits| && (hi <= offset || offset + |digits| <= lo)
    ensures Overwritten(bits, offset, digits)[lo..hi] == bits[lo..hi]
  {
  }

  /** Setting a field changes no other field. */
  lemma {:induction false} OtherFieldsKept(bits: seq<bool>, widths: seq<nat>, k: nat, v: nat, j: nat)
    requires Laid(bits, widths) && k < |widths| && j < |widths| && j != k
    ensures GetField(SetField(bits, widths, k, v), widths, j) == GetField(bits, widths, j)
  {
    FieldRange(widths, k);
    FieldRange(widths, j);
    if j < k {
      OffsetMonotone(widths, j + 1, k);
    } else {
      OffsetMonotone(widths, k + 1, j);
    }
    OverwrittenElsewhere(bits, Offset(widths, k), ToBits(v, widths[k]), Offset(widths, j), Offset(widths, j + 1));
    assert FieldBits(SetField(bits, widths, k, v), widths, j) == FieldBits(bits, widths, j);
  }

  /** A new struct reads all zero. */
  lemma NewIsZero(bits: seq<bool>, widths: seq<nat>, k: nat)
    requires Laid(bits, widths) && k < |widths| && forall i :: 0 <= i < |bits| ==> !bits[i]
    ensures GetField(bits, widths, k) == 0
  {
    FieldRange(widths, k);
    NoBits(FieldBits(bits, widths, k));
  }

  lemma ByteBits(b: bv8)
    ensures (b & 1 == 1 <==> b & 1 != 0) && (b & 2 == 2 <==> b & 2 != 0)
    ensures (b & 4 == 4 <==> b & 4 != 0) && (b & 8 == 8 <==> b & 8 != 0)
    ensures (b & 16 == 16 <==> b & 16 != 0) && (b & 32 == 32 <==> b & 32 != 0)
    ensures (b & 64 == 64 <==> b & 64 != 0) && (b & 128 == 128 <==> b & 128 != 0)
  {
  }

  /** The bit of a byte that has this value. */
  lemma BitValue(b: bv8, i: nat)
    requires i < 8
    ensures Bit8(b, i) <==> b & [1, 2, 4, 8, 16, 32, 64, 128][i] != 0
  {
    assert Mask8(0) == 1 && Mask8(1) == 2 && Mask8(2) == 4 && Mask8(3) == 8;
    assert Mask8(4) == 16 && Mask8(5) == 32 && Mask8(6) == 64 && Mask8(7) == 128;
    ByteBits(b);
  }

  /** A digit of a field is the bit that lies as far behind the start of the field. */
  lemma FieldDigit(bits: seq<bool>, widths: seq<nat>, k: nat, i: nat)
    requires Laid(bits, widths) && k < |widths| && i < widths[k]
    ensures Offset(widths, k) + i < |bits|
    ensures GetField(bits, widths, k) / Pow2(i) % 2 == 1 <==> bits[Offset(widths, k) + i]
  {
    FieldRange(widths, k);
    BitsOfWord(FieldBits(bits, widths, k));
    BitAt(GetField(bits, widths, k), widths[k], i);
  }

  /** A bit of the array is the bit of one of its bytes, lowest first. */
  lemma BitPlace(data: seq<bv8>, at: nat)
    requires at < 8 * |data|
    ensures BitsOf(data)[at] <==> data[at / 8] & [1, 2, 4, 8, 16, 32, 64, 128][at % 8] != 0
  {
    BitValue(data[at / 8], at % 8);
  }

  /** Where the digits of a field are: from the sum of the widths before it on, lowest first, in bytes of eight. */
  lemma FieldPlace(data: seq<bv8>, widths: seq<nat>, k: nat, i: nat)
    requires Laid(BitsOf(data), widths) && k < |widths| && i < widths[k]
    ensures Offset(widths, 0) == 0 && Offset(widths, k + 1) == Offset(widths, k) + widths[k] <= 8 * |data|
    ensures var at := Offset(widths, k) + i;
            GetField(BitsOf(data), widths, k) / Pow2(i) % 2 == 1 <==>
            data[at / 8] & [1, 2, 4, 8, 16, 32, 64, 128][at % 8] != 0
  {
    FieldRange(widths, k);
    FieldDigit(BitsOf(data), widths, k, i);
    BitPlace(data, Offset(widths, k) + i);
  }

  lemma SameField(a: seq<bool>, b: seq<bool>, widths: seq<nat>, k: nat)
    requires Laid(a, widths) && Laid(b, widths) && k < |widths| && GetField(a, widths, k) == GetField(b, widths, k)
    ensures FieldBits(a, widths, k) == FieldBits(b, widths, k)
  {
    BitsOfWord(FieldBits(a, widths, k));
    BitsOfWord(FieldBits(b, widths, k));
  }

  lemma SamePrefix(a: seq<bool>, b: seq<bool>, lo: nat, hi: nat)
    requires lo <= hi <= |a| && hi <= |b| && a[..lo] == b[..lo] && a[lo..hi] == b[lo..hi]
    ensures a[..hi] == b[..hi]
  {
    assert a[..hi] == a[..lo] + a[lo..hi] && b[..hi] == b[..lo] + b[lo..hi];
  }

  /** The fields tell structs apart: equal getters, equal bits, hence equal byte arrays. */
  lemma {:induction false} FieldsDetermineBits(a: seq<bool>, b: seq<bool>, widths: seq<nat>, n: nat)
    requires Laid(a, widths) && Laid(b, widths) && n <= |widths|
    requires forall k :: 0 <= k < |widths| ==> GetField(a, widths, k) == GetField(b, widths, k)
    ensures Offset(widths, n) <= |a| && a[..Offset(widths, n)] == b[..Offset(widths, n)]
    decreases n
  {
    OffsetMonotone(widths, n, |widths|);
    if n > 0 {
      FieldsDetermineBits(a, b, widths, n - 1);
      FieldRange(widths, n - 1);
      SameField(a, b, widths, n - 1);
      SamePrefix(a, b, Offset(widths, n - 1), Offset(widths, n));
    }
  }

  lemma FieldsDetermineData(a: seq<bv8>, b: seq<bv8>, widths: seq<nat>)
    requires Laid(BitsOf(a), widths) && Laid(BitsOf(b), widths)
    requires forall k :: 0 <= k < |widths| ==> GetField(BitsOf(a), widths, k) == GetField(BitsOf(b), widths, k)
    ensures a == b
  {
    FieldsDetermineBits(BitsOf(a), BitsOf(b), widths, |widths|);
    assert BitsOf(a)[..|BitsOf(a)|] == BitsOf(a) && BitsOf(b)[..|BitsOf(b)|] == BitsOf(b);
    SameBitsSameData(a, b);
  }

  /** Setting the first `n` fields one after the other. */
  function SetFirst(bits: seq<bool>, widths: seq<nat>, values: seq<nat>, n: nat): (r: seq<bool>)
    requires Laid(bits, widths) && |values| == |widths| && n <= |widths|
    ensures Laid(r, widths)
    decreases n
  {
    if n == 0 then bits else SetField(SetFirst(bits, widths, values, n - 1), widths, n - 1, values[n - 1])
  }

  lemma GetBackWhatFits(bits: seq<bool>, widths: seq<nat>, k: nat, v: nat)
    requires Laid(bits, widths) && k < |widths| && v < Pow2(widths[k])
    ensures GetField(SetField(bits, widths, k, v), widths, k) == v
  {
    GetAfterSet(bits, widths, k, v);
  }

  /** Every tuple of field values that fit is the tuple of some struct: any struct set to it. */
  lemma {:induction false} AnyFieldsCanBeSet(bits: seq<bool>, widths: seq<nat>, values: seq<nat>, n: nat, k: nat)
    requires Laid(bits, widths) && |values| == |widths| && k < n <= |widths| && values[k] < Pow2(widths[k])
    ensures GetField(SetFirst(bits, widths, values, n), widths, k) == values[k]
    decreases n
  {
    var before := SetFirst(bits, widths, values, n - 1);
    assert SetFirst(bits, widths, values, n) == SetField(before, widths, n - 1, values[n - 1]);
    if k == n - 1 {
      GetBackWhatFits(before, widths, k, values[k]);
    } else {
      AnyFieldsCanBeSet(bits, widths, values, n - 1, k);
      OtherFieldsKept(before, widths, n - 1, values[n - 1], k);
    }
  }

  /** The setters one after the other: any bytes become bytes with these fields. */
  method SetAll(s: Struct, widths: seq<nat>, values: seq<nat>)
    requires Laid(s.Bits(), widths) && |values| == |widths|
    requires forall k :: 0 <= k < |widths| ==> values[k] < Pow2(widths[k])
    modifies s.data
    ensures Laid(s.Bits(), widths)
    ensures forall k :: 0 <= k < |widths| ==> GetField(s.Bits(), widths, k) == values[k]
  {
    ghost var before := s.Bits();
    for i := 0 to |widths|
      invariant Laid(s.Bits(), widths) && s.Bits() == SetFirst(before, widths, values, i)
    {
      WriteField(s, widths, i, values[i]);
    }
    forall k | 0 <= k < |widths|
      ensures GetField(s.Bits(), widths, k) == values[k]
    {
      AnyFieldsCanBeSet(before, widths, values, |widths|, k);
    }
  }
}
