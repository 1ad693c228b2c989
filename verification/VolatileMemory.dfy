/**
 Slices of raw memory (`VolatileSlice`). The address space is one array of bytes, indexed by
 address, and a slice is a pair of an address and a size into it.
 */
module VolatileMemory {
  import opened Common

  datatype MemError = OutOfBounds(addr: int) | Overflow(base: nat, offset: nat)

  datatype VolatileSlice = VolatileSlice(addr: nat, size: nat) {

    /** The slice lies in an address space of `length` bytes: what `VolatileSlice::new` demands. */
    predicate In(length: nat) {
      addr + size <= length
    }

    predicate Disjoint(other: VolatileSlice) {
      addr + size <= other.addr || other.addr + other.size <= addr
    }

    /** The part of this slice that starts at `offset` and is `count` bytes long. */
    function GetSlice(offset: nat, count: nat): (r: Result<VolatileSlice, MemError>)
      requires addr + size < U64_END
      ensures r.Ok? <==> offset + count <= size
      ensures r.Ok? ==> r.value.addr == addr + offset && r.value.size == count
    {
      if offset + count >= U64_END then Err(Overflow(offset, count))
      else if offset + count > size then Err(OutOfBounds(offset + count))
      else Ok(VolatileSlice(addr + offset, count))
    }

    /** This slice without its first `count` bytes. */
    function Offset(count: nat): (r: Result<VolatileSlice, MemError>)
      requires addr + size < U64_END
      ensures r.Ok? <==> count <= size
      ensures r.Ok? ==> r.value.addr == addr + count && r.value.addr + r.value.size == addr + size
    {
      if addr + count >= U64_END then Err(Overflow(addr, count))
      else if count > size then Err(OutOfBounds(addr + count))
      else Ok(VolatileSlice(addr + count, size - count))
    }
  }

  /** The bytes a slice covers in memory `m`. */
  function Bytes(m: seq<bv8>, s: VolatileSlice): (r: seq<bv8>)
    requires s.In(|m|)
    ensures |r| == s.size
  {
    m[s.addr..s.addr + s.size]
  }

  /** `after` is `before` with the smaller of the two sizes copied from `src` to `dst`. */
  ghost predicate Copied(before: seq<bv8>, after: seq<bv8>, src: VolatileSlice, dst: VolatileSlice) {
    && |before| == |after| && src.In(|before|) && dst.In(|before|)
    && var end := dst.addr + Min(src.size, dst.size);
       && (forall a :: dst.addr <= a < end ==> after[a] == before[src.addr + (a - dst.addr)])
       && (forall a :: 0 <= a < dst.addr || end <= a < |before| ==> after[a] == before[a])
  }

  /** `copy_to_volatile_slice`; overlapping slices behave as in `ptr::copy`. */
  method CopyToVolatileSlice(mem: array<bv8>, src: VolatileSlice, dst: VolatileSlice)
    requires src.In(mem.Length) && dst.In(mem.Length)
    modifies mem
    ensures Copied(old(mem[..]), mem[..], src, dst)
  {
    var n := Min(src.size, dst.size);
    ghost var before := mem[..];
    forall i | 0 <= i < n {
      mem[dst.addr + i] := mem[src.addr + i];
    }
    forall a | dst.addr <= a < dst.addr + n ensures mem[a] == before[src.addr + (a - dst.addr)] {
      var i := a - dst.addr;
      assert mem[dst.addr + i] == before[src.addr + i];
    }
  }
}
