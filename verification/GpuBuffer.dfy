/**
 Pixel transfers between a mapped buffer object and scatter-gather memory.

 Both transfer paths of `write_from_sg` and of `read_to_volatile` are refined to one flat,
 byte-indexed description of the memory that results.
 */
module GpuBuffer {
  import opened Arithmetic
  import opened Common
  import opened VolatileMemory

  type PixelSize = n: int | 1 <= n <= 4 witness 1

  /** A buffer object, seen through one plane; `bytesPerPixel` is None for an unknown format. */
  datatype Buffer = Buffer(width: u32, height: u32, numPlanes: nat, bytesPerPixel: Option<PixelSize>)

  datatype Rect = Rect(x: u32, y: u32, width: u32, height: u32) {
    predicate Empty() {
      width == 0 || height == 0
    }

    predicate Contains(px: int, py: int) {
      x <= px < x + width && y <= py < y + height
    }
  }

  /** What `gbm_bo_map` returned. */
  datatype GbmMap = MapFailure | Mapped(addr: nat, stride: u32)

  datatype Error =
    | MapFailed
    | UnknownFormat
    | CheckedArithmetic
    | InvalidPrecondition
    | Memcopy(e: MemError)

  datatype Mapping = Mapping(slice: VolatileSlice, stride: u32)

  // ---------------------------------------------------------------------------
  // Mapping a rectangle
  // ---------------------------------------------------------------------------

  /** `Buffer::map`: the checks, and the size of the slice from the first mapped pixel on. */
  function Map(buf: Buffer, rect: Rect, plane: nat, gbm: GbmMap): (r: Result<Mapping, Error>)
    ensures r.Ok? ==>
              && gbm.Mapped? && buf.bytesPerPixel.Some?
              && rect.x + rect.width <= buf.width && rect.y + rect.height <= buf.height
              && r.value.stride == gbm.stride && r.value.slice.addr == gbm.addr
              && r.value.slice.size == gbm.stride * rect.height - rect.x * buf.bytesPerPixel.value
  {
    if rect.x + rect.width >= U32_END then Err(CheckedArithmetic)
    else if rect.x + rect.width > buf.width then Err(InvalidPrecondition)
    else if rect.y + rect.height >= U32_END then Err(CheckedArithmetic)
    else if rect.y + rect.height > buf.height then Err(InvalidPrecondition)
    else if plane > buf.numPlanes then Err(InvalidPrecondition)
    else if buf.bytesPerPixel.None? then Err(UnknownFormat)
    else if gbm.MapFailure? then Err(MapFailed)
    else
      var size := gbm.stride * rect.height;
      var xOffsetBytes := rect.x * buf.bytesPerPixel.value;
      if size >= U32_END || xOffsetBytes >= U32_END || size < xOffsetBytes then Err(CheckedArithmetic)
      else Ok(Mapping(VolatileSlice(gbm.addr, size - xOffsetBytes), gbm.stride))
  }

  /**
   All that is assumed of `gbm_bo_map`: rows of the buffer fit in the stride it reports, and the
   mapped rows, from the first mapped pixel to the end of the last row, are memory.
   */
  predicate Trusted(buf: Buffer, rect: Rect, gbm: GbmMap, length: nat) {
    gbm.Mapped? && buf.bytesPerPixel.Some? ==>
      var bpp := buf.bytesPerPixel.value;
      gbm.stride >= buf.width * bpp &&
      gbm.addr + gbm.stride * rect.height - rect.x * bpp <= length
  }

  /** The part of a row that a rectangle takes, in bytes, against the row and against all rows. */
  lemma RowArithmetic(x: nat, width: nat, all: nat, bpp: nat, stride: nat, height: nat)
    requires x + width <= all && width > 0 && bpp > 0 && height > 0 && all * bpp <= stride
    ensures 0 < width * bpp && x * bpp + width * bpp <= stride <= stride * height
    ensures x == 0 ==> x * bpp == 0
    ensures height * stride == stride * height
  {
    MulMonotone(x + width, all, bpp);
    assert (x + width) * bpp == x * bpp + width * bpp;
    MulMonotone(1, width, bpp);
    MulMonotone(1, height, stride);
  }

  /** When a rectangle can be mapped: it lies in the buffer, and its rows together have a 32-bit size. */
  lemma MapSucceeds(buf: Buffer, rect: Rect, plane: nat, gbm: GbmMap, length: nat)
    requires Trusted(buf, rect, gbm, length) && !rect.Empty()
    ensures Map(buf, rect, plane, gbm).Ok? <==>
            && rect.x + rect.width <= buf.width && rect.y + rect.height <= buf.height && plane <= buf.numPlanes
            && buf.bytesPerPixel.Some? && gbm.Mapped? && gbm.stride * rect.height < U32_END
  {
    if rect.x + rect.width <= buf.width && buf.bytesPerPixel.Some? && gbm.Mapped? {
      RowArithmetic(rect.x, rect.width, buf.width, buf.bytesPerPixel.value, gbm.stride, rect.height);
    }
  }

  /** Which error a rectangle meets that cannot be mapped: the checks in their order. */
  lemma MapErrors(buf: Buffer, rect: Rect, plane: nat, gbm: GbmMap, length: nat)
    requires Trusted(buf, rect, gbm, length) && !rect.Empty() && Map(buf, rect, plane, gbm).Err?
    ensures var right, bottom, e := rect.x + rect.width, rect.y + rect.height, Map(buf, rect, plane, gbm).error;
            if right > buf.width then
              e == if right < 0x1_0000_0000 then InvalidPrecondition else CheckedArithmetic
            else if bottom > buf.height then
              e == if bottom < 0x1_0000_0000 then InvalidPrecondition else CheckedArithmetic
            else if plane > buf.numPlanes then e == InvalidPrecondition
            else if buf.bytesPerPixel.None? then e == UnknownFormat
            else if gbm.MapFailure? then e == MapFailed
            else e == CheckedArithmetic && gbm.stride * rect.height >= 0x1_0000_0000
  {
    MapSucceeds(buf, rect, plane, gbm, length);
  }

  /** The paths that copy whole rows, padding included. */
  predicate FullWidth(buf: Buffer, rect: Rect) {
    rect.x == 0 && rect.width == buf.width
  }

  /** Bytes transferred per row. */
  function LineSize(buf: Buffer, rect: Rect, stride: u32): (n: nat)
    requires buf.bytesPerPixel.Some?
  {
    if FullWidth(buf, rect) then stride else rect.width * buf.bytesPerPixel.value
  }

  // ---------------------------------------------------------------------------
  // The flat description
  // ---------------------------------------------------------------------------

  /** Distance `d` from the first mapped pixel is inside one of the copied lines. */
  predicate InLine(d: int, stride: nat, line: nat)
    requires stride > 0
  {
    d % stride < line
  }

  /**
   A transfer in flat terms: line bytes of memory `m`, counted from address `base`, are to be
   replaced by the bytes of `src` counted from `off`.
   */
  datatype Plan = Plan(m: seq<bv8>, base: nat, stride: nat, line: nat, src: seq<bv8>, off: nat) {

    /** The byte at address `a` once every line byte closer than `upto` to `base` is in place. */
    function At(upto: nat, a: nat): (b: bv8)
      requires stride > 0 && a < |m|
    {
      if base <= a < base + upto && InLine(a - base, stride, line) && off + (a - base) < |src|
      then src[off + (a - base)]
      else m[a]
    }

    /** The whole memory at that point. */
    function Placed(upto: nat): (r: seq<bv8>)
      requires stride > 0
      ensures |r| == |m|
    {
      seq(|m|, a requires 0 <= a < |m| => At(upto, a))
    }

    ghost predicate Done(cur: seq<bv8>, upto: nat)
      requires stride > 0
    {
      cur == Placed(upto)
    }
  }

  predicate AllIn(sgs: seq<VolatileSlice>, length: nat) {
    forall i :: 0 <= i < |sgs| ==> sgs[i].In(length)
  }

  /** The bytes of a fragment list, in order. */
  function Flatten(m: seq<bv8>, sgs: seq<VolatileSlice>): (r: seq<bv8>)
    requires AllIn(sgs, |m|)
  {
    if sgs == [] then [] else Bytes(m, sgs[0]) + Flatten(m, sgs[1..])
  }

  // ---------------------------------------------------------------------------
  // Writing
  // ---------------------------------------------------------------------------

  /** The fragments are memory apart from the mapped rows. */
  predicate Fragments(sgs: seq<VolatileSlice>, dst: VolatileSlice, length: nat) {
    forall i :: 0 <= i < |sgs| ==> sgs[i].In(length) && sgs[i].Disjoint(dst)
  }

  /** Where fragment `k` starts in the flattened source. */
  function Pos(sgs: seq<VolatileSlice>, k: nat): (n: nat)
    requires k <= |sgs|
  {
    if k == 0 then 0 else Pos(sgs, k - 1) + sgs[k - 1].size
  }

  lemma {:induction false} PosTail(sgs: seq<VolatileSlice>, k: nat)
    requires k < |sgs|
    ensures Pos(sgs, k + 1) == sgs[0].size + Pos(sgs[1..], k)
  {
    if k > 0 {
      PosTail(sgs, k - 1);
    } else {
      assert Pos(sgs, 1) == Pos(sgs, 0) + sgs[0].size;
    }
  }

  lemma SliceBehind<T>(a: seq<T>, b: seq<T>, lo: nat, hi: nat)
    requires lo <= hi <= |b|
    ensures (a + b)[|a| + lo..|a| + hi] == b[lo..hi]
  {
  }

  lemma {:induction false} FragmentAt(m: seq<bv8>, sgs: seq<VolatileSlice>, k: nat)
    requires AllIn(sgs, |m|) && k < |sgs|
    ensures Pos(sgs, k + 1) == Pos(sgs, k) + sgs[k].size <= |Flatten(m, sgs)|
    ensures Flatten(m, sgs)[Pos(sgs, k)..Pos(sgs, k + 1)] == Bytes(m, sgs[k])
    ensures k + 1 == |sgs| ==> Pos(sgs, k + 1) == |Flatten(m, sgs)|
    decreases k
  {
    var rest := Flatten(m, sgs[1..]);
    assert Flatten(m, sgs) == Bytes(m, sgs[0]) + rest;
    if k > 0 {
      FragmentAt(m, sgs[1..], k - 1);
      PosTail(sgs, k - 1);
      PosTail(sgs, k);
      SliceBehind(Bytes(m, sgs[0]), rest, Pos(sgs[1..], k - 1), Pos(sgs[1..], k));
    } else {
      assert Pos(sgs, 0) == 0;
    }
  }

  /** Every distance from `lo` up to `hi` is a line byte. */
  ghost predicate Inside(p: Plan, lo: nat, hi: nat)
    requires p.stride > 0
  {
    forall d :: lo <= d < hi ==> InLine(d, p.stride, p.line)
  }

  /** No distance from `lo` up to `hi` is a line byte that the source has. */
  ghost predicate Outside(p: Plan, lo: nat, hi: nat)
    requires p.stride > 0
  {
    forall d :: lo <= d < hi && p.off + d < |p.src| ==> !InLine(d, p.stride, p.line)
  }

  /** Copying `n` further source bytes of one line into place. */
  lemma AdvanceCopy(p: Plan, cur: seq<bv8>, upto: nat, n: nat)
    requires p.stride > 0 && |cur| == |p.m| && p.base + upto + n <= |p.m| && p.off + upto + n <= |p.src|
    requires Inside(p, upto, upto + n)
    requires forall a :: p.base + upto <= a < p.base + upto + n ==> cur[a] == p.src[p.off + (a - p.base)]
    requires forall a :: 0 <= a < p.base + upto || p.base + upto + n <= a < |p.m| ==> cur[a] == p.Placed(upto)[a]
    ensures p.Done(cur, upto + n)
  {
    forall a | 0 <= a < |p.m| ensures cur[a] == p.At(upto + n, a) {
      if p.base + upto <= a < p.base + upto + n {
        assert InLine(a - p.base, p.stride, p.line);
      }
    }
  }

  /** Nothing is placed in a gap between lines, nor past the end of the source. */
  lemma AdvanceSkip(p: Plan, cur: seq<bv8>, upto: nat, upto': nat)
    requires p.stride > 0 && p.Done(cur, upto) && upto <= upto'
    requires Outside(p, upto, upto')
    ensures p.Done(cur, upto')
  {
    forall a | 0 <= a < |p.m| ensures p.At(upto, a) == p.At(upto', a) {
      if p.base + upto <= a < p.base + upto' && p.off + (a - p.base) < |p.src| {
        assert !InLine(a - p.base, p.stride, p.line);
      }
    }
  }

  /** Once the source has run out, the rest stays as it is. */
  lemma SourceEnds(p: Plan, cur: seq<bv8>, upto: nat, upto': nat)
    requires p.stride > 0 && p.Done(cur, upto) && upto <= upto' && p.off + upto >= |p.src|
    ensures p.Done(cur, upto')
  {
    AdvanceSkip(p, cur, upto, upto');
  }

  /** Fragment `sg` holds the bytes of the source from `pos` on, and is clear of the mapped rows. */
  ghost predicate Holds(p: Plan, sg: VolatileSlice, pos: nat, dst: VolatileSlice) {
    && sg.In(|p.m|) && dst.In(|p.m|) && p.base <= dst.addr
    && (sg.addr + sg.size <= p.base || dst.addr + dst.size <= sg.addr)
    && pos + sg.size <= |p.src| && p.src[pos..pos + sg.size] == Bytes(p.m, sg)
  }

  lemma FragmentCopied(p: Plan, before: seq<bv8>, after: seq<bv8>, sg: VolatileSlice, part: VolatileSlice,
                       dst: VolatileSlice, upto: nat, pos: nat)
    requires p.stride > 0 && p.Done(before, upto) && Copied(before, after, part, dst) && Holds(p, sg, pos, dst)
    requires sg.addr <= part.addr && part.addr + part.size <= sg.addr + sg.size && part.size <= dst.size
    requires dst.addr == p.base + upto && pos + (part.addr - sg.addr) == p.off + upto
    requires Inside(p, upto, upto + part.size)
    ensures p.Done(after, upto + part.size)
  {
    forall a | dst.addr <= a < dst.addr + part.size ensures after[a] == p.src[p.off + (a - p.base)] {
      var i := part.addr - sg.addr + (a - dst.addr);
      assert p.src[pos + i] == p.src[pos..pos + sg.size][i] == Bytes(p.m, sg)[i];
      assert before[sg.addr + i] == p.At(upto, sg.addr + i) == p.m[sg.addr + i];
    }
    AdvanceCopy(p, after, upto, part.size);
  }

  /** The fragments, the mapped rows and the plan of a write agree. */
  ghost predicate Writing(p: Plan, dst: VolatileSlice, sgs: seq<VolatileSlice>, off: nat) {
    && |p.m| <= ISIZE_MAX && dst.In(|p.m|) && Fragments(sgs, dst, |p.m|)
    && p.base == dst.addr && 0 < p.line <= p.stride && p.src == Flatten(p.m, sgs) && p.off == off
  }

  /** Fragment `k` holds the next stretch of the source. */
  lemma NextFragment(p: Plan, sgs: seq<VolatileSlice>, k: nat, dst: VolatileSlice, off: nat)
    requires Writing(p, dst, sgs, off) && k < |sgs|
    ensures Pos(sgs, k + 1) == Pos(sgs, k) + sgs[k].size
    ensures k + 1 == |sgs| ==> Pos(sgs, k + 1) == |p.src|
  {
    FragmentAt(p.m, sgs, k);
  }

  /** Copies `n` bytes of fragment `k` from `srcOffset` on to the front of what is left of the rows. */
  method CopyFragment(mem: array<bv8>, sgs: seq<VolatileSlice>, k: nat, srcOffset: nat, n: nat, dst: VolatileSlice,
                      ghost p: Plan, ghost rows: VolatileSlice, ghost off: nat, ghost upto: nat)
    returns (rest: VolatileSlice)
    requires Writing(p, rows, sgs, off) && p.Done(mem[..], upto) && k < |sgs|
    requires srcOffset + n <= sgs[k].size && n <= dst.size
    requires Pos(sgs, k) + srcOffset == off + upto && Inside(p, upto, upto + n)
    requires dst.addr == rows.addr + upto && dst.addr + dst.size == rows.addr + rows.size
    modifies mem
    ensures p.Done(mem[..], upto + n)
    ensures rest.addr == dst.addr + n && rest.addr + rest.size == dst.addr + dst.size
  {
    ghost var before := mem[..];
    var sg := sgs[k];
    FragmentAt(p.m, sgs, k);
    var srcSlice := sg.GetSlice(srcOffset, n);
    assert srcSlice.Ok?;
    CopyToVolatileSlice(mem, srcSlice.value, dst);
    FragmentCopied(p, before, mem[..], sg, srcSlice.value, dst, upto, Pos(sgs, k));
    var r := dst.Offset(n);
    assert r.Ok?;
    rest := r.value;
  }

  lemma Start(p: Plan)
    requires p.stride > 0
    ensures p.Done(p.m, 0)
  {
  }

  /** `write_from_sg`, whole rows: no gaps in the data. */
  method WriteRows(mem: array<bv8>, dst: VolatileSlice, srcOffset0: nat, sgs: seq<VolatileSlice>, ghost p: Plan)
    requires p.m == mem[..] && Writing(p, dst, sgs, srcOffset0) && p.line == p.stride && dst.size > 0
    modifies mem
    ensures p.Done(mem[..], dst.size)
  {
    var srcOffset: nat, dstSlice, copySize: nat := srcOffset0, dst, dst.size;
    ghost var pos: nat := 0;  // where fragment k starts in the flattened source
    Start(p);
    var k := 0;
    while k < |sgs|
      invariant 0 <= k <= |sgs|
      invariant pos == Pos(sgs, k)
      invariant k == |sgs| ==> pos >= |p.src|
      invariant dstSlice.In(mem.Length) && dstSlice.size == copySize && 0 < copySize <= dst.size
      invariant dstSlice.addr + dstSlice.size == dst.addr + dst.size
      invariant pos + srcOffset == srcOffset0 + (dst.size - copySize)
      invariant p.Done(mem[..], dst.size - copySize)
    {
      var sg := sgs[k];
      NextFragment(p, sgs, k, dst, srcOffset0);
      if sg.size < srcOffset {
        srcOffset, pos, k := srcOffset - sg.size, pos + sg.size, k + 1;
        continue;
      }
      var copySgSize := Min(sg.size - srcOffset, copySize);
      dstSlice := CopyFragment(mem, sgs, k, srcOffset, copySgSize, dstSlice, p, dst, srcOffset0, dst.size - copySize);
      srcOffset, pos, k := 0, pos + sg.size, k + 1;
      copySize := copySize - copySgSize;
      if copySize == 0 {
        return;
      }
    }
    SourceEnds(p, mem[..], dst.size - copySize, dst.size);
  }

  /** Some row starts at distance `d`. */
  ghost predicate RowStart(d: nat, stride: nat) {
    d == 0 || (0 < stride <= d && RowStart(d - stride, stride))
  }

  lemma {:induction false} RowStartIsMultiple(d: nat, stride: nat) returns (q: nat)
    requires RowStart(d, stride)
    ensures d == q * stride
  {
    if d == 0 {
      q := 0;
    } else {
      var q' := RowStartIsMultiple(d - stride, stride);
      q := q' + 1;
      assert q * stride == q' * stride + stride;
    }
  }

  /** Which bytes of the row that starts at `row` are line bytes. */
  lemma LineBytes(p: Plan, row: nat, lo: nat, hi: nat)
    requires 0 < p.line <= p.stride && RowStart(row, p.stride) && row <= lo <= hi <= row + p.line
    ensures Inside(p, lo, hi)
    ensures Outside(p, row + p.line, row + p.stride)
  {
    var q := RowStartIsMultiple(row, p.stride);
    forall d | row <= d < row + p.stride ensures InLine(d, p.stride, p.line) <==> d < row + p.line {
      ModUnique(d, p.stride, q, d - row);
    }
  }

  /** The same, inside the line that starts at `row`. */
  method CopyLinePart(mem: array<bv8>, sgs: seq<VolatileSlice>, k: nat, srcOffset: nat, n: nat, dst: VolatileSlice,
                      ghost p: Plan, ghost rows: VolatileSlice, ghost off: nat, ghost upto: nat, ghost row: nat)
    returns (rest: VolatileSlice)
    requires Writing(p, rows, sgs, off) && p.Done(mem[..], upto) && k < |sgs|
    requires srcOffset + n <= sgs[k].size && n <= dst.size
    requires Pos(sgs, k) + srcOffset == off + upto && RowStart(row, p.stride) && row <= upto && upto + n <= row + p.line
    requires dst.addr == rows.addr + upto && dst.addr + dst.size == rows.addr + rows.size
    modifies mem
    ensures p.Done(mem[..], upto + n)
    ensures rest.addr == dst.addr + n && rest.addr + rest.size == dst.addr + dst.size
  {
    LineBytes(p, row, upto, upto + n);
    rest := CopyFragment(mem, sgs, k, srcOffset, n, dst, p, rows, off, upto);
  }

  lemma RowStartNext(d: nat, stride: nat)
    requires RowStart(d, stride) && stride > 0
    ensures RowStart(d + stride, stride)
  {
  }

  /** The gap after a line stays as it is. */
  lemma EndOfLine(p: Plan, cur: seq<bv8>, row: nat)
    requires 0 < p.line <= p.stride && RowStart(row, p.stride) && p.Done(cur, row + p.line)
    ensures p.Done(cur, row + p.stride) && RowStart(row + p.stride, p.stride)
  {
    LineBytes(p, row, row, row);
    AdvanceSkip(p, cur, row + p.line, row + p.stride);
    RowStartNext(row, p.stride);
  }

  /** `bytes` is exactly `rows` rows. */
  ghost predicate RowsIn(rows: nat, bytes: nat, stride: nat) {
    if rows == 0 then bytes == 0 else bytes >= stride && RowsIn(rows - 1, bytes - stride, stride)
  }

  /** The line is done: the gap behind it stays as it is, and the next line starts there or the rows end. */
  lemma LineEnds(p: Plan, cur: seq<bv8>, row: nat, left: nat, height: nat)
    requires 0 < p.line <= p.stride && RowStart(row, p.stride) && p.Done(cur, row + p.line)
    requires height > 0 && RowsIn(height, left, p.stride)
    ensures p.Done(cur, row + p.stride) && RowStart(row + p.stride, p.stride)
    ensures left >= p.stride && RowsIn(height - 1, left - p.stride, p.stride)
    ensures if height == 1 then left == p.stride else left >= p.stride + p.stride
  {
    EndOfLine(p, cur, row);
  }

  /**
   Inside a line: it starts at `row`, `remaining` of its bytes are to come, and `height` lines with it, which is
   `left` bytes with their gaps. `rest` is what is left of the mapped rows `dst`; `upto` bytes are gone over.
   */
  ghost predicate InLines(p: Plan, dst: VolatileSlice, rest: VolatileSlice, height: nat, remaining: nat,
                          row: nat, left: nat, upto: nat)
  {
    && remaining <= p.line && 0 < height && upto == row + (p.line - remaining)
    && RowStart(row, p.stride) && RowsIn(height, left, p.stride)
    && rest.addr == dst.addr + upto && rest.addr + rest.size == dst.addr + dst.size
  }

  /** Goes on to the next line, over the gap: `line_end_skip` bytes of the source and of the rows. */
  method SkipGap(rest: VolatileSlice, srcOffset: nat, height: nat, lineEndSkip: nat, ghost p: Plan, ghost cur: seq<bv8>,
                 ghost dst: VolatileSlice, ghost row: nat, ghost left: nat, ghost upto: nat)
    returns (rest': VolatileSlice, srcOffset': nat)
    requires 0 < p.line <= p.stride && lineEndSkip == p.stride - p.line && height > 1
    requires InLines(p, dst, rest, height, 0, row, left, upto) && p.Done(cur, upto)
    requires dst.addr + dst.size < U64_END && row + left - p.stride + p.line <= dst.size
    ensures left >= p.stride && p.Done(cur, row + p.stride) && srcOffset' == srcOffset + (row + p.stride - upto)
    ensures InLines(p, dst, rest', height - 1, p.line, row + p.stride, left - p.stride, row + p.stride)
  {
    LineEnds(p, cur, row, left, height);
    srcOffset' := srcOffset + lineEndSkip;
    var next := rest.Offset(lineEndSkip);
    assert next.Ok?;
    rest' := next.value;
  }

  /** The variables of the loop over lines. */
  datatype Cursor = Cursor(srcOffset: nat, rest: VolatileSlice, remaining: nat, height: nat)

  /** Copies from fragment `k` what remains of the line, or what the fragment has, and goes on to the next line. */
  method WritePart(mem: array<bv8>, sgs: seq<VolatileSlice>, k: nat, c: Cursor, stride: nat, line: nat, ghost p: Plan,
                   ghost dst: VolatileSlice, ghost off: nat, ghost row: nat, ghost left: nat, ghost upto: nat)
    returns (c': Cursor, ghost row': nat, ghost left': nat, ghost upto': nat)
    requires Writing(p, dst, sgs, off) && p.Done(mem[..], upto) && p.line == line && p.stride == stride && k < |sgs|
    requires InLines(p, dst, c.rest, c.height, c.remaining, row, left, upto) && 0 < c.remaining
    requires c.srcOffset < sgs[k].size && Pos(sgs, k) + c.srcOffset == off + upto
    requires row + left - stride + line <= dst.size
    modifies mem
    ensures row' + left' == row + left && p.Done(mem[..], upto')
    ensures if c'.height == 0 then upto' == row + left
            else InLines(p, dst, c'.rest, c'.height, c'.remaining, row', left', upto') && 0 < c'.remaining
    ensures c'.height == 0 || Pos(sgs, k) + c'.srcOffset == off + upto'
    ensures c'.height < c.height || (c'.height == c.height && c'.remaining < c.remaining)
  {
    var n := Min(sgs[k].size - c.srcOffset, c.remaining);
    var rest := CopyLinePart(mem, sgs, k, c.srcOffset, n, c.rest, p, dst, off, upto, row);
    c', row', left', upto' := Cursor(c.srcOffset + n, rest, c.remaining - n, c.height), row, left, upto + n;
    if c'.remaining == 0 && c.height == 1 {
      LineEnds(p, mem[..], row, left, 1);
      c', upto' := c'.(height := 0), row + stride;
    } else if c'.remaining == 0 {
      var next, srcOffset := SkipGap(rest, c'.srcOffset, c.height, stride - line, p, mem[..], dst, row, left, upto');
      c' := Cursor(srcOffset, next, line, c.height - 1);
      row', left', upto' := row + stride, left - stride, row + stride;
    }
  }

  /** `write_from_sg`, partial rows: skips the gap between the end of a line and the next line. */
  method WriteLines(mem: array<bv8>, dst: VolatileSlice, stride: nat, line: nat, height: nat,
                    srcOffset: nat, sgs: seq<VolatileSlice>, ghost p: Plan, ghost total: nat)
    requires p.m == mem[..] && Writing(p, dst, sgs, srcOffset) && p.line == line && p.stride == stride
    requires 0 < height && RowsIn(height, total, stride) && total - stride + line <= dst.size
    modifies mem
    ensures p.Done(mem[..], total)
  {
    var c := Cursor(srcOffset, dst, line, height);
    ghost var pos: nat, row: nat, left: nat, upto: nat := 0, 0, total, 0;
    Start(p);
    var k := 0;
    while k < |sgs|
      invariant 0 <= k <= |sgs| && pos == Pos(sgs, k) && (k == |sgs| ==> pos >= |p.src|)
      invariant row + left == total && pos + c.srcOffset == srcOffset + upto && 0 < c.remaining
      invariant InLines(p, dst, c.rest, c.height, c.remaining, row, left, upto)
      invariant p.Done(mem[..], upto)
      decreases |sgs| - k, c.height, c.remaining
    {
      NextFragment(p, sgs, k, dst, srcOffset);
      if sgs[k].size <= c.srcOffset {
        c, pos, k := c.(srcOffset := c.srcOffset - sgs[k].size), pos + sgs[k].size, k + 1;
      } else {
        c, row, left, upto := WritePart(mem, sgs, k, c, stride, line, p, dst, srcOffset, row, left, upto);
        if c.height == 0 {
          return;
        }
      }
    }
    SourceEnds(p, mem[..], upto, total);
  }

  lemma {:induction false} RowsInIsProduct(rows: nat, stride: nat)
    ensures RowsIn(rows, rows * stride, stride)
  {
    if rows > 0 {
      RowsInIsProduct(rows - 1, stride);
      assert rows * stride == (rows - 1) * stride + stride;
    }
  }

  /** What a write returns: everything that can fail, fails before the first byte is written. */
  function WriteResult(buf: Buffer, rect: Rect, plane: nat, srcOffset: u64, gbm: GbmMap): (r: Result<(), Error>) {
    if rect.Empty() then Ok(())
    else if srcOffset > ISIZE_MAX then Err(InvalidPrecondition)
    else
      var mapping :- Map(buf, rect, plane, gbm);
      Ok(())
  }

  /** A write in flat terms. */
  function WrittenPlan(m: seq<bv8>, buf: Buffer, rect: Rect, gbm: GbmMap, off: nat, sgs: seq<VolatileSlice>): (p: Plan)
    requires gbm.Mapped? && buf.bytesPerPixel.Some? && AllIn(sgs, |m|)
  {
    Plan(m, gbm.addr, gbm.stride, LineSize(buf, rect, gbm.stride), Flatten(m, sgs), off)
  }

  /** A mapped rectangle fits, line by line, in the rows of the mapping. */
  lemma RectFits(buf: Buffer, rect: Rect, plane: nat, gbm: GbmMap, length: nat)
    requires Trusted(buf, rect, gbm, length) && !rect.Empty() && Map(buf, rect, plane, gbm).Ok?
    ensures var slice, total := Map(buf, rect, plane, gbm).value.slice, gbm.stride * rect.height;
            && slice.In(length) && RowsIn(rect.height, total, gbm.stride)
            && 0 < rect.width * buf.bytesPerPixel.value <= gbm.stride
            && 0 < total - gbm.stride + rect.width * buf.bytesPerPixel.value <= slice.size <= total < U32_END
            && (rect.x == 0 ==> slice.size == total)
  {
    RowArithmetic(rect.x, rect.width, buf.width, buf.bytesPerPixel.value, gbm.stride, rect.height);
    RowsInIsProduct(rect.height, gbm.stride);
  }

  /**
   `write_from_sg`. An error leaves memory as it was; otherwise exactly the line bytes of the
   rectangle take the bytes of the flattened source, as far as the source goes.
   */
  method WriteFromSg(mem: array<bv8>, buf: Buffer, rect: Rect, plane: nat, srcOffset: u64,
                     sgs: seq<VolatileSlice>, gbm: GbmMap)
    returns (r: Result<(), Error>)
    requires mem.Length <= ISIZE_MAX && Trusted(buf, rect, gbm, mem.Length) && AllIn(sgs, mem.Length)
    requires Map(buf, rect, plane, gbm).Ok? ==> Fragments(sgs, Map(buf, rect, plane, gbm).value.slice, mem.Length)
    modifies mem
    ensures r == WriteResult(buf, rect, plane, srcOffset, gbm)
    ensures rect.Empty() ==> r == Ok(())
    ensures !rect.Empty() ==>
              (r.Ok? <==>
                 && srcOffset <= 0x7fff_ffff_ffff_ffff
                 && rect.x + rect.width <= buf.width && rect.y + rect.height <= buf.height && plane <= buf.numPlanes
                 && buf.bytesPerPixel.Some? && gbm.Mapped? && gbm.stride * rect.height < 0x1_0000_0000)
    ensures rect.Empty() || r.Err? ==> mem[..] == old(mem[..])
    ensures !rect.Empty() && r.Ok? ==>
              && gbm.stride > 0
              && mem[..] == WrittenPlan(old(mem[..]), buf, rect, gbm, srcOffset, sgs).Placed(gbm.stride * rect.height)
  {
    if rect.Empty() {
      return Ok(());
    }
    MapSucceeds(buf, rect, plane, gbm, mem.Length);
    if srcOffset > ISIZE_MAX {
      return Err(InvalidPrecondition);
    }
    var mapped := Map(buf, rect, plane, gbm);
    if mapped.Err? {
      return Err(mapped.error);
    }
    var dst, stride, line := mapped.value.slice, mapped.value.stride, rect.width * buf.bytesPerPixel.value;
    ghost var total := gbm.stride * rect.height;
    RectFits(buf, rect, plane, gbm, mem.Length);
    ghost var p := WrittenPlan(mem[..], buf, rect, gbm, srcOffset, sgs);
    assert Writing(p, dst, sgs, srcOffset);
    if rect.x == 0 && rect.width == buf.width {
      WriteRows(mem, dst, srcOffset, sgs, p);
    } else {
      WriteLines(mem, dst, stride, line, rect.height, srcOffset, sgs, p, total);
    }
    assert p.Done(mem[..], total);
    return Ok(());
  }

  // ---------------------------------------------------------------------------
  // Reading
  // ---------------------------------------------------------------------------

  /** How many of `height` lines, `stride` apart, a destination of `size` bytes can take. */
  function LinesThatFit(height: nat, stride: nat, line: nat, size: nat): (n: nat)
    ensures n <= height
    ensures n > 0 ==> (n - 1) * stride + line <= size
    ensures n < height ==> n * stride + line > size
  {
    if height == 0 then 0
    else if (height - 1) * stride + line <= size then height
    else LinesThatFit(height - 1, stride, line, size)
  }

  /** A read in flat terms: the destination takes the bytes of the mapped slice. */
  function ReadPlan(m: seq<bv8>, buf: Buffer, rect: Rect, mapping: Mapping, dst: VolatileSlice): (p: Plan)
    requires buf.bytesPerPixel.Some? && mapping.slice.In(|m|)
  {
    Plan(m, dst.addr, mapping.stride, LineSize(buf, rect, mapping.stride), Bytes(m, mapping.slice), 0)
  }

  /** Distance up to which the destination is overwritten. */
  function ReadUpto(buf: Buffer, rect: Rect, mapping: Mapping, dst: VolatileSlice): (n: nat)
    requires buf.bytesPerPixel.Some?
  {
    if FullWidth(buf, rect) then Min(mapping.slice.size, dst.size)
    else LinesThatFit(rect.height, mapping.stride, LineSize(buf, rect, mapping.stride), dst.size) * mapping.stride
  }

  /** What a read returns once the rectangle is mapped. */
  function MappedResult(buf: Buffer, rect: Rect, mapping: Mapping, dst: VolatileSlice): (r: Result<(), Error>)
    requires buf.bytesPerPixel.Some?
  {
    var line := LineSize(buf, rect, mapping.stride);
    var n := LinesThatFit(rect.height, mapping.stride, line, dst.size);
    if FullWidth(buf, rect) || n == rect.height then Ok(())
    else Err(Memcopy(OutOfBounds(n * mapping.stride + line)))
  }

  /** What a read returns. Only the path with gaps notices that the destination is too small. */
  function ReadResult(buf: Buffer, rect: Rect, plane: nat, gbm: GbmMap, dst: VolatileSlice): (r: Result<(), Error>) {
    if rect.Empty() then Ok(())
    else
      var mapping :- Map(buf, rect, plane, gbm);
      MappedResult(buf, rect, mapping, dst)
  }

  ghost predicate Reading(p: Plan, src: VolatileSlice, dst: VolatileSlice) {
    && |p.m| <= ISIZE_MAX && src.In(|p.m|) && dst.In(|p.m|) && src.Disjoint(dst)
    && p.base == dst.addr && 0 < p.line <= p.stride && p.off == 0 && p.src == Bytes(p.m, src)
  }

  /** Where line `y` ends. */
  function LineEnd(y: nat, stride: nat, line: nat): (d: nat) {
    y * stride + line
  }

  /** Copies the line that starts at `row`. */
  method ReadLine(mem: array<bv8>, ghost src: VolatileSlice, srcLine: VolatileSlice, ghost dst: VolatileSlice,
                  dstLine: VolatileSlice, ghost p: Plan, ghost row: nat)
    requires Reading(p, src, dst) && p.Done(mem[..], row) && RowStart(row, p.stride)
    requires row + p.line <= src.size && row + p.line <= dst.size
    requires srcLine == VolatileSlice(src.addr + row, p.line) && dstLine == VolatileSlice(dst.addr + row, p.line)
    modifies mem
    ensures p.Done(mem[..], row + p.stride) && RowStart(row + p.stride, p.stride)
  {
    ghost var before := mem[..];
    LineBytes(p, row, row, row + p.line);
    CopyToVolatileSlice(mem, srcLine, dstLine);
    FragmentCopied(p, before, mem[..], src, srcLine, dstLine, row, 0);
    EndOfLine(p, mem[..], row);
  }

  lemma LineFits(y: nat, height: nat, stride: nat, line: nat, size: nat)
    requires y <= LinesThatFit(height, stride, line, size) && y < height
    ensures y * stride + line <= size <==> y < LinesThatFit(height, stride, line, size)
    ensures (y + 1) * stride == y * stride + stride
  {
    var n := LinesThatFit(height, stride, line, size);
    MulStep(y, stride);
    if y < n {
      MulMonotone(y, n - 1, stride);
    }
  }

  /** `read_to_volatile`, partial rows. */
  method ReadLines(mem: array<bv8>, src: VolatileSlice, stride: nat, line: nat, height: nat, dst: VolatileSlice,
                   ghost p: Plan)
    returns (r: Result<(), Error>)
    requires p.m == mem[..] && Reading(p, src, dst) && p.stride == stride && p.line == line
    requires forall y :: 0 <= y < height ==> LineEnd(y, stride, line) <= src.size
    modifies mem
    ensures var n := LinesThatFit(height, stride, line, dst.size);
            && p.Done(mem[..], n * stride)
            && r == if n == height then Ok(()) else Err(Memcopy(OutOfBounds(n * stride + line)))
  {
    ghost var row: nat, n := 0, LinesThatFit(height, stride, line, dst.size);
    Start(p);
    for y := 0 to height
      invariant y <= n && row == y * stride && RowStart(row, stride)
      invariant p.Done(mem[..], row)
    {
      var lineOffset := y * stride;
      LineFits(y, height, stride, line, dst.size);
      assert LineEnd(y, stride, line) <= src.size;
      var srcLine := src.GetSlice(lineOffset, line);
      assert srcLine.Ok?;
      var dstLine := dst.GetSlice(lineOffset, line);
      if dstLine.Err? {
        return Err(Memcopy(dstLine.error));
      }
      ReadLine(mem, src, srcLine.value, dst, dstLine.value, p, row);
      row := row + stride;
    }
    return Ok(());
  }

  lemma RowsCopied(p: Plan, after: seq<bv8>, src: VolatileSlice, dst: VolatileSlice)
    requires Reading(p, src, dst) && p.line == p.stride && Copied(p.m, after, src, dst)
    ensures p.Done(after, Min(src.size, dst.size))
  {
    forall a | 0 <= a < |p.m| ensures after[a] == p.At(Min(src.size, dst.size), a) {
      if dst.addr <= a < dst.addr + Min(src.size, dst.size) {
        assert after[a] == p.m[src.addr + (a - dst.addr)] == p.src[a - dst.addr];
      }
    }
  }

  /** `read_to_volatile`, whole rows. */
  method ReadRows(mem: array<bv8>, src: VolatileSlice, dst: VolatileSlice, ghost p: Plan)
    requires p.m == mem[..] && Reading(p, src, dst) && p.line == p.stride
    modifies mem
    ensures p.Done(mem[..], Min(src.size, dst.size))
  {
    CopyToVolatileSlice(mem, src, dst);
    RowsCopied(p, mem[..], src, dst);
  }

  lemma LinesInSlice(height: nat, stride: nat, line: nat, size: nat)
    requires stride * height - stride + line <= size
    ensures forall y :: 0 <= y < height ==> LineEnd(y, stride, line) <= size
  {
    forall y | 0 <= y < height ensures LineEnd(y, stride, line) <= size {
      MulMonotone(y, height - 1, stride);
      MulStep(height - 1, stride);
    }
  }

  /** `read_to_volatile` once the rectangle is mapped: whole rows or lines. */
  method ReadMapped(mem: array<bv8>, buf: Buffer, rect: Rect, mapping: Mapping, dst: VolatileSlice, ghost p: Plan)
    returns (r: Result<(), Error>)
    requires buf.bytesPerPixel.Some? && p.m == mem[..] && Reading(p, mapping.slice, dst)
    requires p.stride == mapping.stride && p.line == LineSize(buf, rect, mapping.stride)
    requires mapping.stride * rect.height - mapping.stride + rect.width * buf.bytesPerPixel.value <= mapping.slice.size
    modifies mem
    ensures r == MappedResult(buf, rect, mapping, dst) && p.Done(mem[..], ReadUpto(buf, rect, mapping, dst))
  {
    if rect.x == 0 && rect.width == buf.width {
      ReadRows(mem, mapping.slice, dst, p);
      r := Ok(());
    } else {
      var line := rect.width * buf.bytesPerPixel.value;
      LinesInSlice(rect.height, mapping.stride, line, mapping.slice.size);
      r := ReadLines(mem, mapping.slice, mapping.stride, line, rect.height, dst, p);
    }
  }

  /** A destination takes all lines exactly when it holds the last. */
  lemma AllLinesFit(height: nat, stride: nat, line: nat, size: nat)
    requires height > 0
    ensures LinesThatFit(height, stride, line, size) == height <==> (height - 1) * stride + line <= size
  {
  }

  /** `read_to_volatile`. Exactly the bytes described by the read plan change. */
  method ReadToVolatile(mem: array<bv8>, buf: Buffer, rect: Rect, plane: nat, dst: VolatileSlice, gbm: GbmMap)
    returns (r: Result<(), Error>)
    requires mem.Length <= ISIZE_MAX && Trusted(buf, rect, gbm, mem.Length) && dst.In(mem.Length)
    requires Map(buf, rect, plane, gbm).Ok? ==> Map(buf, rect, plane, gbm).value.slice.Disjoint(dst)
    modifies mem
    ensures r == ReadResult(buf, rect, plane, gbm, dst)
    ensures rect.Empty() ==> r == Ok(())
    ensures !rect.Empty() ==>
              (r.Ok? <==>
                 && rect.x + rect.width <= buf.width && rect.y + rect.height <= buf.height && plane <= buf.numPlanes
                 && buf.bytesPerPixel.Some? && gbm.Mapped? && gbm.stride * rect.height < 0x1_0000_0000
                 && ((rect.x == 0 && rect.width == buf.width)
                     || (rect.height - 1) * gbm.stride + rect.width * buf.bytesPerPixel.value <= dst.size))
    ensures rect.Empty() || Map(buf, rect, plane, gbm).Err? ==> mem[..] == old(mem[..])
    ensures !rect.Empty() && Map(buf, rect, plane, gbm).Ok? ==>
              var mapping := Map(buf, rect, plane, gbm).value;
              mapping.slice.In(mem.Length) && mapping.stride > 0 &&
              mem[..] == ReadPlan(old(mem[..]), buf, rect, mapping, dst).Placed(ReadUpto(buf, rect, mapping, dst))
  {
    if rect.Empty() {
      return Ok(());
    }
    MapSucceeds(buf, rect, plane, gbm, mem.Length);
    var mapped := Map(buf, rect, plane, gbm);
    if mapped.Err? {
      return Err(mapped.error);
    }
    RectFits(buf, rect, plane, gbm, mem.Length);
    AllLinesFit(rect.height, gbm.stride, LineSize(buf, rect, gbm.stride), dst.size);
    r := ReadMapped(mem, buf, rect, mapped.value, dst, ReadPlan(mem[..], buf, rect, mapped.value, dst));
  }
}
