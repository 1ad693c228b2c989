/**
 Pixel transfers at the level of pixels: which pixels a write changes, what a read of any
 rectangle then returns. The rows of one plane lie `stride` apart from address `plane` on.
 */
module GpuPixels {
  import opened Arithmetic
  import opened Common
  import opened VolatileMemory
  import opened GpuBuffer

  datatype View = View(plane: nat, stride: u32)

  /** The address of byte `k` of pixel (px, py). */
  function PixelAddr(v: View, bpp: PixelSize, px: nat, py: nat, k: nat): (a: nat) {
    v.plane + py * v.stride + px * bpp + k
  }

  /** Where byte `k` of pixel (px, py) lies in a transfer of `rect`, counted from its first pixel. */
  function Distance(v: View, bpp: PixelSize, rect: Rect, px: int, py: int, k: nat): (d: int) {
    (py - rect.y) * v.stride + (px - rect.x) * bpp + k
  }

  /** The rectangle and the view fit the buffer, and `gbm` maps the view at the rectangle. */
  ghost predicate Maps(v: View, buf: Buffer, rect: Rect, gbm: GbmMap) {
    && buf.bytesPerPixel.Some? && buf.width * buf.bytesPerPixel.value <= v.stride && !rect.Empty()
    && rect.x + rect.width <= buf.width && rect.y + rect.height <= buf.height
    && gbm.Mapped? && gbm.stride == v.stride
    && gbm.addr == PixelAddr(v, buf.bytesPerPixel.value, rect.x, rect.y, 0)
  }

  lemma AddrIsDistance(v: View, bpp: PixelSize, rect: Rect, px: nat, py: nat, k: nat)
    ensures PixelAddr(v, bpp, px, py, k) == PixelAddr(v, bpp, rect.x, rect.y, 0) + Distance(v, bpp, rect, px, py, k)
  {
    assert (py - rect.y) * v.stride == py * v.stride - rect.y * v.stride;
    assert (px - rect.x) * bpp == px * bpp - rect.x * bpp;
  }

  /** Row and column of a distance: `c` bytes into the row `row`, or short of it by `-c`. */
  lemma Locate(row: int, stride: nat, c: int)
    requires stride > 0 && 0 <= c + stride < 2 * stride
    ensures (row * stride + c) % stride == if c >= 0 then c else c + stride
  {
    if c >= 0 {
      ModUnique(row * stride + c, stride, row, c);
    } else {
      MulStep(row - 1, stride);
      ModUnique(row * stride + c, stride, row - 1, c + stride);
    }
  }

  /** Which side of the transferred rows a distance lies on. */
  lemma RowRange(row: int, height: nat, stride: nat, c: int)
    requires stride > 0
    ensures row <= -1 && c < stride ==> row * stride + c < 0
    ensures row >= height && c >= 0 ==> row * stride + c >= stride * height
    ensures 0 <= row < height && 0 <= c < stride ==> 0 <= row * stride + c < stride * height
  {
    if row <= -1 {
      MulMonotone(row, -1, stride);
    } else if row >= height {
      MulMonotone(height, row, stride);
    } else {
      MulMonotone(0, row, stride);
      MulMonotone(row, height - 1, stride);
      MulStep(height - 1, stride);
    }
  }

  /** A column left of the line or in it, of any row: when its distance is a line byte of the rows. */
  lemma InRows(row: int, height: nat, stride: nat, line: nat, c: int)
    requires 0 < line <= stride && c < stride && (c < 0 ==> c + stride >= line)
    ensures 0 <= row * stride + c < stride * height && InLine(row * stride + c, stride, line) <==>
            0 <= row < height && 0 <= c < line
  {
    RowRange(row, height, stride, c);
    Locate(row, stride, c);
  }

  /** A pixel's column offset in bytes, against the rectangle's own. */
  lemma Column(buf: Buffer, rect: Rect, stride: nat, px: nat, k: nat)
    requires buf.bytesPerPixel.Some? && buf.width * buf.bytesPerPixel.value <= stride && !rect.Empty()
    requires rect.x + rect.width <= buf.width && px < buf.width && k < buf.bytesPerPixel.value
    ensures var bpp, c := buf.bytesPerPixel.value, (px - rect.x) * buf.bytesPerPixel.value + k;
            && stride > 0 && c < stride && 0 < rect.width * bpp <= stride
            && (rect.x <= px < rect.x + rect.width <==> 0 <= c < rect.width * bpp)
            && (px < rect.x ==> c < 0 && c + stride >= rect.width * bpp)
  {
    var bpp: PixelSize, d := buf.bytesPerPixel.value, px - rect.x;
    MulMonotone(1, rect.width, bpp);
    MulMonotone(rect.width, buf.width - rect.x, bpp);
    MulMonotone(d + 1, buf.width - rect.x, bpp);
    MulMonotone(buf.width - rect.x, buf.width, bpp);
    MulStep(d, bpp);
    if d < 0 {
      MulMonotone(d + 1, 0, bpp);
      MulMonotone(rect.width, buf.width + d, bpp);
      assert (buf.width + d) * bpp == buf.width * bpp + d * bpp;
    } else if d < rect.width {
      MulMonotone(0, d, bpp);
      MulMonotone(d + 1, rect.width, bpp);
    } else {
      MulMonotone(rect.width, d, bpp);
    }
  }

  /** The same against the line that is transferred, which on whole rows is the row. */
  lemma LineColumn(buf: Buffer, rect: Rect, stride: u32, px: nat, k: nat)
    requires buf.bytesPerPixel.Some? && buf.width * buf.bytesPerPixel.value <= stride && !rect.Empty()
    requires rect.x + rect.width <= buf.width && px < buf.width && k < buf.bytesPerPixel.value
    ensures var c, line := (px - rect.x) * buf.bytesPerPixel.value + k, LineSize(buf, rect, stride);
            && 0 < line <= stride && c < stride && (c < 0 ==> c + stride >= line)
            && (rect.x <= px < rect.x + rect.width <==> 0 <= c < line)
  {
    Column(buf, rect, stride, px, k);
    if FullWidth(buf, rect) {
      assert rect.x <= px < rect.x + rect.width;
    }
  }

  /** Which distances of pixels are placed by a transfer of `rect`: those of its own pixels. */
  lemma Placement(v: View, buf: Buffer, rect: Rect, gbm: GbmMap, px: nat, py: nat, k: nat)
    requires Maps(v, buf, rect, gbm) && px < buf.width && py < buf.height && k < buf.bytesPerPixel.value
    ensures v.stride > 0
    ensures var d := Distance(v, buf.bytesPerPixel.value, rect, px, py, k);
            rect.Contains(px, py) <==>
            0 <= d < v.stride * rect.height && InLine(d, v.stride, LineSize(buf, rect, v.stride))
  {
    var row, c, line := py - rect.y, (px - rect.x) * buf.bytesPerPixel.value + k, LineSize(buf, rect, v.stride);
    assert Distance(v, buf.bytesPerPixel.value, rect, px, py, k) == row * v.stride + c;
    LineColumn(buf, rect, v.stride, px, k);
    InRows(row, rect.height, v.stride, line, c);
  }

  /** A write changes exactly the pixels of its rectangle, to the source bytes that line up with them. */
  lemma WritePixels(v: View, buf: Buffer, rect: Rect, gbm: GbmMap, m: seq<bv8>, off: nat, sgs: seq<VolatileSlice>,
                    px: nat, py: nat, k: nat)
    requires Maps(v, buf, rect, gbm) && AllIn(sgs, |m|)
    requires px < buf.width && py < buf.height && k < buf.bytesPerPixel.value
    requires PixelAddr(v, buf.bytesPerPixel.value, px, py, k) < |m|
    ensures v.stride > 0
    ensures var a := PixelAddr(v, buf.bytesPerPixel.value, px, py, k);
            var i := off + Distance(v, buf.bytesPerPixel.value, rect, px, py, k);
            WrittenPlan(m, buf, rect, gbm, off, sgs).Placed(gbm.stride * rect.height)[a] ==
            if rect.Contains(px, py) && 0 <= i < |Flatten(m, sgs)| then Flatten(m, sgs)[i] else m[a]
  {
    Placement(v, buf, rect, gbm, px, py, k);
    AddrIsDistance(v, buf.bytesPerPixel.value, rect, px, py, k);
  }

  /** Memory after a successful write of `rect`. */
  function Written(m: seq<bv8>, buf: Buffer, rect: Rect, gbm: GbmMap, off: nat, sgs: seq<VolatileSlice>): (m': seq<bv8>)
    requires gbm.Mapped? && gbm.stride > 0 && buf.bytesPerPixel.Some? && AllIn(sgs, |m|)
    ensures |m'| == |m|
  {
    WrittenPlan(m, buf, rect, gbm, off, sgs).Placed(gbm.stride * rect.height)
  }

  /** One byte of the rows of a plan, `d` bytes in: in row `row` and column `c`. */
  lemma RowByte(p: Plan, height: nat, row: nat, c: nat, d: nat)
    requires row < height && c < p.stride && d == row * p.stride + c && p.base + d < |p.m|
    ensures p.At(p.stride * height, p.base + d) ==
            if c < p.line && p.off + d < |p.src| then p.src[p.off + d] else p.m[p.base + d]
  {
    Locate(row, p.stride, c);
    RowRange(row, height, p.stride, c);
  }

  /**
   Byte `d` of the mapped rows, in row `row` and column `c`: a rectangle as wide as the buffer takes whole rows,
   padding included, any other only the bytes of its own pixels in each row.
   */
  lemma WriteRowBytes(buf: Buffer, rect: Rect, gbm: GbmMap, m: seq<bv8>, off: nat, sgs: seq<VolatileSlice>, row: nat,
                      c: nat, d: nat)
    requires gbm.Mapped? && buf.bytesPerPixel.Some? && AllIn(sgs, |m|) && row < rect.height && c < gbm.stride
    requires d == row * gbm.stride + c && gbm.addr + d < |m|
    ensures var taken := (rect.x == 0 && rect.width == buf.width) || c < rect.width * buf.bytesPerPixel.value;
            Written(m, buf, rect, gbm, off, sgs)[gbm.addr + d] ==
            if taken && off + d < |Flatten(m, sgs)| then Flatten(m, sgs)[off + d] else m[gbm.addr + d]
  {
    RowByte(WrittenPlan(m, buf, rect, gbm, off, sgs), rect.height, row, c, d);
  }

  /** Nothing before or behind the mapped rows is written. */
  lemma WriteOutsideRows(buf: Buffer, rect: Rect, gbm: GbmMap, m: seq<bv8>, off: nat, sgs: seq<VolatileSlice>, a: nat)
    requires gbm.Mapped? && gbm.stride > 0 && buf.bytesPerPixel.Some? && AllIn(sgs, |m|) && a < |m|
    requires a < gbm.addr || gbm.addr + gbm.stride * rect.height <= a
    ensures Written(m, buf, rect, gbm, off, sgs)[a] == m[a]
  {
  }

  /** Line `y` is among those the destination takes exactly when it ends inside it. */
  lemma LineIsTaken(y: nat, height: nat, stride: nat, line: nat, size: nat)
    requires y < height
    ensures y < LinesThatFit(height, stride, line, size) <==> y * stride + line <= size
  {
    var n := LinesThatFit(height, stride, line, size);
    if y < n {
      MulMonotone(y, n - 1, stride);
    } else {
      MulMonotone(n, y, stride);
    }
  }

  /** The line of row `y` of the rectangle ends inside the destination. */
  predicate LineFits(buf: Buffer, rect: Rect, stride: nat, y: int, dst: VolatileSlice)
    requires buf.bytesPerPixel.Some?
  {
    (y - rect.y) * stride + rect.width * buf.bytesPerPixel.value <= dst.size
  }

  /** A pixel byte of the rectangle lies before the end of its line, and this before the end of the mapped slice. */
  lemma InsideSlice(v: View, buf: Buffer, rect: Rect, gbm: GbmMap, px: nat, py: nat, k: nat)
    requires Maps(v, buf, rect, gbm) && rect.Contains(px, py) && k < buf.bytesPerPixel.value
    ensures Distance(v, buf.bytesPerPixel.value, rect, px, py, k)
         < (py - rect.y) * v.stride + rect.width * buf.bytesPerPixel.value
         <= v.stride * rect.height - v.stride + rect.width * buf.bytesPerPixel.value
  {
    var row, c := py - rect.y, (px - rect.x) * buf.bytesPerPixel.value + k;
    assert Distance(v, buf.bytesPerPixel.value, rect, px, py, k) == row * v.stride + c;
    assert c < rect.width * buf.bytesPerPixel.value by { Column(buf, rect, v.stride, px, k); }
    assert row * v.stride <= (rect.height - 1) * v.stride by { MulMonotone(row, rect.height - 1, v.stride); }
    assert (rect.height - 1) * v.stride == v.stride * rect.height - v.stride by { MulStep(rect.height - 1, v.stride); }
  }

  /** A byte of a row that is taken lies before the distance up to which the destination is overwritten. */
  lemma RowBeforeUpto(row: nat, height: nat, stride: nat, line: nat, size: nat, c: nat)
    requires row < height && c < line <= stride && row * stride + line <= size
    ensures row * stride + c < LinesThatFit(height, stride, line, size) * stride
  {
    LineIsTaken(row, height, stride, line, size);
    MulMonotone(row + 1, LinesThatFit(height, stride, line, size), stride);
    MulStep(row, stride);
  }

  /** A pixel byte of the rectangle is among those a read transfers when its line fits. */
  lemma ReadCovers(v: View, buf: Buffer, rect: Rect, plane: nat, gbm: GbmMap, length: nat, dst: VolatileSlice,
                   px: nat, py: nat, k: nat)
    requires Maps(v, buf, rect, gbm) && Trusted(buf, rect, gbm, length) && Map(buf, rect, plane, gbm).Ok?
    requires rect.Contains(px, py) && LineFits(buf, rect, v.stride, py, dst) && k < buf.bytesPerPixel.value
    ensures var mapping, d := Map(buf, rect, plane, gbm).value, Distance(v, buf.bytesPerPixel.value, rect, px, py, k);
            && mapping.slice.In(length)
            && 0 <= d < dst.size && d < mapping.slice.size && d < ReadUpto(buf, rect, mapping, dst)
  {
    var row, c := py - rect.y, (px - rect.x) * buf.bytesPerPixel.value + k;
    RectFits(buf, rect, plane, gbm, length);
    Placement(v, buf, rect, gbm, px, py, k);
    InsideSlice(v, buf, rect, gbm, px, py, k);
    if !FullWidth(buf, rect) {
      LineColumn(buf, rect, v.stride, px, k);
      RowBeforeUpto(row, rect.height, v.stride, rect.width * buf.bytesPerPixel.value, dst.size, c);
    }
  }

  /** A read returns every pixel of its rectangle whose line fits the destination, whether or not all lines do. */
  lemma ReadPixels(v: View, buf: Buffer, rect: Rect, plane: nat, gbm: GbmMap, m: seq<bv8>, dst: VolatileSlice,
                   px: nat, py: nat, k: nat)
    requires Maps(v, buf, rect, gbm) && Trusted(buf, rect, gbm, |m|) && Map(buf, rect, plane, gbm).Ok?
    requires dst.In(|m|) && rect.Contains(px, py) && LineFits(buf, rect, v.stride, py, dst)
    requires k < buf.bytesPerPixel.value
    ensures Map(buf, rect, plane, gbm).value.slice.In(|m|)
    ensures var mapping := Map(buf, rect, plane, gbm).value;
            var a := PixelAddr(v, buf.bytesPerPixel.value, px, py, k);
            var d := Distance(v, buf.bytesPerPixel.value, rect, px, py, k);
            && v.stride > 0 && a < |m| && 0 <= d < dst.size
            && ReadPlan(m, buf, rect, mapping, dst).Placed(ReadUpto(buf, rect, mapping, dst))[dst.addr + d] == m[a]
  {
    var mapping, d := Map(buf, rect, plane, gbm).value, Distance(v, buf.bytesPerPixel.value, rect, px, py, k);
    ReadCovers(v, buf, rect, plane, gbm, |m|, dst, px, py, k);
    Placement(v, buf, rect, gbm, px, py, k);
    AddrIsDistance(v, buf.bytesPerPixel.value, rect, px, py, k);
    var p := ReadPlan(m, buf, rect, mapping, dst);
    assert p.At(ReadUpto(buf, rect, mapping, dst), dst.addr + d) == p.src[d];
  }

  /** Memory after a read of `rect`. */
  function Read(m: seq<bv8>, buf: Buffer, rect: Rect, mapping: Mapping, dst: VolatileSlice): (m': seq<bv8>)
    requires buf.bytesPerPixel.Some? && mapping.slice.In(|m|) && mapping.stride > 0
    ensures |m'| == |m|
  {
    ReadPlan(m, buf, rect, mapping, dst).Placed(ReadUpto(buf, rect, mapping, dst))
  }

  /** The bytes of the destination when the rectangle is narrower than the buffer: the lines that fit, no others. */
  lemma ReadRowBytes(buf: Buffer, rect: Rect, mapping: Mapping, m: seq<bv8>, dst: VolatileSlice, row: nat, c: nat,
                     d: nat)
    requires buf.bytesPerPixel.Some? && mapping.slice.In(|m|) && c < mapping.stride && row < rect.height
    requires d == row * mapping.stride + c && d < mapping.slice.size && dst.addr + d < |m|
    requires rect.x != 0 || rect.width != buf.width
    ensures var line := rect.width * buf.bytesPerPixel.value;
            Read(m, buf, rect, mapping, dst)[dst.addr + d] ==
            if c < line && row * mapping.stride + line <= dst.size then m[mapping.slice.addr + d] else m[dst.addr + d]
  {
    var line := rect.width * buf.bytesPerPixel.value;
    var n := LinesThatFit(rect.height, mapping.stride, line, dst.size);
    LineIsTaken(row, rect.height, mapping.stride, line, dst.size);
    if row < n {
      RowByte(ReadPlan(m, buf, rect, mapping, dst), n, row, c, d);
    } else {
      RowRange(row, n, mapping.stride, c);
    }
  }

  /** The bytes of the destination when the rectangle is as wide as the buffer: as many as both sides hold. */
  lemma ReadWholeRows(buf: Buffer, rect: Rect, mapping: Mapping, m: seq<bv8>, dst: VolatileSlice, d: nat)
    requires buf.bytesPerPixel.Some? && mapping.slice.In(|m|) && mapping.stride > 0 && dst.addr + d < |m|
    requires rect.x == 0 && rect.width == buf.width
    ensures Read(m, buf, rect, mapping, dst)[dst.addr + d] ==
            if d < mapping.slice.size && d < dst.size then m[mapping.slice.addr + d] else m[dst.addr + d]
  {
  }

  /**
   Writing rectangle `w` and then reading rectangle `r`, each on whichever path it takes: every
   byte read is the written byte where the rectangles meet and the source reaches, and the old
   byte of the buffer everywhere else.
   */
  lemma WriteThenRead(v: View, buf: Buffer, plane: nat, m: seq<bv8>, w: Rect, wGbm: GbmMap, off: nat,
                      sgs: seq<VolatileSlice>, r: Rect, rGbm: GbmMap, dst: VolatileSlice, px: nat, py: nat, k: nat)
    requires Maps(v, buf, w, wGbm) && AllIn(sgs, |m|)
    requires Maps(v, buf, r, rGbm) && Trusted(buf, r, rGbm, |m|) && Map(buf, r, plane, rGbm).Ok?
    requires dst.In(|m|) && r.Contains(px, py) && LineFits(buf, r, v.stride, py, dst)
    requires k < buf.bytesPerPixel.value
    ensures v.stride > 0 && Map(buf, r, plane, rGbm).value.slice.In(|m|)
    ensures var bpp: PixelSize := buf.bytesPerPixel.value;
            var a, d := PixelAddr(v, bpp, px, py, k), Distance(v, bpp, r, px, py, k);
            var i, src := off + Distance(v, bpp, w, px, py, k), Flatten(m, sgs);
            && a < |m| && 0 <= d < dst.size
            && Read(Written(m, buf, w, wGbm, off, sgs), buf, r, Map(buf, r, plane, rGbm).value, dst)[dst.addr + d] ==
               if w.Contains(px, py) && 0 <= i < |src| then src[i] else m[a]
  {
    Column(buf, w, v.stride, w.x, 0);
    ReadPixels(v, buf, r, plane, rGbm, Written(m, buf, w, wGbm, off, sgs), dst, px, py, k);
    WritePixels(v, buf, w, wGbm, m, off, sgs, px, py, k);
  }
}
