/**
 * Square-window cutout extraction (make_multiple_cutouts in local_cutouts.py).
 *
 * For every integral pixel centre, a fresh size-by-size buffer is filled with
 * the "no data" sentinel, the window's overlap with the raster is computed in
 * raster coordinates and in cutout-local coordinates, and, when that overlap
 * is non-empty, the raster rectangle is copied into the cutout rectangle after
 * clamping both to their common shape. The slices follow numpy's basic
 * slicing with non-negative bounds: a slice is cut short at the end of its
 * axis.
 */
module Cutouts {

  /** A cutout element: the NaN fill of the buffer, or a copied raster sample. */
  datatype Cell<T> = NoData | Val(v: T)

  datatype Option<T> = None | Some(value: T)

  /** A 2D raster of shape (height, width), indexed rows[row][col], row = y, col = x. */
  datatype Raster<T> = Raster(height: nat, width: nat, rows: seq<seq<T>>)
  {
    predicate Valid() {
      |rows| == height && forall r :: 0 <= r < |rows| ==> |rows[r]| == width
    }

    predicate Contains(row: int, col: int) {
      0 <= row < height && 0 <= col < width
    }
  }

  /** An integral pixel centre: x is the column, y the row. */
  datatype Pixel = Pixel(x: int, y: int)

  function Max(a: int, b: int): int { if a >= b then a else b }

  function Min(a: int, b: int): int { if a <= b then a else b }

  /** half_size = size // 2 */
  function HalfSize(size: nat): (half: nat)
    ensures 2 * half <= size <= 2 * half + 1
  {
    size / 2
  }

  /** A half-open index range [start, end) along one axis. */
  datatype Span = Span(start: int, end: int)
  {
    function Len(): int { end - start }

    predicate Has(p: int) { start <= p < end }

    predicate IsEmpty() { end <= start }
  }

  /**
   * The raster slice along one axis (x_start, x_end or y_start, y_end):
   * the window [center - half, center + half] intersected with [0, extent).
   */
  function RasterSpan(center: int, half: nat, extent: nat): (s: Span)
    ensures 0 <= s.start && s.end <= extent
    ensures forall p :: s.Has(p) <==> 0 <= p < extent && center - half <= p <= center + half
  {
    Span(Max(0, center - half), Min(extent, center + half + 1))
  }

  /**
   * The cutout slice along one axis (cutout_x_start, cutout_x_end or the y pair):
   * as long as the raster slice, and translated from it by exactly center - half.
   */
  function CutoutSpan(center: int, half: nat, extent: nat): (s: Span)
    ensures 0 <= s.start
    ensures s.Len() == RasterSpan(center, half, extent).Len()
    ensures RasterSpan(center, half, extent).start - s.start == center - half
  {
    var start := Max(0, half - center);
    Span(start, start + RasterSpan(center, half, extent).Len())
  }

  /**
   * The length of the numpy slice [start:stop] of an axis of length n, for
   * non-negative bounds: the slice keeps exactly the indices below both stop
   * and n.
   */
  function SliceLen(start: nat, stop: nat, n: nat): (k: nat)
    ensures start + k <= n || k == 0
    ensures forall i :: Span(start, start + k).Has(i) <==> Span(start, stop).Has(i) && i < n
  {
    if stop <= start || n <= start then 0 else Min(stop, n) - start
  }

  /**
   * The number of elements copied along one axis when the axis overlaps the
   * raster: the shorter of the cutout slice and the raster slice (min_y, min_x).
   */
  function AxisCopyLen(center: int, size: nat, extent: nat): (k: nat)
    requires !RasterSpan(center, HalfSize(size), extent).IsEmpty()
    ensures k <= RasterSpan(center, HalfSize(size), extent).Len()
    ensures CutoutSpan(center, HalfSize(size), extent).start + k <= size
  {
    var half := HalfSize(size);
    var rs := RasterSpan(center, half, extent);
    var cs := CutoutSpan(center, half, extent);
    Min(SliceLen(cs.start, cs.end, size), SliceLen(rs.start, rs.end, extent))
  }

  /** A rectangular copy: raster corner, cutout corner, and the shape copied. */
  datatype Copy = Copy(srcRow: int, srcCol: int, dstRow: int, dstCol: int, rows: nat, cols: nat)
  {
    predicate Covers(r: int, c: int) {
      dstRow <= r < dstRow + rows && dstCol <= c < dstCol + cols
    }
  }

  /**
   * The copy performed for one centre: None when the window misses the
   * raster on either axis, otherwise the clamped rectangles. Both rectangles
   * lie inside their buffers and are related by the translation
   * (center - half) on each axis.
   */
  function PlanCopy(height: nat, width: nat, p: Pixel, size: nat): (plan: Option<Copy>)
    ensures plan.None? <==>
      RasterSpan(p.x, HalfSize(size), width).IsEmpty() || RasterSpan(p.y, HalfSize(size), height).IsEmpty()
    ensures plan.Some? ==>
      var cp := plan.value;
      && 0 <= cp.srcRow && cp.srcRow + cp.rows <= height
      && 0 <= cp.srcCol && cp.srcCol + cp.cols <= width
      && 0 <= cp.dstRow && cp.dstRow + cp.rows <= size
      && 0 <= cp.dstCol && cp.dstCol + cp.cols <= size
      && cp.srcRow - cp.dstRow == p.y - HalfSize(size)
      && cp.srcCol - cp.dstCol == p.x - HalfSize(size)
  {
    var half := HalfSize(size);
    var xs := RasterSpan(p.x, half, width);
    var ys := RasterSpan(p.y, half, height);
    if xs.end > xs.start && ys.end > ys.start then
      var cxs := CutoutSpan(p.x, half, width);
      var cys := CutoutSpan(p.y, half, height);
      Some(Copy(ys.start, xs.start, cys.start, cxs.start,
                AxisCopyLen(p.y, size, height), AxisCopyLen(p.x, size, width)))
    else
      None
  }

  /** What a cutout element must hold: the translated raster sample, or NoData. */
  function WindowCell<T>(raster: Raster<T>, p: Pixel, size: nat, r: int, c: int): Cell<T>
    requires raster.Valid()
  {
    var row := p.y - HalfSize(size) + r;
    var col := p.x - HalfSize(size) + c;
    if raster.Contains(row, col) then Val(raster.rows[row][col]) else NoData
  }

  /**
   * Along an overlapping axis, the copied run covers exactly the cutout
   * positions whose translated raster index is inside the raster, for odd
   * and even sizes alike.
   */
  lemma AxisRunIsOverlap(center: int, size: nat, extent: nat, q: int)
    requires !RasterSpan(center, HalfSize(size), extent).IsEmpty()
    requires 0 <= q < size
    ensures var cs := CutoutSpan(center, HalfSize(size), extent);
      cs.start <= q < cs.start + AxisCopyLen(center, size, extent)
      <==> 0 <= center - HalfSize(size) + q < extent
  {
  }

  /** Along an axis that misses the raster, no cutout position maps into it. */
  lemma AxisMissHasNoOverlap(center: int, size: nat, extent: nat, q: int)
    requires RasterSpan(center, HalfSize(size), extent).IsEmpty()
    requires 0 <= q < size
    ensures !(0 <= center - HalfSize(size) + q < extent)
  {
  }

  /**
   * Translation invariant of the copy: a cutout element is written iff its
   * translated raster index is in bounds.
   */
  lemma CopyCoversWindow(height: nat, width: nat, p: Pixel, size: nat, r: int, c: int)
    requires 0 <= r < size && 0 <= c < size
    ensures var plan := PlanCopy(height, width, p, size);
      (plan.Some? && plan.value.Covers(r, c))
      <==> (0 <= p.y - HalfSize(size) + r < height && 0 <= p.x - HalfSize(size) + c < width)
  {
  }

  /**
   * For an odd size with a non-empty overlap, the cutout slice lies inside the
   * buffer and the min-shape clamp changes nothing: the copied run is the
   * whole raster slice.
   */
  lemma OddSizeClampIsNoOp(center: int, size: nat, extent: nat)
    requires size % 2 == 1
    requires !RasterSpan(center, HalfSize(size), extent).IsEmpty()
    ensures var cs := CutoutSpan(center, HalfSize(size), extent);
      0 <= cs.start && cs.end <= size
    ensures AxisCopyLen(center, size, extent) == RasterSpan(center, HalfSize(size), extent).Len()
  {
  }

  /**
   * With an even size the clamp is needed: for size 2 and a centre on the
   * first row, the cutout slice [1:3] of the 2-element axis holds one
   * element while the raster slice [0:2] holds two.
   */
  lemma EvenSizeClampBinds(extent: nat)
    requires extent >= 2
    ensures CutoutSpan(0, HalfSize(2), extent) == Span(1, 3)
    ensures RasterSpan(0, HalfSize(2), extent) == Span(0, 2)
    ensures SliceLen(1, 3, 2) == 1
    ensures AxisCopyLen(0, 2, extent) == 1
  {
  }

  /** A window that misses the raster on either axis is entirely NoData. */
  lemma DisjointWindowIsNoData<T>(raster: Raster<T>, p: Pixel, size: nat, r: int, c: int)
    requires raster.Valid()
    requires RasterSpan(p.x, HalfSize(size), raster.width).IsEmpty()
          || RasterSpan(p.y, HalfSize(size), raster.height).IsEmpty()
    requires 0 <= r < size && 0 <= c < size
    ensures WindowCell(raster, p, size, r, c) == NoData
  {
  }

  /**
   * A window lying wholly inside the raster, of any size, holds no NoData,
   * and its centre element is the raster sample at the centre pixel.
   */
  lemma InteriorWindowIsFull<T>(raster: Raster<T>, p: Pixel, size: nat)
    requires raster.Valid()
    requires HalfSize(size) <= p.x < raster.width - HalfSize(size)
    requires HalfSize(size) <= p.y < raster.height - HalfSize(size)
    ensures forall r, c :: 0 <= r < size && 0 <= c < size ==> WindowCell(raster, p, size, r, c).Val?
    ensures WindowCell(raster, p, size, HalfSize(size), HalfSize(size)) == Val(raster.rows[p.y][p.x])
  {
  }

  /**
   * A centre on the raster's corner pixel (0, 0), with a window of any size
   * that fits the raster otherwise: the NoData elements are exactly the
   * first half rows and the first half columns, the rest is the raster's
   * corner.
   */
  lemma CornerWindow<T>(raster: Raster<T>, size: nat, r: int, c: int)
    requires raster.Valid()
    requires HalfSize(size) < raster.height && HalfSize(size) < raster.width
    requires 0 <= r < size && 0 <= c < size
    ensures WindowCell(raster, Pixel(0, 0), size, r, c) == NoData <==> r < HalfSize(size) || c < HalfSize(size)
    ensures WindowCell(raster, Pixel(0, 0), size, r, c) != NoData ==>
      WindowCell(raster, Pixel(0, 0), size, r, c) == Val(raster.rows[r - HalfSize(size)][c - HalfSize(size)])
  {
  }

  /** A 5 x 5 raster holding 0 .. 24 row by row. */
  function Ramp(): (raster: Raster<int>)
    ensures raster.Valid() && raster.height == 5 && raster.width == 5
  {
    Raster(5, 5, seq(5, r => seq(5, c => 5 * r + c)))
  }

  /**
   * A 3 x 3 window centred on (2, 2) of the ramp is its middle block
   * [[6, 7, 8], [11, 12, 13], [16, 17, 18]], with no NoData.
   */
  lemma RampMiddleBlock(r: int, c: int)
    requires 0 <= r < 3 && 0 <= c < 3
    ensures WindowCell(Ramp(), Pixel(2, 2), 3, r, c) == Val(5 * (r + 1) + (c + 1))
  {
  }

  /**
   * A 3 x 3 window centred on (0, 0) of the ramp has NoData in its first row
   * and first column, and [[0, 1], [5, 6]] in its last two rows and columns.
   */
  lemma RampCornerBlock(r: int, c: int)
    requires 0 <= r < 3 && 0 <= c < 3
    ensures WindowCell(Ramp(), Pixel(0, 0), 3, r, c)
      == if r == 0 || c == 0 then NoData else Val(5 * (r - 1) + (c - 1))
  {
  }

  /**
   * One cutout: a fresh size-by-size buffer filled with NoData, then the
   * overlap rectangle copied in by nested loops. The raster is only read.
   */
  method MakeCutout<T>(raster: Raster<T>, p: Pixel, size: nat) returns (cutout: array2<Cell<T>>)
    requires raster.Valid()
    ensures fresh(cutout)
    ensures cutout.Length0 == size && cutout.Length1 == size
    ensures forall r, c :: 0 <= r < size && 0 <= c < size ==> cutout[r, c] == WindowCell(raster, p, size, r, c)
  {
    cutout := new Cell<T>[size, size]((_, _) => NoData);
    var plan := PlanCopy(raster.height, raster.width, p, size);
    if plan.Some? {
      var cp := plan.value;
      var i := 0;
      while i < cp.rows
        invariant 0 <= i <= cp.rows
        invariant forall r, c :: 0 <= r < size && 0 <= c < size ==>
          cutout[r, c] == if cp.dstRow <= r < cp.dstRow + i && cp.dstCol <= c < cp.dstCol + cp.cols
                          then Val(raster.rows[r - cp.dstRow + cp.srcRow][c - cp.dstCol + cp.srcCol])
                          else NoData
      {
        var j := 0;
        while j < cp.cols
          invariant 0 <= j <= cp.cols
          invariant forall r, c :: 0 <= r < size && 0 <= c < size ==>
            cutout[r, c] == if (cp.dstRow <= r < cp.dstRow + i && cp.dstCol <= c < cp.dstCol + cp.cols)
                               || (r == cp.dstRow + i && cp.dstCol <= c < cp.dstCol + j)
                            then Val(raster.rows[r - cp.dstRow + cp.srcRow][c - cp.dstCol + cp.srcCol])
                            else NoData
        {
          cutout[cp.dstRow + i, cp.dstCol + j] := Val(raster.rows[cp.srcRow + i][cp.srcCol + j]);
          j := j + 1;
        }
        i := i + 1;
      }
    }
    forall r, c | 0 <= r < size && 0 <= c < size
      ensures cutout[r, c] == WindowCell(raster, p, size, r, c)
    {
      CopyCoversWindow(raster.height, raster.width, p, size, r, c);
    }
  }

  /**
   * make_multiple_cutouts after the sky-to-pixel projection: one fresh,
   * independent cutout per centre, in input order.
   */
  method MakeMultipleCutouts<T>(raster: Raster<T>, centers: seq<Pixel>, size: nat)
    returns (cutouts: seq<array2<Cell<T>>>)
    requires raster.Valid()
    ensures |cutouts| == |centers|
    ensures forall i :: 0 <= i < |cutouts| ==> fresh(cutouts[i])
    ensures forall i, j :: 0 <= i < j < |cutouts| ==> cutouts[i] != cutouts[j]
    ensures forall i :: 0 <= i < |cutouts| ==> cutouts[i].Length0 == size && cutouts[i].Length1 == size
    ensures forall i, r, c :: 0 <= i < |cutouts| && 0 <= r < size && 0 <= c < size ==>
      cutouts[i][r, c] == WindowCell(raster, centers[i], size, r, c)
  {
    cutouts := [];
    var n := 0;
    while n < |centers|
      invariant 0 <= n <= |centers|
      invariant |cutouts| == n
      invariant forall i :: 0 <= i < n ==> fresh(cutouts[i])
      invariant forall i, j :: 0 <= i < j < n ==> cutouts[i] != cutouts[j]
      invariant forall i :: 0 <= i < n ==> cutouts[i].Length0 == size && cutouts[i].Length1 == size
      invariant forall i, r, c :: 0 <= i < n && 0 <= r < size && 0 <= c < size ==>
        cutouts[i][r, c] == WindowCell(raster, centers[i], size, r, c)
    {
      var cutout := MakeCutout(raster, centers[n], size);
      cutouts := cutouts + [cutout];
      n := n + 1;
    }
  }
}
