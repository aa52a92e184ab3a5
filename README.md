# VLASS cutouts and time-chunk clipping in Dafny

This project models two pieces of the VLASS_Tools repository and proves
properties of them.

- **Cutout extraction** (`make_multiple_cutouts`, module `Cutouts` in
  `local_cutouts.dfy`). For every integral pixel centre a fresh `size x size`
  buffer is filled with the "no data" sentinel (NaN in the source, `NoData`
  here). The window's overlap with the raster is computed twice: once in
  raster indices and once in cutout-local indices. When the overlap is
  non-empty on both axes, the raster rectangle is copied into the cutout
  rectangle after both are clamped to their common shape. One cutout is
  produced per centre, in input order. The raster is a value (`Raster`:
  height, width and rows, indexed `[row = y][col = x]`). Each cutout is a
  freshly allocated `array2<Cell<T>>`, filled by nested loops. The raster
  element type is generic, because no arithmetic is done on samples.
  Slicing follows numpy's rule for non-negative bounds: a slice stops at the
  end of its axis. This is what makes the min-shape clamp matter for even
  sizes.
- **Time-chunk row selection** (the kernel of `msclip`, module `ClipMs` in
  `clip_ms.dfy`). The measurement set's chunk ids are made unique and sorted
  (`np.unique`). Each chunk gets its earliest and latest `TIME`. A clip
  table's rows are kept when their `TIME` lies in some chunk's closed
  interval. A table with zero rows is meant to be left unclipped (but see
  Findings). Table columns are
  sequences (`seq<int>` ids, `seq<real>` times).

The central results are:

- `Cutouts.MakeMultipleCutouts`: the output has one cutout per centre, in
  input order. Each cutout is `size x size`, fresh and distinct from the
  others. Element `(r, c)` equals `raster[y - half + r][x - half + c]` when
  that index is in bounds, and `NoData` otherwise.
- `Cutouts.CopyCoversWindow`: the copy rectangle covers exactly the in-bounds
  elements, for every size.
- `ClipMs.Keepers`: a row is kept iff its time lies in some chunk interval.
  The result is also strictly increasing and in range.
- `ClipMs.ClipIdempotent`: clipping the kept rows again keeps all of them.

What the code checks, and what the model then covers:

- The docstring of `make_multiple_cutouts` asks for an odd `size`, but
  nothing checks it. The model accepts every `size: nat`, with `size // 2`
  and numpy's truncation of the cutout slice. For even sizes the window
  spans `[x - half, x + half)`, and the translation property still holds.
  Size 0 gives empty cutouts.
- Nothing rejects a raster with a zero dimension. The model allows `height`
  or `width` to be 0, and every cutout is then all `NoData`.
- `int(round(...))` raises on a NaN or infinite coordinate. The model takes
  integral centres (see Left out).
- In `msclip`, the zero-row test at visibilities/clip_ms.py:47 reads
  `cliptab.nrows`, which is never called. `ClipTable` and `ClipTables`
  model the row count it evidently means. `ClipTablesAsWritten` models the
  loop as written (see Findings).

## Model

| member | source | states |
|---|---|---|
| Cutouts.HalfSize | local_cutouts.py:37 | `half_size = size // 2`: `2*half <= size <= 2*half + 1`. |
| Cutouts.RasterSpan | local_cutouts.py:50-53 | The raster slice lies within `[0, extent)`. An index is in it iff it is in the raster and in the window `[center - half, center + half]`. |
| Cutouts.CutoutSpan | local_cutouts.py:56-59 | The cutout slice starts at >= 0 and is as long as the raster slice. The raster slice start minus the cutout slice start is `center - half` in both branches of `max(0, .)`. |
| Cutouts.SliceLen | local_cutouts.py:64-65 | A numpy slice `[start:stop]` of an axis of length n keeps exactly the indices below both `stop` and `n`. |
| Cutouts.AxisCopyLen | local_cutouts.py:68-69 | The min-shape clamp along one axis is at most the raster slice length, and ends inside the `size`-long buffer. |
| Cutouts.PlanCopy | local_cutouts.py:49-72 | No copy happens iff the window misses the raster on either axis. Otherwise the source rectangle is inside the raster and the destination rectangle is inside the buffer. They are related by the translation `(y - half, x - half)`. |
| Cutouts.AxisRunIsOverlap | local_cutouts.py:56-69 | Along an overlapping axis, the copied run is exactly the positions whose translated raster index is in bounds, for odd and even sizes. |
| Cutouts.AxisMissHasNoOverlap | local_cutouts.py:50-53 | Along an axis with an empty raster slice, no cutout position maps into the raster. |
| Cutouts.CopyCoversWindow | local_cutouts.py:50-72 | Translation invariant: a cutout element is copied iff `(y - half + r, x - half + c)` is in the raster; every other element stays the sentinel. |
| Cutouts.OddSizeClampIsNoOp | local_cutouts.py:56-59 | For odd size and a non-empty overlap, the cutout slice is inside `[0, size]` and the min-shape clamp equals the raster slice length. |
| Cutouts.EvenSizeClampBinds | local_cutouts.py:68-69 | For size 2 at centre 0 the cutout slice `[1:3]` is cut to one element while the raster slice has two, so the clamp is what keeps the copy well shaped. |
| Cutouts.DisjointWindowIsNoData | local_cutouts.py:47-62 | A window that misses the raster on either axis gives an all-`NoData` cutout. |
| Cutouts.InteriorWindowIsFull | local_cutouts.py:50-72 | A window wholly inside the raster, of any size, has no `NoData`, and its centre element is `raster[y][x]`. |
| Cutouts.CornerWindow | local_cutouts.py:50-72 | At centre `(0, 0)` with a window of any size that otherwise fits, the `NoData` elements are exactly the first `half` rows and columns. The rest is the raster's corner. |
| Cutouts.RampMiddleBlock | local_cutouts.py:42-75 | On the 5x5 raster `0..24`, size 3 at `(2, 2)` gives `[[6,7,8],[11,12,13],[16,17,18]]`. |
| Cutouts.RampCornerBlock | local_cutouts.py:42-75 | On the same raster, size 3 at `(0, 0)` has `NoData` in the first row and column, and `[[0,1],[5,6]]` bottom right. |
| Cutouts.MakeCutout | local_cutouts.py:44-72 | A fresh `size x size` buffer filled with `NoData`, with the overlap copied in by nested loops. Every element is the translated raster sample or `NoData`. |
| Cutouts.MakeMultipleCutouts | local_cutouts.py:36-78 | One cutout per centre in input order. Each cutout is fresh, distinct from the others and `size x size`. Element `(r, c)` of cutout `i` is the translated sample for `centers[i]`, or `NoData`. |
| ClipMs.Insert | visibilities/clip_ms.py:32 | Inserting into a strictly increasing sequence keeps it strictly increasing and adds exactly the new value. |
| ClipMs.Unique | visibilities/clip_ms.py:32 | `np.unique`: strictly increasing, and it holds exactly the values occurring in `chunk_ids`. |
| ClipMs.Where | visibilities/clip_ms.py:34 | `np.where` on a mask: strictly increasing positions, each in range. A position is listed iff the mask is true there. |
| ClipMs.ChunkRows | visibilities/clip_ms.py:34 | The rows of a chunk are exactly the rows with that id. They are non-empty iff the id occurs. |
| ClipMs.ChunkTimes | visibilities/clip_ms.py:38 | A time is in a chunk's times iff some row of that chunk has it. They are non-empty iff the id occurs. |
| ClipMs.SeqMin | visibilities/clip_ms.py:39 | `np.min`: an element of the sequence, no larger than any element. |
| ClipMs.SeqMax | visibilities/clip_ms.py:40 | `np.max`: an element of the sequence, no smaller than any element. |
| ClipMs.MinTimes | visibilities/clip_ms.py:39 | One minimum per unique chunk, in `np.unique` order (its meaning is stated by `ChunkInterval`). |
| ClipMs.MaxTimes | visibilities/clip_ms.py:40 | One maximum per unique chunk, in `np.unique` order (its meaning is stated by `ChunkInterval`). |
| ClipMs.ChunkInterval | visibilities/clip_ms.py:31-40 | For every chunk, `min_times[k] <= max_times[k]`. Both are `TIME` values of rows of chunk `unique_chunks[k]`, and together they enclose the `TIME` of every row of that chunk. |
| ClipMs.IdMask | visibilities/clip_ms.py:34 | The mask `chunk_ids == val`: as long as `chunk_ids`, true exactly where the id is `val`. |
| ClipMs.Covered | visibilities/clip_ms.py:61-64 | The row test `np.logical_and(cliptime >= min_times, cliptime <= max_times).any(axis=1)`: some `k` has `mins[k] <= t <= maxs[k]`. It is a predicate with no contract of its own; `Keepers` and `CoveredIffBracketed` state its role. |
| ClipMs.Keepers | visibilities/clip_ms.py:61-64 | `keeper_indices` is strictly increasing and in `[0, len(cliptime))`. Row `i` is kept iff some `k` has `min_times[k] <= cliptime[i] <= max_times[k]`. |
| ClipMs.ClipTable | visibilities/clip_ms.py:47-64 | A table is left unclipped iff it has zero rows. Otherwise the kept rows are exactly the covered ones. |
| ClipMs.ClipAgainstMs | visibilities/clip_ms.py:31-64 | The whole kernel for one table: chunk intervals from the measurement set, then `ClipTable`. It is unclipped iff the table has no rows. `MsTimesAllKept` and `CoveredIffBracketed` state what it keeps. |
| ClipMs.Select | visibilities/clip_ms.py:66 | The `TIME` column of `selectrows(rownrs = rows)`: element `j` is `cliptime[rows[j]]`. |
| ClipMs.CoveredIffBracketed | visibilities/clip_ms.py:31-40 | A time is covered by the chunk intervals iff two rows of one chunk bracket it: the intervals are exactly the spans of each chunk's `TIME` values. |
| ClipMs.ClipTables | visibilities/clip_ms.py:43-64 | The `for tabname` loop with the zero-row test meant as a row count: one outcome per table, each `ClipTable` with the same intervals. |
| ClipMs.ClipTablesAsWritten | visibilities/clip_ms.py:43-65 | The loop as written: the skip never fires, and a table with no rows ends the run at the division at :65. It produces exactly the outcomes of the tables before the first empty one, each `Clipped` with its keepers. |
| ClipMs.AsWrittenIsPrefix | visibilities/clip_ms.py:43-65 | The loop as written gives a prefix of the intended outcomes, and all of them iff no table is empty. |
| ClipMs.ZeroRowTableEndsRun | visibilities/clip_ms.py:47-65 | For tables `[[], [t]]` and the interval `[t, t]`, the run as written clips nothing, while the intended loop skips the first table and keeps the second table's row. |
| ClipMs.WhereAllTrue | visibilities/clip_ms.py:64 | A mask that is true everywhere selects every position, in order. |
| ClipMs.AllCoveredAllKept | visibilities/clip_ms.py:61-64 | If every row's time is covered, every row is kept. |
| ClipMs.ClipIdempotent | visibilities/clip_ms.py:47-64 | Clipping the selected rows again with the same intervals keeps all of them. If nothing was kept, the second pass skips the empty table. |
| ClipMs.MsTimesAllKept | visibilities/clip_ms.py:31-64 | Clipping the measurement set's own `TIME` column keeps every row: each row lies inside its own chunk's interval. |

## Left out

- FITS reading (`fits.getdata`, `fits.getheader`), `np.squeeze`, WCS construction and `world_to_pixel`: file I/O and astrometric projection in foreign libraries. The raster is a 2D value and the centres are integer pixel pairs.
- `int(round(x))` on floating-point pixel coordinates: centres are taken as already integral. Python's round-half-to-even is not modelled, and neither is the exception it raises on NaN or infinity. The model does not claim that non-finite centres are handled.
- The raster's NaN samples and the NaN fill are not distinguished from values: `NoData` marks only elements the copy did not write.
- The example driver and plotting at the end of local_cutouts.py.
- In clip_ms.py: casacore table open, read, `selectrows`, copy and close; the `rm -rf ... && mv ...` shell step; timing and prints; the `try/except` cleanup. These are I/O and resource handling. The loop over `time_clip_tables` is kept only as the sequence of per-table outcomes (`ClipTables`, `ClipTablesAsWritten`). `Select` stands in for the `TIME` column of `selectrows`.
- The early return of the except clause is modelled only as the end of the run: which tables were already replaced on disk is I/O and is not modelled.
- NaN comparisons in the broadcast `>=`/`<=`: times are reals, so every comparison is defined.
- MakeMultipleCutouts, MakeCutout, PlanCopy, HalfSize: a negative `size` is excluded by the type `nat`. For it, `np.full` at local_cutouts.py:47 raises when there is at least one centre.

## Findings

| source | as written | input that shows it | evidently intended | confidence | as-written member | corrected member |
|---|---|---|---|---|---|---|
| visibilities/clip_ms.py:47 | `if cliptab.nrows == 0:` compares the table's `nrows` method with 0 without calling it, so a table with no rows is not skipped. It goes on to `len(keeper_indices)/len(cliptime)` at :65, whose division by zero lands in the except clause at :76, and msclip returns without clipping the remaining tables. | `time_clip_tables` whose first table has no rows and whose second has one row inside a chunk interval (`ZeroRowTableEndsRun`) | `cliptab.nrows() == 0`: skip the empty table and clip the others | medium; not executed; it rests on python-casacore's `nrows` being a method, and that library is not part of this model | ClipMs.ClipTablesAsWritten | ClipMs.ClipTables |
