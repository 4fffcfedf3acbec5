# quant: the Dither211 quantizer in Dafny

This project models the core of the Go package `quant` (file `quant.go`) and proves properties of the model. The package has three parts:

- **`dither211`** maps every pixel of an image to the index of a palette entry. It uses error diffusion: a carry register `rt` takes half of each pixel's non-negative error to the pixel on its right. A buffer `dn` of `Dx()+1` colour triples holds a quarter of it for the row below.
- **`Dither211.Draw`** is the `draw.Drawer` entry point. It clips the target rectangle against both images, crops the source when needed, and then either dithers or falls back to a plain `draw.Draw` copy.
- **`LinearPalette`** wraps a `color.Palette`.

The project is in four modules:

- `Geom` (`geom.dfy`): `image.Point` and `image.Rectangle` with Go's semantics (`Add`, `Sub`, `Intersect`, `Empty`, `Eq`).
- `Palettes` (`palette.dfy`): 16-bit RGBA colours, the nearest-colour lookup `color.Palette.Index` that line 119 calls, and `LinearPalette`.
- `Dithering` (`dither.dfy`): the scan, modelled imperatively.
  - `Dither211` allocates the output (a class `Paletted` over an `array2<Byte>`) and the buffer `dn` (an `array<Err>`), and runs the nested loops. The inner loop is `DitherRow`.
  - Each method is proved against closed-form specification functions (`CarryAt`, `RowCarry`, `DitherIndex`, `ScanOrder`).
- `Drawing` (`draw.dfy`): `Dither211.Draw` as a pure decision function. It returns the path taken (`PlainCopy`, `NoOp`, `UncroppableCopy` or `Dither`) with its rectangles and the point the result is drawn from.

Integers are unbounded in Dafny. The source's uint16 values, and the colour channels `RGBA()` returns as uint32, are modelled by the subset type `Channel` (0..0xffff). The uint32 sums `r0 + rt.R` of lines 103-105, which reach 0x1fffe before lines 106-114 clamp them, are plain `int`s in `QuantizePixel`. Every place where uint16 arithmetic could wrap is proved not to:

- the saturating sum;
- the halved residual, at most 0x7fff;
- the `dn[x] += dn[x+1]` accumulation, whose operands are at most 0x3fff and 0x3fff.

## Model

| member | source | states |
|---|---|---|
| `Geom.Point.Sub` | quant.go:58 | `Point.Sub` is undone by `Point.Add`: `p.Sub(q).Add(q) == p` |
| `Geom.Rect.Add` | quant.go:58 | `Rectangle.Add` keeps the size, and a point lies in `r.Add(p)` exactly when the point moved back by `p` lies in `r` |
| `Geom.Rect.Intersect` | quant.go:57-58 | a point lies in `r.Intersect(s)` exactly when it lies in both; an empty intersection is `ZR`, and the result is well formed |
| `Geom.EmptyIffNoPoint` | quant.go:59 | `Rectangle.Empty` holds exactly when the rectangle contains no point |
| `Geom.EqIffSamePoints` | quant.go:65 | `Rectangle.Eq` holds exactly when both rectangles contain the same points |
| `Palettes.NearestFrom` | quant.go:119 | the linear scan behind `Palette.Index` returns an index inside the palette |
| `Palettes.Nearest` | quant.go:119 | `Palette.Index` on a non-empty palette returns a valid index |
| `Palettes.NearestFromIsNearest` | quant.go:119 | the scan, started from a best-so-far entry, ends on an entry nearest to the colour that no earlier entry ties |
| `Palettes.NearestIsNearest` | quant.go:119 | `Nearest` meets the reference behaviour `IsNearest`: minimal squared distance over four channels, ties to the lowest index |
| `Palettes.NearestIsUnique` | quant.go:119 | only one index meets `IsNearest`, so the lookup is deterministic |
| `Palettes.SqDiffZero` | quant.go:119 | a channel's squared difference is 0 exactly when the channels are equal |
| `Palettes.SqDistZero` | quant.go:119 | the squared distance is 0 exactly when the colours are equal |
| `Palettes.NearestOfEntry` | quant.go:119 | a colour that is a palette entry is mapped to that entry's first occurrence |
| `Palettes.LinearPalette.ColorPalette` | quant.go:40-42 | `ColorPalette` returns the wrapped palette entry for entry |
| `Palettes.ColorPaletteRoundTrip` | quant.go:40-42 | wrapping a palette and unwrapping it are inverse in both orders (line 77 wraps, line 82 unwraps) |
| `Dithering.Adjusted` | quant.go:103-117 | the colour looked up keeps `rt`'s alpha, and each channel is the exact sum of the source channel and the carry, or 0xffff when that sum exceeds it |
| `Dithering.AddSat` | quant.go:103-114 | the adjusted channel is at least both operands, and is their exact sum or 0xffff when the sum exceeds it: it saturates and never wraps |
| `Dithering.Residual` | quant.go:124-138 | the right carry is 0 when the palette channel exceeds the adjusted one, otherwise half their difference rounded down; at most 0x7fff |
| `Dithering.Step` | quant.go:119-138 | `rt` after one pixel has channels at most 0x7fff and its alpha unchanged |
| `Dithering.Down` | quant.go:140-142 | `dn[x+1]` receives half of the carry rounded down in each channel (`2d ≤ c ≤ 2d+1`), with alpha 0 |
| `Dithering.CarryAt` | quant.go:96-138 | the carry at pixel k keeps the row's starting alpha, and is at most 0x7fff per channel after the first pixel |
| `Dithering.RowCarry` | quant.go:94-97 | `dn[0]` at the start of every row (which is `rt` at its first pixel) has alpha 0 and channels at most 0x3fff, so `rt` starts every row at most 0x3fff |
| `Dithering.IndexAt` | quant.go:119-120 | the index stored for pixel k of a row is an index into the palette |
| `Dithering.DitherIndex` | quant.go:119-120 | the index stored for any pixel is an index into the palette, so `uint8(i)` at line 120 loses nothing once line 83 has ruled out more than 256 entries |
| `Dithering.RowPoints` | quant.go:98 | one row's visits list Dx() points |
| `Dithering.GridPoints` | quant.go:95-98 | the first n rows' visits list n·Dx() points |
| `Dithering.ScanOrder` | quant.go:95-98 | the scan visits nothing exactly when the bounds are empty, and otherwise Dx()·Dy() points |
| `Dithering.RowPointsOnce` | quant.go:98 | the inner loop visits columns Min.X through Max.X-1 of its row, in order |
| `Dithering.GridPointsOnce` | quant.go:95-98 | the first n rows of the scan contain exactly the points of those rows, each once |
| `Dithering.ScanOrderVisitsEachPixelOnce` | quant.go:95-98 | the scan order holds every point of the bounds and no point twice |
| `Dithering.SourceSlot` | quant.go:140-145 | the slot the source uses for column x, x itself, is the in-range slot `ColumnSlot` shifted by Min.X |
| `Dithering.SourceSlotsInRange` | quant.go:94-145 | both slots lines 140-145 address for every column, x and x+1, lie inside `dn` of Dx()+1 slots |
| `Dithering.SourceSlotsInRangeIff` | quant.go:94-145 | indexing `dn` (sized Dx()+1) by absolute x stays in range for a non-empty image exactly when Min.X is 0 |
| `Dithering.SourceSlotOverrun` | quant.go:94-140 | a one-pixel image at x = 1 makes line 140 address `dn[2]` of a two-slot buffer |
| `Dithering.ColumnSlot` | quant.go:140-145 | the corrected slot x - Min.X keeps slots k and k+1 inside `dn`, is 0 only at the first column, and equals the source's slot when Min.X is 0 |
| `Dithering.Paletted.constructor` | quant.go:87 | `image.NewPaletted` gives the bounds and palette asked for and a fresh pixel buffer of zeros |
| `Dithering.Paletted.SetColorIndex` | quant.go:120 | the in-bounds pixel gets the index and every other pixel is unchanged; a point outside the bounds changes nothing |
| `Dithering.QuantizePixel` | quant.go:100-138 | one pixel: the index is `Nearest` of the saturated sum, and the new `rt` is `Step` |
| `Dithering.DiffuseDown` | quant.go:140-145 | `dn[k+1]` becomes half the carry, and `dn[k]` grows by that half without wrapping; all other slots are unchanged |
| `Dithering.RowCarries` | quant.go:96-138 | the carries of row j start from `RowCarry` j, follow `Step` pixel by pixel, and a quarter of the first one's error starts row j+1 |
| `Dithering.RowIndices` | quant.go:119-120 | the indices of row j are `Nearest` of each pixel plus its carry, which is what `DitherIndex` gives |
| `Dithering.ScanTrace` | quant.go:95-146 | the whole scan as a trace of carries and indices: each row starts from a quarter of the first error above (zero for the first row), and each index is `DitherIndex` |
| `Dithering.DitherRow` | quant.go:96-146 | one row: every pixel of row y gets the index the trace gives, `dn[0]` ends as a quarter of the first pixel's error and the last slot as half of the last carry, other rows are untouched, and the pixels are visited left to right |
| `Dithering.Dither211` | quant.go:81-149 | more than 256 colours gives nil. Otherwise the result is a fresh image with the input's bounds and palette `cp`, visited in scan order (each pixel once; none for a zero-width or zero-height input), every index is `DitherIndex` and below \|cp\|, and `ColorIndexAt(x, y)` on the returned image (line 148) is `DitherIndex` of row y − Min.Y, column x − Min.X |
| `Dithering.IndicesAtPixels` | quant.go:120-148 | indices stored row by row from Min read back through `ColorIndexAt` at the pixel's own coordinates |
| `Dithering.QueryAlphaIsZero` | quant.go:93-119 | the colour handed to `cp.Index` always has alpha 0 |
| `Dithering.NextRowCarry` | quant.go:96-97 | the carry entering row j+1 is ((adjusted − palette)/2)/2 of the row's first pixel, or 0 where that residual was clamped |
| `Dithering.CarryAtPrefix` | quant.go:98-138 | the carry at pixel k depends only on the first k pixels of its row |
| `Dithering.RowCarryDependsOnFirstColumn` | quant.go:96-97 | only `dn[0]` crosses rows: the carry entering row j depends only on the first column of the rows above |
| `Dithering.DitherIndexDependsOn` | quant.go:95-146 | the index of a pixel depends only on the pixels to its left and the first column of the rows above |
| `Dithering.FirstPixelExactColor` | quant.go:96-138 | when the palette holds the first pixel's exact colour and all entries share one alpha, that pixel gets an entry of that colour and passes on no error |
| `Drawing.Clip` | quant.go:57-58 | a point lies in `ir` exactly when it lies in r, in the destination and, moved back by r.Min − sp, in the source; so `ir` is inside both r and `dst.Bounds()`, and an empty `ir` is `ZR` |
| `Drawing.CropAsWritten` | quant.go:62-64 | the source rectangle as written is `ir` moved by `ir.Min − r.Min`, with the same size |
| `Drawing.CropIntended` | quant.go:62-64 | the corrected source rectangle is `ir` moved by `sp − r.Min`, with the same size |
| `Drawing.Dispatch` | quant.go:65-78 | crop exactly when `sr` is not the source's bounds, to `sr` ∩ the source's bounds as `SubImage` does; fall back to a plain copy exactly when that crop is impossible; dither with the destination's palette into r, drawing from the given point |
| `Drawing.Draw` | quant.go:49-79 | a non-paletted destination is always plainly copied, never dithered; an empty clip means nothing is done; the fallback happens only for a source without `SubImage`; dithering uses the destination's palette and a rectangle inside the source, and draws from the origin (line 78) |
| `Drawing.DrawNoOpIffNoOverlap` | quant.go:57-61 | a paletted destination is left alone exactly when no point of r lies in the destination and in the placed source |
| `Drawing.DrawUncroppableIff` | quant.go:62-73 | the fallback copy happens exactly when the clip is non-empty, `sr` is not the source's bounds and the source cannot be cropped; it uses the recomputed sp |
| `Drawing.DrawDithersCrop` | quant.go:62-77 | whenever Draw dithers, the rectangle dithered is the as-written source rectangle intersected with the source's bounds |
| `Drawing.CropsAgreeIff` | quant.go:62 | the as-written and intended source rectangles agree exactly when the caller's sp is `ir.Min` |
| `Drawing.DrawCropMissesSource` | quant.go:62-78 | an n×n source drawn at (2n,2n) with sp at its origin makes Draw ask for a rectangle disjoint from the source, so the crop is empty and nothing is dithered, while the intended crop is the whole source; if the source cannot be cropped, Draw falls back to a plain copy where the corrected Draw dithers |
| `Drawing.DrawIntended` | quant.go:49-79 | the corrected Draw copies plainly and does nothing exactly where Draw does; it falls back exactly when the clip is non-empty, the intended rectangle is not the source's bounds and the source cannot be cropped, passing the caller's sp; it dithers with the destination's palette into r, drawing from the caller's sp, a rectangle inside the source |
| `Drawing.DrawIntendedCropWithinSource` | quant.go:57-78 | the corrected rectangle is `ir` moved into source coordinates, is never empty, lies inside the source's bounds, and holds the pixel q − r.Min + sp from which each point q of `ir` is drawn |
| `Drawing.IntendedCropInsideSource` | quant.go:62-73 | the intended source rectangle of a non-empty clip is non-empty and inside the source, so cropping leaves it whole |
| `Drawing.IntendedCropHoldsDrawnPoints` | quant.go:62-78 | for each point q of `ir`, the intended source rectangle holds q − r.Min + sp, the pixel line 78 takes q from when drawing from sp |

## Left out

- `draw.Draw` compositing (lines 53, 71, 78) belongs to the standard library and is not part of this model. The model stops at the path `Draw` takes and the rectangles it passes on.
- `image.Image.At`, `color.Color.RGBA()` and the conversion of palette entries (lines 100-101, 121) are calls through interfaces. The source image is given as rows of pre-converted 16-bit red, green and blue values, and a palette entry as its four 16-bit `RGBA()` values.
- The `Quantizer` interface (lines 14-20) and the package's `Palette` interface (lines 28-32) have no implementation here. The `Convert` and `Index` methods that `LinearPalette` inherits from the embedded `color.Palette` (lines 36-38) are left out for the same reason; line 119 calls `cp.Index` on the unwrapped palette, and that is `Palettes.Nearest`.
- `Palettes.Nearest`: `color.Palette.Index` is standard-library code, not among the source files of this model, so `Nearest` stands in for it: a scan for the least plain squared distance summed over the four channels, ties to the lowest index. Current Go instead sums `((x−y)*(x−y))>>2` over the four channels and returns at the first entry whose sum is 0; earlier Go shifted by 1 and ignored alpha. Under those shifted metrics an entry off by 1 in a channel can tie with the exact entry and win by coming first, so `Palettes.NearestOfEntry` and `Dithering.FirstPixelExactColor` hold for the model's metric only.
- The `SubImage` type assertion (lines 66-68) is a boolean `canSubImage` on the source, not dynamic typing. `SubImage` itself is taken to behave as the standard image types' does: the result's bounds are the rectangle asked for intersected with the source's bounds.
- `Drawing.Draw`: with a destination palette of more than 256 colours, `dither211` returns nil at line 77 and `draw.Draw` at line 78 then panics on it. The model returns the `Dither` outcome for that case and does not model the panic.
- `Dithering.DitherRow`: slots 1 to Dx()−1 of `dn` after a row are not stated. They are dead: the next row overwrites slot k+1 before it reads it, and on entry reads only slot 0.
- `Dithering.Dither211` requires well-formed bounds (Min not past Max), as `Bounds()` of a standard image always is. It requires a non-empty palette unless the image is empty; with an empty palette the source panics at `cp[i]` on the first pixel.
- `Dithering.Dither211` indexes `dn` by x − Min.X, not by x as line 140 does. The two agree exactly when Min.X is 0 (`ColumnSlot`); for other images the source would index outside `dn` (first row of Findings).

## Findings

| source | as written | input that shows it | evidently intended | confidence | as-written member | corrected member |
|---|---|---|---|---|---|---|
| quant.go:94-145 | `dn` is sized `Dx()+1` but indexed by absolute x (`dn[x]`, `dn[x+1]`) | any image with Min.X ≠ 0, e.g. a one-pixel image at x = 1 writes `dn[2]` of a two-slot buffer, and a negative Min.X indexes below 0 | index `dn` by x − Min.X | high (not executed) | `Dithering.SourceSlotOverrun` | `Dithering.ColumnSlot` |
| quant.go:62-78 | `sp = ir.Min.Sub(r.Min)` discards the caller's sp, so `sr` is `ir` moved by `ir.Min − r.Min` rather than into source coordinates, and line 78 draws the result from the origin | a 20×20 paletted destination, a 5×5 source at the origin that can be cropped, r = (10,10)-(15,15), sp = (0,0): `sr` is (10,10)-(15,15), disjoint from the source, so the crop is empty and nothing is drawn; a source that cannot be cropped falls back to a plain copy instead | `sr = ir.Add(sp.Sub(r.Min))`, and line 78 drawing from sp: each point of `ir` is drawn from its source point, and `sr` lies inside the source. The fix also changes which sources fall back, since the fallback test compares the intended `sr` with the source's bounds | high (not executed) | `Drawing.DrawCropMissesSource` | `Drawing.DrawIntendedCropWithinSource` |
