/**
 * dither211 (quant.go lines 81-149): a row-major error-diffusion scan that
 * maps every pixel of a source image to a palette index.
 *
 * The scan keeps a carry register rt (a color.RGBA64) that takes half of a
 * pixel's non-negative error to the pixel on its right, and a buffer dn of
 * Dx()+1 such triples. Of dn, only slot 0 survives from one row to the next:
 * at the start of a row rt is loaded from dn[0] and dn[0] is cleared, and
 * within the row dn[x+1] is overwritten with a quarter of the error while
 * dn[x] accumulates it.
 *
 * The pure functions below (CarryAt, RowCarry, DitherIndex) give the value
 * of rt, of dn[0] and of every output index in closed form, and the method
 * Dither211 is proved to compute exactly those.
 */
module Dithering {
  import opened Geom
  import opened Palettes

  /** uint8, the element type of image.Paletted's pixel buffer. */
  type Byte = x: int | 0 <= x < 256

  /** The red, green and blue that RGBA() yields for a source pixel (its alpha is dropped). */
  datatype Rgb = Rgb(r: Channel, g: Channel, b: Channel)

  /** color.RGBA64{}: the value of rt and of every dn slot when the scan starts. */
  const Zero := Rgba(0, 0, 0, 0)

  /** A slot of dn: a color.RGBA64 whose alpha nothing ever sets. */
  type Err = e: Rgba | e.a == 0 witness Zero

  /**
   * A source image: its bounds and its pixels, row by row, with pixel (x, y)
   * at rows[y - Min.Y][x - Min.X].
   */
  datatype Image = Image(bounds: Rect, rows: seq<seq<Rgb>>) {

    predicate Valid() {
      && bounds.WellFormed()
      && |rows| == bounds.Dy()
      && forall j :: 0 <= j < |rows| ==> |rows[j]| == bounds.Dx()
    }
  }

  /** Every row has at least one pixel. */
  predicate NonEmptyRows(rows: seq<seq<Rgb>>) {
    forall j :: 0 <= j < |rows| ==> |rows[j]| > 0
  }

  // ---------------------------------------------------------------------
  // One channel

  /**
   * Lines 103-114: a source channel plus the carried error, saturated at
   * 0xffff. The sum never wraps: it is the exact sum when that fits, and
   * 0xffff otherwise.
   */
  function AddSat(c: Channel, e: Channel): (s: Channel)
    ensures c <= s && e <= s
    ensures s == c + e || (s == 0xffff && c + e > 0xffff)
  {
    if c + e > 0xffff then 0xffff else c + e
  }

  /**
   * Lines 124-138: the error that goes right. It is never negative: zero
   * when the palette channel is above the adjusted one, otherwise half the
   * difference, truncated.
   */
  function Residual(v: Channel, pc: Channel): (e: Channel)
    ensures e <= 0x7fff
    ensures pc > v ==> e == 0
    ensures pc <= v ==> 2 * e <= v - pc <= 2 * e + 1
  {
    if pc > v then 0 else (v - pc) / 2
  }

  // ---------------------------------------------------------------------
  // One pixel

  /**
   * Lines 103-117: the adjusted colour that is handed to cp.Index. Its red,
   * green and blue are the saturated sums; its alpha is rt's, which nothing
   * ever sets.
   */
  function Adjusted(c: Rgb, rt: Rgba): (v: Rgba)
    ensures v.a == rt.a
    ensures v.r == c.r + rt.r || (v.r == 0xffff && c.r + rt.r > 0xffff)
    ensures v.g == c.g + rt.g || (v.g == 0xffff && c.g + rt.g > 0xffff)
    ensures v.b == c.b + rt.b || (v.b == 0xffff && c.b + rt.b > 0xffff)
  {
    Rgba(AddSat(c.r, rt.r), AddSat(c.g, rt.g), AddSat(c.b, rt.b), rt.a)
  }

  /** Lines 119-138: rt after one pixel, starting from the carry rt. */
  function Step(p: seq<Rgba>, c: Rgb, rt: Rgba): (rt': Rgba)
    requires |p| > 0
    ensures rt'.r <= 0x7fff && rt'.g <= 0x7fff && rt'.b <= 0x7fff && rt'.a == rt.a
  {
    var v := Adjusted(c, rt);
    var pc := p[Nearest(p, v)];
    Rgba(Residual(v.r, pc.r), Residual(v.g, pc.g), Residual(v.b, pc.b), v.a)
  }

  /** Lines 140-142: a dn slot after it has received half of rt, rounded down. */
  function Down(rt: Rgba): (d: Err)
    ensures 2 * d.r <= rt.r <= 2 * d.r + 1 && 2 * d.g <= rt.g <= 2 * d.g + 1 && 2 * d.b <= rt.b <= 2 * d.b + 1
  {
    Rgba(rt.r / 2, rt.g / 2, rt.b / 2, 0)
  }

  // ---------------------------------------------------------------------
  // The scan in closed form

  /**
   * The carry rt when pixel k of a row is reached, the row having started
   * with c0. After at least one pixel every channel is at most 0x7fff; the
   * alpha is never changed.
   */
  function CarryAt(p: seq<Rgba>, row: seq<Rgb>, c0: Rgba, k: nat): (rt: Rgba)
    requires |p| > 0 && k <= |row|
    ensures rt.a == c0.a
    ensures k > 0 ==> rt.r <= 0x7fff && rt.g <= 0x7fff && rt.b <= 0x7fff
    decreases k
  {
    if k == 0 then c0 else Step(p, row[k - 1], CarryAt(p, row, c0, k - 1))
  }

  /** Lines 119-120: the index stored for pixel k of a row that started with c0. */
  function IndexAt(p: seq<Rgba>, row: seq<Rgb>, c0: Rgba, k: nat): (i: nat)
    requires |p| > 0 && k < |row|
    ensures i < |p|
  {
    Nearest(p, Adjusted(row[k], CarryAt(p, row, c0, k)))
  }

  /**
   * dn[0] when row j (counted from Min.Y) starts, which is rt at its first
   * pixel: zero for the first row, afterwards a quarter of the first pixel's
   * error in the row above. Its channels are at most 0x3fff and its alpha is 0.
   */
  function RowCarry(p: seq<Rgba>, rows: seq<seq<Rgb>>, j: nat): (c: Rgba)
    requires |p| > 0 && j <= |rows| && NonEmptyRows(rows)
    ensures c.a == 0 && c.r <= 0x3fff && c.g <= 0x3fff && c.b <= 0x3fff
    decreases j
  {
    if j == 0 then Zero else Down(CarryAt(p, rows[j - 1], RowCarry(p, rows, j - 1), 1))
  }

  /**
   * The palette index dither211 stores for pixel (Min.X + k, Min.Y + j): an
   * index into the palette, so below 256 whenever the palette is that small.
   */
  function DitherIndex(p: seq<Rgba>, rows: seq<seq<Rgb>>, j: nat, k: nat): (i: nat)
    requires |p| > 0 && j < |rows| && k < |rows[j]| && NonEmptyRows(rows)
    ensures i < |p|
  {
    IndexAt(p, rows[j], RowCarry(p, rows, j), k)
  }

  /**
   * The whole scan, one register value and one index at a time: carries[j][k]
   * is rt on arrival at pixel k of row j and indices[j][k] the index stored
   * there. Each row starts from a quarter of the first error of the row
   * above (zero for the first row), each carry and index follows from the
   * one before, and the indices are those DitherIndex gives.
   */
  lemma ScanTrace(p: seq<Rgba>, rows: seq<seq<Rgb>>) returns (carries: seq<seq<Rgba>>, indices: seq<seq<nat>>)
    requires |p| > 0 && NonEmptyRows(rows)
    ensures |carries| == |rows| && |indices| == |rows|
    ensures forall j :: 0 <= j < |rows| ==> |carries[j]| == |rows[j]| + 1 && |indices[j]| == |rows[j]|
    ensures |rows| > 0 ==> carries[0][0] == Zero
    ensures forall j :: 0 <= j < |rows| ==>
      carries[j][0].r <= 0x3fff && carries[j][0].g <= 0x3fff && carries[j][0].b <= 0x3fff
    ensures forall j :: 0 <= j < |rows| - 1 ==> carries[j + 1][0] == Down(carries[j][1])
    ensures forall j, k {:trigger Step(p, rows[j][k], carries[j][k])} :: 0 <= j < |rows| && 0 <= k < |rows[j]| ==>
      carries[j][k + 1] == Step(p, rows[j][k], carries[j][k])
    ensures forall j, k {:trigger Nearest(p, Adjusted(rows[j][k], carries[j][k]))} :: 0 <= j < |rows| && 0 <= k < |rows[j]| ==>
      indices[j][k] == Nearest(p, Adjusted(rows[j][k], carries[j][k]))
    ensures forall j, k {:trigger DitherIndex(p, rows, j, k)} :: 0 <= j < |rows| && 0 <= k < |rows[j]| ==>
      indices[j][k] == DitherIndex(p, rows, j, k)
  {
    carries := seq(|rows|, j requires 0 <= j < |rows| => RowCarries(p, rows, j));
    indices := seq(|rows|, j requires 0 <= j < |rows| => RowIndices(p, rows, j));
    forall j | 0 <= j < |rows| - 1
      ensures carries[j + 1][0] == Down(carries[j][1])
    {
      assert carries[j] == RowCarries(p, rows, j);
    }
  }

  /** The carries of row j: CarryAt at 0 through the row's width. */
  function RowCarries(p: seq<Rgba>, rows: seq<seq<Rgb>>, j: nat): (cs: seq<Rgba>)
    requires |p| > 0 && j < |rows| && NonEmptyRows(rows)
    ensures |cs| == |rows[j]| + 1
    ensures cs[0] == RowCarry(p, rows, j)
    ensures j + 1 < |rows| ==> Down(cs[1]) == RowCarry(p, rows, j + 1)
    ensures forall k {:trigger Step(p, rows[j][k], cs[k])} :: 0 <= k < |rows[j]| ==> cs[k + 1] == Step(p, rows[j][k], cs[k])
  {
    seq(|rows[j]| + 1, k requires 0 <= k <= |rows[j]| => CarryAt(p, rows[j], RowCarry(p, rows, j), k))
  }

  /** The indices of row j, given with the carries they are computed from. */
  function RowIndices(p: seq<Rgba>, rows: seq<seq<Rgb>>, j: nat): (ix: seq<nat>)
    requires |p| > 0 && j < |rows| && NonEmptyRows(rows)
    ensures |ix| == |rows[j]|
    ensures forall k {:trigger DitherIndex(p, rows, j, k)} :: 0 <= k < |rows[j]| ==> ix[k] == DitherIndex(p, rows, j, k)
    ensures forall k {:trigger Nearest(p, Adjusted(rows[j][k], RowCarries(p, rows, j)[k]))} :: 0 <= k < |rows[j]| ==>
      ix[k] == Nearest(p, Adjusted(rows[j][k], RowCarries(p, rows, j)[k]))
  {
    seq(|rows[j]|, k requires 0 <= k < |rows[j]| => DitherIndex(p, rows, j, k))
  }

  // ---------------------------------------------------------------------
  // Order of visits

  /** The points (x0, y), ..., (x1 - 1, y), left to right. */
  function RowPoints(y: int, x0: int, x1: int): (r: seq<Point>)
    requires x0 <= x1
    ensures |r| == x1 - x0
    decreases x1 - x0
  {
    if x1 == x0 then [] else RowPoints(y, x0, x1 - 1) + [Point(x1 - 1, y)]
  }

  lemma {:induction false} RowPointsOnce(y: int, x0: int, x1: int)
    requires x0 <= x1
    ensures forall i :: 0 <= i < x1 - x0 ==> RowPoints(y, x0, x1)[i] == Point(x0 + i, y)
    decreases x1 - x0
  {
    if x1 > x0 {
      RowPointsOnce(y, x0, x1 - 1);
    }
  }

  /** The points of the first n rows of b, in row-major order. */
  function GridPoints(b: Rect, n: nat): (g: seq<Point>)
    requires b.WellFormed()
    ensures |g| == n * b.Dx()
  {
    if n == 0 then [] else GridPoints(b, n - 1) + RowPoints(b.min.y + n - 1, b.min.x, b.max.x)
  }

  /** The order in which dither211 visits, and writes, the pixels of b. */
  function ScanOrder(b: Rect): (o: seq<Point>)
    requires b.WellFormed()
    ensures o == [] <==> b.Empty()
    ensures !b.Empty() ==> |o| == b.Dx() * b.Dy()
  {
    if b.Empty() then [] else GridPoints(b, b.Dy())
  }

  lemma {:induction false} GridPointsOnce(b: Rect, n: nat)
    requires b.WellFormed() && n <= b.Dy()
    ensures forall q :: q in GridPoints(b, n) <==> b.Has(q) && q.y < b.min.y + n
    ensures forall i, i' :: 0 <= i < i' < |GridPoints(b, n)| ==> GridPoints(b, n)[i] != GridPoints(b, n)[i']
  {
    if n > 0 {
      GridPointsOnce(b, n - 1);
      RowPointsOnce(b.min.y + n - 1, b.min.x, b.max.x);
      var g, r := GridPoints(b, n - 1), RowPoints(b.min.y + n - 1, b.min.x, b.max.x);
      assert GridPoints(b, n) == g + r;
      forall q | b.Has(q) && q.y < b.min.y + n
        ensures q in g + r
      {
        if q.y == b.min.y + n - 1 {
          assert r[q.x - b.min.x] == q;
        }
      }
      forall i, i' | 0 <= i < i' < |g + r|
        ensures (g + r)[i] != (g + r)[i']
      {
        if i < |g| && |g| <= i' {
          assert (g + r)[i] in g;
        }
      }
    }
  }

  /**
   * Every pixel of the bounds is visited exactly once: the scan order holds
   * precisely the points of b, and no point twice.
   */
  lemma ScanOrderVisitsEachPixelOnce(b: Rect)
    requires b.WellFormed()
    ensures forall q :: q in ScanOrder(b) <==> b.Has(q)
    ensures forall i, i' :: 0 <= i < i' < |ScanOrder(b)| ==> ScanOrder(b)[i] != ScanOrder(b)[i']
  {
    if b.Empty() {
      EmptyIffNoPoint(b);
    } else {
      GridPointsOnce(b, b.Dy());
    }
  }

  // ---------------------------------------------------------------------
  // Column slots

  /**
   * The dn slot lines 140-145 use for column x: the column itself, that is
   * the in-range slot ColumnSlot shifted by Min.X.
   */
  function SourceSlot(b: Rect, x: int): (s: int)
    requires b.min.x <= x < b.max.x
    ensures s == ColumnSlot(b, x) + b.min.x
  {
    x
  }

  /** Both slots lines 140-145 address, x and x + 1, lie inside dn, sized Dx() + 1 at line 94, for every column. */
  predicate SourceSlotsInRange(b: Rect) {
    forall x :: b.min.x <= x < b.max.x ==> 0 <= SourceSlot(b, x) && SourceSlot(b, x) + 1 < b.Dx() + 1
  }

  /** As written, dn's indices stay in range for a non-empty image exactly when Min.X is 0. */
  lemma SourceSlotsInRangeIff(b: Rect)
    requires b.WellFormed() && !b.Empty()
    ensures SourceSlotsInRange(b) <==> b.min.x == 0
  {
    if b.min.x < 0 {
      assert SourceSlot(b, b.min.x) < 0;
    } else if b.min.x > 0 {
      assert SourceSlot(b, b.max.x - 1) + 1 >= b.Dx() + 1;
    }
  }

  /** An image one pixel wide at x = 1: line 140 writes dn[2] of a two-slot buffer. */
  lemma SourceSlotOverrun()
    ensures !SourceSlotsInRange(Rect(Point(1, 0), Point(2, 1)))
  {
    assert SourceSlot(Rect(Point(1, 0), Point(2, 1)), 1) + 1 == 2;
  }

  /**
   * The slot this model uses for column x, counted from the left edge of the
   * bounds: slot k and k + 1 are inside dn for every image, distinct columns
   * get distinct slots, and slot 0 is the first column. For Min.X == 0 it is
   * the source's slot.
   */
  function ColumnSlot(b: Rect, x: int): (k: nat)
    requires b.min.x <= x < b.max.x
    ensures k + 1 < b.Dx() + 1
    ensures k == 0 <==> x == b.min.x
    ensures b.min.x == 0 ==> k == x
  {
    x - b.min.x
  }

  // ---------------------------------------------------------------------
  // The output image

  /** image.Paletted: bounds, palette and one index per pixel. */
  class Paletted {
    const rect: Rect
    const palette: seq<Rgba>
    const pix: array2<Byte>

    ghost predicate Valid()
      reads this
    {
      rect.WellFormed() && pix.Length0 == rect.Dy() && pix.Length1 == rect.Dx()
    }

    /** image.NewPaletted: the given bounds and palette, every index 0. */
    constructor (r: Rect, p: seq<Rgba>)
      requires r.WellFormed()
      ensures Valid() && rect == r && palette == p && fresh(pix)
      ensures forall j, k :: 0 <= j < pix.Length0 && 0 <= k < pix.Length1 ==> pix[j, k] == 0
    {
      rect, palette := r, p;
      pix := new Byte[r.Dy(), r.Dx()]((j, k) => 0);
    }

    /** Paletted.ColorIndexAt: the stored index, or 0 outside the bounds. */
    function ColorIndexAt(x: int, y: int): (i: Byte)
      requires Valid()
      reads this, pix
      ensures !rect.Has(Point(x, y)) ==> i == 0
    {
      if rect.Has(Point(x, y)) then pix[y - rect.min.y, x - rect.min.x] else 0
    }

    /** Paletted.SetColorIndex: stores the index of an in-bounds pixel; a point outside is ignored. */
    method SetColorIndex(x: int, y: int, index: Byte)
      requires Valid()
      modifies pix
      ensures rect.Has(Point(x, y)) ==> pix[y - rect.min.y, x - rect.min.x] == index
      ensures forall j, k :: 0 <= j < pix.Length0 && 0 <= k < pix.Length1 ==>
        (rect.Has(Point(x, y)) && j == y - rect.min.y && k == x - rect.min.x) || pix[j, k] == old(pix[j, k])
    {
      if rect.Has(Point(x, y)) {
        pix[y - rect.min.y, x - rect.min.x] := index;
      }
    }
  }

  // ---------------------------------------------------------------------
  // The scan

  /**
   * Lines 100-138 for one pixel: the carry rt is added to the source colour
   * c with saturation, the sum is looked up in the palette, and the carry
   * becomes half of the non-negative error.
   */
  method QuantizePixel(cp: seq<Rgba>, c: Rgb, rt: Rgba) returns (i: nat, rt': Rgba)
    requires |cp| > 0
    ensures i == Nearest(cp, Adjusted(c, rt)) && rt' == Step(cp, c, rt)
  {
    // the colour looked up: c plus the carry, each channel capped at 0xffff
    var r0, g0, b0 := c.r + rt.r, c.g + rt.g, c.b + rt.b;
    if r0 > 0xffff {
      r0 := 0xffff;
    }
    if g0 > 0xffff {
      g0 := 0xffff;
    }
    if b0 > 0xffff {
      b0 := 0xffff;
    }
    rt' := rt.(r := r0, g := g0, b := b0);
    // the entry Nearest selects for it
    i := Nearest(cp, rt');
    var pc := cp[i];
    // the new carry: per channel, the difference to that entry halved, or 0 if negative
    if pc.r > rt'.r {
      rt' := rt'.(r := 0);
    } else {
      rt' := rt'.(r := (rt'.r - pc.r) / 2);
    }
    if pc.g > rt'.g {
      rt' := rt'.(g := 0);
    } else {
      rt' := rt'.(g := (rt'.g - pc.g) / 2);
    }
    if pc.b > rt'.b {
      rt' := rt'.(b := 0);
    } else {
      rt' := rt'.(b := (rt'.b - pc.b) / 2);
    }
  }

  /**
   * Lines 140-145: slot k + 1 is overwritten with half of the carry, and
   * slot k accumulates that same half. Given slot k at most 0x3fff and the
   * carry at most 0x7fff, the sum fits a uint16 and never wraps.
   */
  method DiffuseDown(dn: array<Err>, k: nat, rt: Rgba)
    requires k + 1 < dn.Length
    requires dn[k].r <= 0x3fff && dn[k].g <= 0x3fff && dn[k].b <= 0x3fff
    requires rt.r <= 0x7fff && rt.g <= 0x7fff && rt.b <= 0x7fff
    modifies dn
    ensures dn[k + 1] == Down(rt)
    ensures dn[k] == Rgba(old(dn[k].r) + rt.r / 2, old(dn[k].g) + rt.g / 2, old(dn[k].b) + rt.b / 2, 0)
    ensures forall i :: 0 <= i < dn.Length && i != k && i != k + 1 ==> dn[i] == old(dn[i])
  {
    dn[k + 1] := dn[k + 1].(r := rt.r / 2, g := rt.g / 2, b := rt.b / 2);
    dn[k] := dn[k].(r := dn[k].r + dn[k + 1].r, g := dn[k].g + dn[k + 1].g, b := dn[k].b + dn[k + 1].b);
  }

  /**
   * One row of dither211 (lines 96-146): row y of the output, whose source
   * pixels are row. carries and indices trace the scan the row must follow:
   * carries[k] is rt on arrival at pixel k (carries[0] is dn[0]) and
   * indices[k] the palette index of pixel k. Every pixel of the row gets its
   * index, dn[0] ends up holding a quarter of the first pixel's error, the
   * last slot half of the last carry, other rows are untouched, and visits
   * lists the row's pixels left to right. Slots 1 .. |row| - 1 are left
   * unstated: they are dead, since the next row overwrites slot k + 1 before
   * it reads it and reads only slot 0 on entry, which is why no requires
   * here mentions them.
   */
  method DitherRow(row: seq<Rgb>, cp: seq<Rgba>, pi: Paletted, dn: array<Err>, y: int,
                   ghost carries: seq<Rgba>, ghost indices: seq<nat>)
    returns (ghost visits: seq<Point>)
    requires pi.Valid() && !pi.rect.Empty() && pi.rect.min.y <= y < pi.rect.max.y
    requires |row| == pi.rect.Dx() && dn.Length == |row| + 1
    requires 0 < |cp| <= 256
    requires |carries| == |row| + 1 && |indices| == |row| && carries[0] == dn[0]
    requires forall k {:trigger Step(cp, row[k], carries[k])} :: 0 <= k < |row| ==>
      carries[k + 1] == Step(cp, row[k], carries[k])
    requires forall k {:trigger Nearest(cp, Adjusted(row[k], carries[k]))} :: 0 <= k < |row| ==>
      indices[k] == Nearest(cp, Adjusted(row[k], carries[k]))
    modifies pi.pix, dn
    ensures dn[0] == Down(carries[1])
    ensures dn[|row|] == Down(carries[|row|])
    ensures forall j, k :: 0 <= j < pi.pix.Length0 && 0 <= k < pi.pix.Length1 && j == y - pi.rect.min.y ==>
      pi.pix[j, k] == indices[k]
    ensures forall j, k :: 0 <= j < pi.pix.Length0 && 0 <= k < pi.pix.Length1 && j != y - pi.rect.min.y ==>
      pi.pix[j, k] == old(pi.pix[j, k])
    ensures visits == RowPoints(y, pi.rect.min.x, pi.rect.max.x)
  {
    var b := pi.rect;
    ghost var j := y - b.min.y;
    var rt: Rgba := dn[0];
    dn[0] := Zero;
    visits := [];
    var x := b.min.x;
    while x < b.max.x
      invariant b.min.x <= x <= b.max.x
      invariant rt == carries[x - b.min.x]
      invariant x > b.min.x ==> rt.r <= 0x7fff && rt.g <= 0x7fff && rt.b <= 0x7fff
      invariant x == b.min.x ==> dn[0] == Zero
      invariant x > b.min.x ==> dn[0] == Down(carries[1])
      invariant x > b.min.x ==> dn[x - b.min.x] == Down(rt)
      invariant forall k :: 0 <= k < x - b.min.x ==> pi.pix[j, k] == indices[k]
      invariant forall j', k :: 0 <= j' < pi.pix.Length0 && 0 <= k < pi.pix.Length1 && j' != j ==>
        pi.pix[j', k] == old(pi.pix[j', k])
      invariant visits == RowPoints(y, b.min.x, x)
    {
      var i;
      // source pixel (x, y)
      i, rt := QuantizePixel(cp, row[x - b.min.x], rt);
      pi.SetColorIndex(x, y, i as Byte);
      visits := visits + [Point(x, y)];
      DiffuseDown(dn, ColumnSlot(b, x), rt);
      x := x + 1;
    }
  }

  /**
   * dither211. A palette of more than 256 colours yields nil. Otherwise the
   * result is a fresh image with the source's bounds and the palette cp,
   * visits lists the pixels in the order they are written (each exactly
   * once, by ScanOrderVisitsEachPixelOnce), and every stored index, read
   * back by ColorIndexAt at the pixel's own coordinates, is the one the
   * closed form DitherIndex gives, below |cp|.
   */
  method Dither211(i0: Image, p: LinearPalette) returns (pi: Paletted?, ghost visits: seq<Point>)
    requires i0.Valid()
    requires |p.palette| > 0 || i0.bounds.Empty()
    ensures pi == null <==> |p.palette| > 256
    ensures pi == null ==> visits == []
    ensures pi != null ==> fresh(pi) && fresh(pi.pix) && pi.Valid()
    ensures pi != null ==> pi.rect == i0.bounds && pi.palette == p.ColorPalette()
    ensures pi != null ==> visits == ScanOrder(i0.bounds)
    ensures pi != null && !i0.bounds.Empty() ==>
      forall j, k :: 0 <= j < pi.pix.Length0 && 0 <= k < pi.pix.Length1 ==>
        pi.pix[j, k] == DitherIndex(p.palette, i0.rows, j, k) < |p.palette|
    ensures pi != null ==> forall x, y {:trigger pi.ColorIndexAt(x, y)} :: i0.bounds.Has(Point(x, y)) ==>
      pi.ColorIndexAt(x, y) == DitherIndex(p.palette, i0.rows, y - i0.bounds.min.y, x - i0.bounds.min.x)
  {
    var cp := p.ColorPalette();
    if |cp| > 256 {
      return null, [];
    }
    var b := i0.bounds;
    pi := new Paletted(b, cp);
    visits := [];
    if b.max.y - b.min.y == 0 || b.max.x - b.min.x == 0 {
      return;
    }
    // dn holds one carry per column slot for the next row; DitherRow keeps the running carry
    var dn := new Err[b.max.x - b.min.x + 1](_ => Zero);
    ghost var carries, indices := ScanTrace(cp, i0.rows);
    var y := b.min.y;
    while y < b.max.y
      invariant b.min.y <= y <= b.max.y
      invariant fresh(dn) && dn.Length == b.Dx() + 1
      invariant y < b.max.y ==> dn[0] == carries[y - b.min.y][0]
      invariant forall j, k :: 0 <= j < y - b.min.y && 0 <= k < pi.pix.Length1 ==> pi.pix[j, k] == indices[j][k]
      invariant visits == GridPoints(b, y - b.min.y)
    {
      var j := y - b.min.y;
      var rowVisits := DitherRow(i0.rows[j], cp, pi, dn, y, carries[j], indices[j]);
      assert GridPoints(b, j + 1) == visits + rowVisits;
      visits := visits + rowVisits;
      y := y + 1;
    }
    IndicesAtPixels(pi, cp, i0);
  }

  /** Reads the stored indices back by pixel coordinates. */
  lemma IndicesAtPixels(pi: Paletted, p: seq<Rgba>, i0: Image)
    requires pi.Valid() && i0.Valid() && pi.rect == i0.bounds && !i0.bounds.Empty() && |p| > 0
    requires forall j, k :: 0 <= j < pi.pix.Length0 && 0 <= k < pi.pix.Length1 ==>
      pi.pix[j, k] == DitherIndex(p, i0.rows, j, k)
    ensures forall x, y {:trigger pi.ColorIndexAt(x, y)} :: i0.bounds.Has(Point(x, y)) ==>
      pi.ColorIndexAt(x, y) == DitherIndex(p, i0.rows, y - i0.bounds.min.y, x - i0.bounds.min.x)
  {
  }

  // ---------------------------------------------------------------------
  // Properties of the scan

  /** The query colour handed to cp.Index always has alpha 0 (lines 93, 96, 115-117). */
  lemma QueryAlphaIsZero(p: seq<Rgba>, rows: seq<seq<Rgb>>, j: nat, k: nat)
    requires |p| > 0 && j < |rows| && k < |rows[j]| && NonEmptyRows(rows)
    ensures Adjusted(rows[j][k], CarryAt(p, rows[j], RowCarry(p, rows, j), k)).a == 0
  {
  }

  /**
   * Lines 96-97 and 140-145: the carry entering row j + 1 is a quarter of
   * the first pixel's error in row j, computed as ((adjusted - palette) / 2) / 2,
   * or 0 where that difference was clamped.
   */
  lemma NextRowCarry(p: seq<Rgba>, rows: seq<seq<Rgb>>, j: nat)
    requires |p| > 0 && j < |rows| && NonEmptyRows(rows)
    ensures var v := Adjusted(rows[j][0], RowCarry(p, rows, j));
            var pc := p[Nearest(p, v)];
            var c := RowCarry(p, rows, j + 1);
            && c.r == (if pc.r > v.r then 0 else ((v.r - pc.r) / 2) / 2)
            && c.g == (if pc.g > v.g then 0 else ((v.g - pc.g) / 2) / 2)
            && c.b == (if pc.b > v.b then 0 else ((v.b - pc.b) / 2) / 2)
  {
  }

  /** The carry at pixel k depends on the row only through its first k pixels. */
  lemma {:induction false} CarryAtPrefix(p: seq<Rgba>, row: seq<Rgb>, row': seq<Rgb>, c0: Rgba, k: nat)
    requires |p| > 0 && k <= |row| && k <= |row'| && row[..k] == row'[..k]
    ensures CarryAt(p, row, c0, k) == CarryAt(p, row', c0, k)
  {
    if k > 0 {
      assert row[..k - 1] == row[..k][..k - 1];
      assert row'[..k - 1] == row'[..k][..k - 1];
      CarryAtPrefix(p, row, row', c0, k - 1);
      assert row[k - 1] == row[..k][k - 1];
      assert row'[k - 1] == row'[..k][k - 1];
    }
  }

  /** Only dn[0] crosses rows: the carry entering row j depends only on the first column above it. */
  lemma {:induction false} RowCarryDependsOnFirstColumn(p: seq<Rgba>, rows: seq<seq<Rgb>>, rows': seq<seq<Rgb>>, j: nat)
    requires |p| > 0 && j <= |rows| && j <= |rows'| && NonEmptyRows(rows) && NonEmptyRows(rows')
    requires forall i :: 0 <= i < j ==> rows[i][0] == rows'[i][0]
    ensures RowCarry(p, rows, j) == RowCarry(p, rows', j)
  {
    if j > 0 {
      RowCarryDependsOnFirstColumn(p, rows, rows', j - 1);
      var c := RowCarry(p, rows, j - 1);
      assert c == RowCarry(p, rows', j - 1);
      assert RowCarry(p, rows, j) == Down(CarryAt(p, rows[j - 1], c, 1));
      assert RowCarry(p, rows', j) == Down(CarryAt(p, rows'[j - 1], c, 1));
      var s := Step(p, rows[j - 1][0], c);
      assert CarryAt(p, rows[j - 1], c, 1) == s;
      assert CarryAt(p, rows'[j - 1], c, 1) == s;
    }
  }

  /**
   * The index stored for pixel k of row j depends only on the pixels to its
   * left in its own row and on the first column of the rows above: none of
   * the error of columns 1.. of one row ever reaches the next row.
   */
  lemma DitherIndexDependsOn(p: seq<Rgba>, rows: seq<seq<Rgb>>, rows': seq<seq<Rgb>>, j: nat, k: nat)
    requires |p| > 0 && NonEmptyRows(rows) && NonEmptyRows(rows')
    requires j < |rows| && j < |rows'| && k < |rows[j]| && k < |rows'[j]|
    requires forall i :: 0 <= i < j ==> rows[i][0] == rows'[i][0]
    requires rows[j][..k + 1] == rows'[j][..k + 1]
    ensures DitherIndex(p, rows, j, k) == DitherIndex(p, rows', j, k)
  {
    RowCarryDependsOnFirstColumn(p, rows, rows', j);
    assert rows[j][..k] == rows[j][..k + 1][..k];
    assert rows'[j][..k] == rows'[j][..k + 1][..k];
    CarryAtPrefix(p, rows[j], rows'[j], RowCarry(p, rows, j), k);
    assert rows[j][k] == rows[j][..k + 1][k];
    assert rows'[j][k] == rows'[j][..k + 1][k];
  }

  /**
   * The first pixel of the image, when the palette holds its exact red,
   * green and blue and all entries share one alpha: it is mapped to an entry
   * of that colour at or before the given one, and no error is carried on.
   */
  lemma FirstPixelExactColor(p: seq<Rgba>, rows: seq<seq<Rgb>>, n: nat)
    requires NonEmptyRows(rows) && |rows| > 0 && n < |p|
    requires forall i :: 0 <= i < |p| ==> p[i].a == p[0].a
    requires p[n].r == rows[0][0].r && p[n].g == rows[0][0].g && p[n].b == rows[0][0].b
    ensures var i := DitherIndex(p, rows, 0, 0);
            i <= n && p[i].r == rows[0][0].r && p[i].g == rows[0][0].g && p[i].b == rows[0][0].b
    ensures CarryAt(p, rows[0], RowCarry(p, rows, 0), 1) == Zero
  {
    var c := rows[0][0];
    var q := Adjusted(c, Zero);
    assert q == Rgba(c.r, c.g, c.b, 0);
    var i := Nearest(p, q);
    NearestIsNearest(p, q);
    assert SqDist(q, p[n]) == SqDiff(0, p[0].a);
    assert SqDist(q, p[i]) <= SqDist(q, p[n]);
    SqDiffZero(c.r, p[i].r);
    SqDiffZero(c.g, p[i].g);
    SqDiffZero(c.b, p[i].b);
  }
}
