/**
 * Dither211.Draw (quant.go lines 49-79) as a decision: given the shape of
 * the destination, the rectangle r, the source and the point sp, which of
 * its four paths Draw takes and with which rectangles. The pixel copying
 * done by draw.Draw on each path is not part of this model; the dithering
 * itself is Dithering.Dither211.
 */
module Drawing {
  import opened Geom
  import opened Palettes

  /** The destination draw.Image: an *image.Paletted, or an image of any other kind. */
  datatype Destination =
    | PalettedDst(bounds: Rect, palette: seq<Rgba>)
    | OtherDst(bounds: Rect)

  /** The source image: its bounds, and whether it has a SubImage method (lines 66-68). */
  datatype Source = Source(bounds: Rect, canSubImage: bool)

  /** The path Draw takes. */
  datatype Outcome =
      /** Line 53: draw.Draw(dst, r, src, sp, draw.Src), the destination not being paletted. */
    | PlainCopy(r: Rect, sp: Point)
      /** Line 60: nothing to do. */
    | NoOp
      /** Line 71: draw.Draw(dst, r, src, sp, draw.Src), the source not being croppable. */
    | UncroppableCopy(r: Rect, sp: Point)
      /**
       * Lines 74-78: dither211 runs on an image whose bounds are input (the
       * source cropped to input when cropped holds, the source itself
       * otherwise) with the destination's palette, and the result is drawn
       * into r, point q of r taken from the dithered pixel q - r.Min + at.
       */
    | Dither(input: Rect, cropped: bool, palette: LinearPalette, r: Rect, at: Point)

  /**
   * Lines 57-58: r clipped to the destination's bounds db and to the
   * source's bounds sb placed so that sp lands on r.Min. A point lies in the
   * result exactly when it lies in r and in db and its source point lies in
   * sb; an empty result is the zero rectangle.
   */
  function Clip(r: Rect, db: Rect, sb: Rect, sp: Point): (ir: Rect)
    ensures forall q {:trigger ir.Has(q)} {:trigger sb.Has(q.Sub(r.min.Sub(sp)))} ::
      ir.Has(q) <==> r.Has(q) && db.Has(q) && sb.Has(q.Sub(r.min.Sub(sp)))
    ensures ir.Empty() ==> ir == ZR
  {
    r.Intersect(db).Intersect(sb.Add(r.min.Sub(sp)))
  }

  /**
   * Lines 62-64 as written: sp is replaced by ir.Min - r.Min, discarding the
   * caller's sp, and the source rectangle is ir moved by that offset.
   */
  function CropAsWritten(ir: Rect, r: Rect): (sr: Rect)
    ensures sr.Dx() == ir.Dx() && sr.Dy() == ir.Dy()
    ensures forall q {:trigger sr.Has(q)} {:trigger ir.Has(q.Sub(ir.min.Sub(r.min)))} ::
      sr.Has(q) <==> ir.Has(q.Sub(ir.min.Sub(r.min)))
  {
    ir.Add(ir.min.Sub(r.min))
  }

  /**
   * The source rectangle that corresponds to ir: each point q of ir is
   * drawn from the source point q - r.Min + sp, as draw.Draw does.
   */
  function CropIntended(ir: Rect, r: Rect, sp: Point): (sr: Rect)
    ensures sr.Dx() == ir.Dx() && sr.Dy() == ir.Dy()
    ensures forall q {:trigger sr.Has(q)} {:trigger ir.Has(q.Sub(sp.Sub(r.min)))} ::
      sr.Has(q) <==> ir.Has(q.Sub(sp.Sub(r.min)))
  {
    ir.Add(sp.Sub(r.min))
  }

  /**
   * The dispatch of lines 50-78, once the source rectangle sr is known:
   * crop when sr is not the source's bounds and the source can be cropped,
   * fall back to a plain copy with copySp when it cannot, and draw the
   * dithered image from the point at. Cropping follows the standard image
   * types' SubImage, which keeps only the part of sr inside the source.
   */
  function Dispatch(pal: seq<Rgba>, r: Rect, src: Source, sr: Rect, copySp: Point, at: Point): (o: Outcome)
    ensures o.UncroppableCopy? || o.Dither?
    ensures o.UncroppableCopy? <==> !sr.Eq(src.bounds) && !src.canSubImage
    ensures o.UncroppableCopy? ==> o == UncroppableCopy(r, copySp)
    ensures o.Dither? ==> o.palette.ColorPalette() == pal && o.r == r && o.at == at
    ensures o.Dither? ==> o.cropped == !sr.Eq(src.bounds)
    ensures o.Dither? ==> o.input == (if o.cropped then sr.Intersect(src.bounds) else src.bounds)
  {
    if !sr.Eq(src.bounds) then
      if !src.canSubImage then UncroppableCopy(r, copySp)
      else Dither(sr.Intersect(src.bounds), true, LinearPalette(pal), r, at)
    else
      Dither(src.bounds, false, LinearPalette(pal), r, at)
  }

  /**
   * Dither211.Draw as written. A destination that is not paletted is always
   * copied plainly and never dithered; a paletted one is dithered with its
   * own palette, except when nothing of r overlaps both images (no work)
   * or when the source would have to be cropped but cannot be (a plain copy).
   * What it dithers lies inside the source, and it is drawn from the origin.
   */
  function Draw(dst: Destination, r: Rect, src: Source, sp: Point): (o: Outcome)
    ensures dst.OtherDst? <==> o.PlainCopy?
    ensures dst.OtherDst? ==> o == PlainCopy(r, sp)
    ensures o.NoOp? <==> dst.PalettedDst? && Clip(r, dst.bounds, src.bounds, sp).Empty()
    ensures o.UncroppableCopy? ==> dst.PalettedDst? && !src.canSubImage && o.r == r
    ensures o.Dither? ==> dst.PalettedDst? && o.palette.ColorPalette() == dst.palette && o.r == r && o.at == Point(0, 0)
    ensures o.Dither? ==> (o.cropped ==> src.canSubImage) && (!src.canSubImage ==> o.input == src.bounds)
    ensures o.Dither? ==> forall q :: o.input.Has(q) ==> src.bounds.Has(q)
  {
    match dst
    case OtherDst(_) => PlainCopy(r, sp)
    case PalettedDst(db, pal) =>
      var ir := Clip(r, db, src.bounds, sp);
      if ir.Empty() then NoOp
      else
        var sp' := ir.min.Sub(r.min);
        Dispatch(pal, r, src, CropAsWritten(ir, r), sp', Point(0, 0))
  }

  /**
   * Draw with the source rectangle of lines 62-64 taken as CropIntended and
   * the caller's sp kept, both for the fallback copy and for drawing the
   * dithered image. It copies plainly and does nothing exactly where Draw
   * does; it falls back when the intended rectangle, rather than the one as
   * written, differs from the source's bounds, so the two can disagree on
   * which sources fall back.
   */
  function DrawIntended(dst: Destination, r: Rect, src: Source, sp: Point): (o: Outcome)
    ensures dst.OtherDst? <==> o.PlainCopy?
    ensures dst.OtherDst? ==> o == PlainCopy(r, sp)
    ensures o.NoOp? <==> Draw(dst, r, src, sp).NoOp?
    ensures o.UncroppableCopy? <==>
      && dst.PalettedDst?
      && !Clip(r, dst.bounds, src.bounds, sp).Empty()
      && !CropIntended(Clip(r, dst.bounds, src.bounds, sp), r, sp).Eq(src.bounds)
      && !src.canSubImage
    ensures o.UncroppableCopy? ==> o == UncroppableCopy(r, sp)
    ensures o.Dither? ==> dst.PalettedDst? && o.palette.ColorPalette() == dst.palette && o.r == r && o.at == sp
    ensures o.Dither? ==> forall q :: o.input.Has(q) ==> src.bounds.Has(q)
  {
    match dst
    case OtherDst(_) => PlainCopy(r, sp)
    case PalettedDst(db, pal) =>
      var ir := Clip(r, db, src.bounds, sp);
      if ir.Empty() then NoOp
      else Dispatch(pal, r, src, CropIntended(ir, r, sp), sp, sp)
  }

  // ---------------------------------------------------------------------
  // Properties of Draw

  /**
   * Lines 57-61: a paletted destination is left alone exactly when no point
   * of r lies in the destination and, moved back by r.Min - sp, in the source.
   */
  lemma DrawNoOpIffNoOverlap(dst: Destination, r: Rect, src: Source, sp: Point)
    requires dst.PalettedDst?
    ensures Draw(dst, r, src, sp).NoOp? <==>
      forall q {:trigger src.bounds.Has(q.Sub(r.min.Sub(sp)))} ::
        !(r.Has(q) && dst.bounds.Has(q) && src.bounds.Has(q.Sub(r.min.Sub(sp))))
  {
    EmptyIffNoPoint(Clip(r, dst.bounds, src.bounds, sp));
  }

  /**
   * Lines 62-73: a paletted destination with work to do falls back to a
   * plain copy exactly when the source rectangle is not the source's bounds
   * and the source cannot be cropped; that copy uses the recomputed sp.
   */
  lemma DrawUncroppableIff(dst: Destination, r: Rect, src: Source, sp: Point)
    requires dst.PalettedDst?
    ensures var ir := Clip(r, dst.bounds, src.bounds, sp);
            Draw(dst, r, src, sp).UncroppableCopy? <==>
              !ir.Empty() && !CropAsWritten(ir, r).Eq(src.bounds) && !src.canSubImage
    ensures var ir := Clip(r, dst.bounds, src.bounds, sp);
            Draw(dst, r, src, sp).UncroppableCopy? ==>
              Draw(dst, r, src, sp) == UncroppableCopy(r, ir.min.Sub(r.min))
  {
  }

  /**
   * Whenever Draw dithers, the rectangle it dithers is the part of the
   * source rectangle of lines 62-64 that lies in the source, whether or not
   * it crops; an uncropped source already has exactly those bounds.
   */
  lemma {:induction false} DrawDithersCrop(dst: Destination, r: Rect, src: Source, sp: Point)
    requires Draw(dst, r, src, sp).Dither?
    ensures Draw(dst, r, src, sp).input == CropAsWritten(Clip(r, dst.bounds, src.bounds, sp), r).Intersect(src.bounds)
  {
    var ir := Clip(r, dst.bounds, src.bounds, sp);
    var sr := CropAsWritten(ir, r);
    assert !sr.Empty();
    if sr.Eq(src.bounds) {
      assert sr == src.bounds;
      assert sr.Intersect(sr) == sr;
    }
  }

  /**
   * The source rectangle as written agrees with the intended one exactly
   * when the caller's sp is ir.Min, which is the case, for instance, when
   * sp and r.Min coincide and r already lies inside both images.
   */
  lemma {:induction false} CropsAgreeIff(ir: Rect, r: Rect, sp: Point)
    ensures CropAsWritten(ir, r) == CropIntended(ir, r, sp) <==> ir.min == sp
  {
    if CropAsWritten(ir, r) == CropIntended(ir, r, sp) {
      assert ir.min.x + (ir.min.x - r.min.x) == ir.min.x + (sp.x - r.min.x);
      assert ir.min.y + (ir.min.y - r.min.y) == ir.min.y + (sp.y - r.min.y);
    }
  }

  /**
   * Line 62 as written: an n x n source at the origin drawn into the middle
   * of a 4n x 4n paletted image, with sp at the source's origin (for n = 5,
   * r is (10,10)-(15,15)). Draw asks for r itself as the source rectangle,
   * which shares no pixel with the source: the crop is the empty image, so
   * nothing is dithered and nothing is drawn. The intended rectangle is the
   * whole source, dithered and drawn from the origin. A source that cannot
   * be cropped makes Draw fall back to a plain copy, while the corrected
   * Draw still dithers it.
   */
  lemma DrawCropMissesSource(pal: seq<Rgba>, n: int)
    requires n > 0
    ensures var dst := PalettedDst(Rect(Point(0, 0), Point(4 * n, 4 * n)), pal);
            var r := Rect(Point(2 * n, 2 * n), Point(3 * n, 3 * n));
            var src := Source(Rect(Point(0, 0), Point(n, n)), true);
            && Draw(dst, r, src, Point(0, 0)) == Dither(ZR, true, LinearPalette(pal), r, Point(0, 0))
            && DrawIntended(dst, r, src, Point(0, 0)) == Dither(src.bounds, false, LinearPalette(pal), r, Point(0, 0))
    ensures var dst := PalettedDst(Rect(Point(0, 0), Point(4 * n, 4 * n)), pal);
            var r := Rect(Point(2 * n, 2 * n), Point(3 * n, 3 * n));
            var src := Source(Rect(Point(0, 0), Point(n, n)), false);
            && Draw(dst, r, src, Point(0, 0)) == UncroppableCopy(r, Point(0, 0))
            && DrawIntended(dst, r, src, Point(0, 0)) == Dither(src.bounds, false, LinearPalette(pal), r, Point(0, 0))
  {
    var o := Point(0, 0);
    var r := Rect(Point(2 * n, 2 * n), Point(3 * n, 3 * n));
    var sb := Rect(o, Point(n, n));
    var db := Rect(o, Point(4 * n, 4 * n));
    assert r.Intersect(db) == r;
    assert sb.Add(r.min.Sub(o)) == r;
    assert r.Intersect(r) == r;
    var ir := Clip(r, db, sb, o);
    assert ir == r;
    assert CropAsWritten(ir, r) == r;
    assert CropIntended(ir, r, o) == sb;
    assert r.Intersect(sb) == ZR;
  }

  /**
   * The corrected Draw dithers exactly the source pixels behind ir: the
   * dithered rectangle is ir moved by sp - r.Min, it is never empty, it
   * lies inside the source's bounds, and every point q of ir is drawn from
   * the dithered pixel q - r.Min + sp, which it holds.
   */
  lemma {:induction false} DrawIntendedCropWithinSource(dst: Destination, r: Rect, src: Source, sp: Point)
    requires DrawIntended(dst, r, src, sp).Dither?
    ensures var o := DrawIntended(dst, r, src, sp);
            var ir := Clip(r, dst.bounds, src.bounds, sp);
            && !o.input.Empty()
            && (forall q {:trigger o.input.Has(q)} :: o.input.Has(q) <==> ir.Has(q.Sub(sp.Sub(r.min))))
            && (forall q :: o.input.Has(q) ==> src.bounds.Has(q))
            && (forall q {:trigger ir.Has(q)} :: ir.Has(q) ==> o.input.Has(q.Sub(r.min).Add(o.at)))
  {
    var o := DrawIntended(dst, r, src, sp);
    var ir := Clip(r, dst.bounds, src.bounds, sp);
    var sr := CropIntended(ir, r, sp);
    IntendedCropInsideSource(ir, r, src.bounds, sp);
    IntendedCropHoldsDrawnPoints(ir, r, sp);
    if sr.Eq(src.bounds) {
      assert !sr.Empty();
    }
    assert o.input == sr;
  }

  /**
   * Every point of the intended source rectangle of a non-empty ir lies in
   * the source, so cropping to it keeps it whole.
   */
  lemma IntendedCropInsideSource(ir: Rect, r: Rect, sb: Rect, sp: Point)
    requires !ir.Empty()
    requires forall q {:trigger ir.Has(q)} :: ir.Has(q) ==> sb.Has(q.Sub(r.min.Sub(sp)))
    ensures !CropIntended(ir, r, sp).Empty()
    ensures CropIntended(ir, r, sp).Intersect(sb) == CropIntended(ir, r, sp)
  {
    var sr := CropIntended(ir, r, sp);
    EmptyIffNoPoint(ir);
    var p :| ir.Has(p);
    assert sr.Has(p.Add(sp.Sub(r.min)));
    forall q | sr.Has(q)
      ensures sb.Has(q)
    {
      assert ir.Has(q.Sub(sp.Sub(r.min)));
      assert q.Sub(sp.Sub(r.min)).Sub(r.min.Sub(sp)) == q;
    }
    EqIffSamePoints(sr.Intersect(sb), sr);
  }

  /** draw.Draw takes point q of ir from q - r.Min + sp, and the intended source rectangle holds it. */
  lemma IntendedCropHoldsDrawnPoints(ir: Rect, r: Rect, sp: Point)
    ensures forall q {:trigger ir.Has(q)} :: ir.Has(q) ==> CropIntended(ir, r, sp).Has(q.Sub(r.min).Add(sp))
  {
    var sr := CropIntended(ir, r, sp);
    forall q | ir.Has(q)
      ensures sr.Has(q.Sub(r.min).Add(sp))
    {
      assert q.Sub(r.min).Add(sp).Sub(sp.Sub(r.min)) == q;
    }
  }
}
