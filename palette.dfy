/**
 * Colours and palettes. A colour is the four 16-bit channels that Go's
 * color.Color.RGBA() yields (alpha-premultiplied, each in 0..0xffff); a
 * palette is an ordered sequence of such colours, and a colour's index is
 * the position of its nearest entry (color.Palette.Index, called at
 * quant.go line 119).
 */
module Palettes {

  /** A 16-bit colour channel, the range of color.RGBA64's fields. */
  type Channel = c: int | 0 <= c <= 0xffff

  /** color.RGBA64, or the four values RGBA() returns for a palette entry. */
  datatype Rgba = Rgba(r: Channel, g: Channel, b: Channel, a: Channel)

  function SqDiff(x: Channel, y: Channel): nat {
    (x - y) * (x - y)
  }

  /** Squared Euclidean distance over all four channels. */
  function SqDist(c: Rgba, v: Rgba): nat {
    SqDiff(c.r, v.r) + SqDiff(c.g, v.g) + SqDiff(c.b, v.b) + SqDiff(c.a, v.a)
  }

  /**
   * i is the index Palette.Index returns for c: no entry is nearer, and every
   * earlier entry is strictly farther (ties go to the lowest index).
   */
  ghost predicate IsNearest(p: seq<Rgba>, c: Rgba, i: nat) {
    && i < |p|
    && (forall j {:trigger SqDist(c, p[j])} :: 0 <= j < |p| ==> SqDist(c, p[i]) <= SqDist(c, p[j]))
    && (forall j {:trigger SqDist(c, p[j])} :: 0 <= j < i ==> SqDist(c, p[i]) < SqDist(c, p[j]))
  }

  /**
   * The linear scan from entry k on, with best the nearest entry among the
   * first k; a later entry replaces best only when strictly nearer.
   */
  function NearestFrom(p: seq<Rgba>, c: Rgba, k: nat, best: nat): (i: nat)
    requires best < k <= |p|
    ensures i < |p|
    decreases |p| - k
  {
    if k == |p| then best
    else if SqDist(c, p[k]) < SqDist(c, p[best]) then NearestFrom(p, c, k + 1, k)
    else NearestFrom(p, c, k + 1, best)
  }

  /** color.Palette.Index: the exhaustive scan over a non-empty palette. */
  function Nearest(p: seq<Rgba>, c: Rgba): (i: nat)
    requires |p| > 0
    ensures i < |p|
  {
    NearestFrom(p, c, 1, 0)
  }

  lemma {:induction false} NearestFromIsNearest(p: seq<Rgba>, c: Rgba, k: nat, best: nat)
    requires best < k <= |p|
    requires forall j :: 0 <= j < k ==> SqDist(c, p[best]) <= SqDist(c, p[j])
    requires forall j :: 0 <= j < best ==> SqDist(c, p[best]) < SqDist(c, p[j])
    ensures IsNearest(p, c, NearestFrom(p, c, k, best))
    decreases |p| - k
  {
    if k < |p| {
      if SqDist(c, p[k]) < SqDist(c, p[best]) {
        NearestFromIsNearest(p, c, k + 1, k);
      } else {
        NearestFromIsNearest(p, c, k + 1, best);
      }
    }
  }

  /** The scan meets the reference behaviour: Nearest returns the nearest entry, ties going to the lowest index. */
  lemma NearestIsNearest(p: seq<Rgba>, c: Rgba)
    requires |p| > 0
    ensures IsNearest(p, c, Nearest(p, c))
  {
    NearestFromIsNearest(p, c, 1, 0);
  }

  /**
   * The lookup is deterministic in the strong sense: only one index meets
   * the reference behaviour, so any implementation that meets it returns
   * the index Nearest does.
   */
  lemma NearestIsUnique(p: seq<Rgba>, c: Rgba, i: nat)
    requires |p| > 0
    requires IsNearest(p, c, i)
    ensures i == Nearest(p, c)
  {
    NearestIsNearest(p, c);
  }

  lemma SqDistZero(c: Rgba, v: Rgba)
    ensures SqDist(c, v) == 0 <==> c == v
  {
    if SqDist(c, v) == 0 {
      SqDiffZero(c.r, v.r);
      SqDiffZero(c.g, v.g);
      SqDiffZero(c.b, v.b);
      SqDiffZero(c.a, v.a);
    }
  }

  lemma SqDiffZero(x: Channel, y: Channel)
    ensures SqDiff(x, y) == 0 <==> x == y
  {
    if x != y {
      SquarePositive(x - y);
    }
  }

  lemma SquarePositive(d: int)
    requires d != 0
    ensures d * d > 0
  {
  }

  /**
   * A colour that is itself an entry of the palette is mapped to its own
   * first occurrence.
   */
  lemma NearestOfEntry(p: seq<Rgba>, k: nat)
    requires k < |p|
    ensures p[Nearest(p, p[k])] == p[k]
    ensures Nearest(p, p[k]) <= k
    ensures forall j :: 0 <= j < Nearest(p, p[k]) ==> p[j] != p[k]
  {
    var c := p[k];
    var n := Nearest(p, c);
    NearestIsNearest(p, c);
    SqDistZero(c, c);
    assert SqDist(c, p[n]) <= SqDist(c, p[k]) == 0;
    SqDistZero(c, p[n]);
    forall j | 0 <= j < n
      ensures p[j] != c
    {
      SqDistZero(c, p[j]);
    }
  }

  /**
   * LinearPalette: a color.Palette wrapped to satisfy the package's Palette
   * interface, without any acceleration structure.
   */
  datatype LinearPalette = LinearPalette(palette: seq<Rgba>) {

    /** LinearPalette.ColorPalette: the wrapped colour list, entry for entry. */
    function ColorPalette(): (cp: seq<Rgba>)
      ensures |cp| == |palette|
      ensures forall j :: 0 <= j < |cp| ==> cp[j] == palette[j]
    {
      palette
    }
  }

  /**
   * Wrapping a palette and asking for its colour list are inverse: Draw
   * wraps the destination's palette and dither211 unwraps it again.
   */
  lemma ColorPaletteRoundTrip(cp: seq<Rgba>, lp: LinearPalette)
    ensures LinearPalette(cp).ColorPalette() == cp
    ensures LinearPalette(lp.ColorPalette()) == lp
  {
  }
}
