/**
 * The rendering half of the parley example: a glyph run is walked with a
 * running pen position, each glyph is rasterised at its fractional offset
 * with a scaler built from the run's font, and the bitmap is blended into
 * the RGBA image at an integer origin.
 *
 * Positions are `real` (the source uses `f32`); `Floor` is `f32::floor` and
 * `Fract` is `f32::fract`. The rasteriser (swash's `Render::render`) is a
 * parameter: given the run's scaler, a glyph id and the fractional offset of
 * the glyph's position it yields the rendered bitmap, or nothing.
 */
module GlyphRender {
  import opened Bytes
  import opened Image

  datatype Option<T> = None | Some(value: T)

  /** A normalized variation coordinate (swash's `NormalizedCoord`, an `i16`). */
  newtype NormalizedCoord = x: int | -0x8000 <= x < 0x8000

  /** parley's `Font`: the font file's bytes and the font's index in the collection. */
  datatype Font = Font(data: seq<byte>, index: nat)

  /** A shaped glyph: its id, offset from the pen position, and horizontal advance. */
  datatype Glyph = Glyph(id: nat, x: real, y: real, advance: real)

  /**
   * A glyph run as the renderer reads it: run offset, baseline, brush colour,
   * the run's font, font size and normalized coordinates, and its glyphs.
   */
  datatype GlyphRun = GlyphRun(offset: real, baseline: real, brush: Rgba,
                               font: Font, fontSize: real, coords: seq<NormalizedCoord>,
                               glyphs: seq<Glyph>)

  /** swash's `Scaler` as the example builds it: font, size, hinting and coordinates. */
  datatype Scaler = Scaler(font: Font, size: real, hint: bool, coords: seq<NormalizedCoord>)

  /** swash's `Content`: a coverage mask, a subpixel mask, or a colour bitmap. */
  datatype Content = Mask | SubpixelMask | Color

  /** swash's `Placement`: bitmap origin relative to the pen and bitmap size. */
  datatype Placement = Placement(left: int, top: int, width: nat, height: nat)

  /** swash's rendered `Image`. */
  datatype RenderedGlyph = RenderedGlyph(content: Content, placement: Placement, data: seq<byte>)

  /**
   * `Render::render(scaler, id)` with the example's source order and alpha
   * format, at fractional offset (x, y): the rendered glyph, or `None` when
   * swash produces no image.
   */
  type Rasterizer = (Scaler, nat, real, real) -> Option<RenderedGlyph>

  const Width: nat := 1080
  const Height: nat := 720
  const Background: Rgba := Rgba(0x34, 0x34, 0x34, 0xFF)
  const Padding: nat := 1

  // ---------------------------------------------------------------------
  // Pen positions

  /** The sum of the advances of `glyphs`. */
  function Advances(glyphs: seq<Glyph>): real
  {
    if glyphs == [] then 0.0 else Advances(glyphs[..|glyphs| - 1]) + glyphs[|glyphs| - 1].advance
  }

  /** The pen position before glyph `k`: the run offset plus the advances of the glyphs before it. */
  function PenX(run: GlyphRun, k: nat): real
    requires k <= |run.glyphs|
  {
    run.offset + Advances(run.glyphs[..k])
  }

  /** Where glyph `k` is drawn horizontally: pen position, glyph offset and padding. */
  function GlyphX(run: GlyphRun, padding: nat, k: nat): real
    requires k < |run.glyphs|
  {
    PenX(run, k) + run.glyphs[k].x + padding as real
  }

  /** Where glyph `k` is drawn vertically: the glyph's y offset points up, image rows go down. */
  function GlyphY(run: GlyphRun, padding: nat, k: nat): real
    requires k < |run.glyphs|
  {
    run.baseline - run.glyphs[k].y + padding as real
  }

  /** `f32::trunc`: the integer part, rounded toward zero. */
  function Trunc(v: real): int
  {
    if v >= 0.0 then v.Floor else -((-v).Floor)
  }

  /**
   * `f32::fract`, `v - v.trunc()`: an integer is taken away from `v`, leaving
   * a part of magnitude below 1 with the sign of `v` (so a negative position
   * has a negative fractional offset).
   */
  function Fract(v: real): (r: real)
    ensures -1.0 < r < 1.0
    ensures (v - r).Floor as real == v - r
    ensures v >= 0.0 ==> 0.0 <= r && r <= v
    ensures v <= 0.0 ==> r <= 0.0 && v <= r
  {
    v - Trunc(v) as real
  }

  /** The scaler `render_glyph_run` builds once for the run: its font, size and coordinates, hinting on. */
  function RunScaler(run: GlyphRun): Scaler
  {
    Scaler(run.font, run.fontSize, true, run.coords)
  }

  /** What the rasteriser yields for glyph `id` drawn at (glyphX, glyphY) with `scaler`. */
  function Rasterize(raster: Rasterizer, scaler: Scaler, id: nat, glyphX: real, glyphY: real): Option<RenderedGlyph>
  {
    raster(scaler, id, Fract(glyphX), Fract(glyphY))
  }

  /** What the rasteriser yields for glyph `k` of a run. */
  function RunGlyph(raster: Rasterizer, run: GlyphRun, padding: nat, k: nat): Option<RenderedGlyph>
    requires k < |run.glyphs|
  {
    Rasterize(raster, RunScaler(run), run.glyphs[k].id, GlyphX(run, padding, k), GlyphY(run, padding, k))
  }
  /** Advances add up over a concatenation. */
  lemma {:induction false} AdvancesAppend(a: seq<Glyph>, b: seq<Glyph>)
    ensures Advances(a + b) == Advances(a) + Advances(b)
  {
    if b != [] {
      var last := |b| - 1;
      assert (a + b)[..|a + b| - 1] == a + b[..last];
      AdvancesAppend(a, b[..last]);
    } else {
      assert a + b == a;
    }
  }

  /** The pen moves by exactly glyph k's advance from glyph k to glyph k + 1. */
  lemma PenXStep(run: GlyphRun, k: nat)
    requires k < |run.glyphs|
    ensures PenX(run, k + 1) == PenX(run, k) + run.glyphs[k].advance
  {
    assert run.glyphs[..k + 1][..k] == run.glyphs[..k];
  }

  /** Pen positions before glyph k and glyph l differ by the advances of the glyphs between them. */
  lemma PenXBetween(run: GlyphRun, k: nat, l: nat)
    requires k <= l <= |run.glyphs|
    ensures PenX(run, l) == PenX(run, k) + Advances(run.glyphs[k..l])
  {
    assert run.glyphs[..l] == run.glyphs[..k] + run.glyphs[k..l];
    AdvancesAppend(run.glyphs[..k], run.glyphs[k..l]);
  }

  /** With non-negative advances the pen never moves left. */
  lemma {:induction false} AdvancesNonNegative(glyphs: seq<Glyph>)
    requires forall j :: 0 <= j < |glyphs| ==> glyphs[j].advance >= 0.0
    ensures Advances(glyphs) >= 0.0
  {
    if glyphs != [] {
      AdvancesNonNegative(glyphs[..|glyphs| - 1]);
    }
  }

  lemma PenXMonotone(run: GlyphRun, k: nat, l: nat)
    requires k <= l <= |run.glyphs|
    requires forall j :: 0 <= j < |run.glyphs| ==> run.glyphs[j].advance >= 0.0
    ensures PenX(run, k) <= PenX(run, l)
  {
    PenXBetween(run, k, l);
    AdvancesNonNegative(run.glyphs[k..l]);
  }

  // ---------------------------------------------------------------------
  // Blitting one bitmap

  /** The integer blit origin: floor of the draw position, moved by the placement. */
  function OriginX(glyphX: real, p: Placement): int
  {
    glyphX.Floor + p.left
  }

  function OriginY(glyphY: real, p: Placement): int
  {
    glyphY.Floor - p.top
  }

  /**
   * The rows the blit loops visit: `height` rows for a mask; for a colour
   * bitmap, as many whole rows of `width * 4` bytes as the data holds
   * (`chunks_exact`).
   */
  function Rows(g: RenderedGlyph): nat
  {
    if g.content.Color? then
      (if g.placement.width == 0 then 0 else WholeChunks(|g.data|, g.placement.width * 4))
    else g.placement.height
  }

  /** The number of items `chunks_exact(size)` yields from `len` bytes. */
  function WholeChunks(len: nat, size: nat): nat
    requires size > 0
  {
    len / size
  }

  /**
   * What the blit loops need of a bitmap not to panic: it is not a subpixel
   * mask (`unimplemented!()`), a mask has a coverage byte per pixel, and a
   * colour bitmap has a non-zero width (`chunks_exact(0)` panics).
   */
  predicate WellFormed(g: RenderedGlyph)
  {
    && !g.content.SubpixelMask?
    && (g.content.Mask? ==> |g.data| >= g.placement.width * g.placement.height)
    && (g.content.Color? ==> g.placement.width > 0)
  }

  /**
   * A well-formed bitmap whose rectangle at (ox, oy), if it has any pixel,
   * lies inside a width x height image: `get_pixel_mut` panics outside it.
   */
  predicate Blittable(width: nat, height: nat, g: RenderedGlyph, ox: int, oy: int)
  {
    && WellFormed(g)
    && (g.placement.width > 0 && Rows(g) > 0 ==>
          0 <= ox && ox + g.placement.width <= width && 0 <= oy && oy + Rows(g) <= height)
  }

  lemma MulMonotone(a: nat, b: nat, c: nat)
    requires a <= b
    ensures a * c <= b * c
  {
  }

  /** The row-major index of pixel (px, py) of a w x h bitmap is below w * h. */
  lemma RowMajorInRange(px: nat, py: nat, w: nat, h: nat)
    requires px < w && py < h
    ensures py * w + px < w * h
  {
    MulMonotone(py + 1, h, w);
  }

  /** The row-major index determines the pixel: row and column are its quotient and remainder. */
  lemma RowMajorInverse(px: nat, py: nat, w: nat)
    requires px < w
    ensures (py * w + px) / w == py && (py * w + px) % w == px
  {
    var i := py * w + px;
    var q, r := i / w, i % w;
    assert i == q * w + r && 0 <= r < w;
    if q > py {
      MulMonotone(py + 1, q, w);
      assert false;
    } else if q < py {
      MulMonotone(q + 1, py, w);
      assert false;
    }
  }

  /** Distinct pixels of a w-wide mask read distinct coverage bytes `data[py * w + px]`. */
  lemma RowMajorInjective(px: nat, py: nat, qx: nat, qy: nat, w: nat)
    requires px < w && qx < w
    requires px != qx || py != qy
    ensures py * w + px != qy * w + qx
  {
    RowMajorInverse(px, py, w);
    RowMajorInverse(qx, qy, w);
  }

  /** Row py of a colour bitmap ends within its data. */
  lemma ColorRowInData(py: nat, rowSize: nat, len: nat)
    requires rowSize > 0 && py < len / rowSize
    ensures py * rowSize + rowSize <= len
  {
    MulMonotone(py + 1, len / rowSize, rowSize);
  }

  /** The four bytes of pixel (px, py) of a colour bitmap, at byte (py * width + px) * 4. */
  function ColorAt(g: RenderedGlyph, px: nat, py: nat): Rgba
    requires g.content.Color? && WellFormed(g) && px < g.placement.width && py < Rows(g)
  {
    var w := g.placement.width;
    ColorRowInData(py, w * 4, |g.data|);
    var k := (py * w + px) * 4;
    assert k + 4 <= py * (w * 4) + w * 4;
    Rgba(g.data[k], g.data[k + 1], g.data[k + 2], g.data[k + 3])
  }

  /** Pixel px of row py (the row's bytes (py * w * 4)..((py + 1) * w * 4)) is ColorAt(g, px, py). */
  lemma ColorPixelInRow(g: RenderedGlyph, px: nat, py: nat)
    requires g.content.Color? && WellFormed(g) && px < g.placement.width && py < Rows(g)
    ensures var rowSize := g.placement.width * 4;
      py * rowSize + rowSize <= |g.data| &&
      var pixel := g.data[py * rowSize .. py * rowSize + rowSize][px * 4 .. px * 4 + 4];
      ColorAt(g, px, py) == Rgba(pixel[0], pixel[1], pixel[2], pixel[3])
  {
    var w := g.placement.width;
    ColorRowInData(py, w * 4, |g.data|);
    assert py * (w * 4) + px * 4 == (py * w + px) * 4;
  }

  /** The colour of bitmap pixel (px, py): brush colour with the coverage byte, or the bitmap's own RGBA. */
  function SourceAt(g: RenderedGlyph, brush: Rgba, px: nat, py: nat): Rgba
    requires WellFormed(g) && px < g.placement.width && py < Rows(g)
  {
    var w := g.placement.width;
    if g.content.Color? then ColorAt(g, px, py)
    else
      RowMajorInRange(px, py, w, g.placement.height);
      Rgba(brush.r, brush.g, brush.b, g.data[py * w + px])
  }

  /** Whether pixel (x, y) lies in the rectangle of bitmap `g` at (ox, oy). */
  predicate Covers(g: RenderedGlyph, ox: int, oy: int, x: int, y: int)
  {
    ox <= x < ox + g.placement.width && oy <= y < oy + Rows(g)
  }

  /** Pixel (x, y), previously `dst`, after `g` is blitted at (ox, oy). */
  function BlitPixel(blend: BlendFn, g: RenderedGlyph, brush: Rgba, ox: int, oy: int, x: int, y: int, dst: Rgba): Rgba
    requires WellFormed(g)
  {
    if Covers(g, ox, oy, x, y) then blend(dst, SourceAt(g, brush, x - ox, y - oy)) else dst
  }

  /** Whether the rasteriser yielded an image (`unwrap` does not panic) and that image is well formed. */
  predicate Drawable(o: Option<RenderedGlyph>)
  {
    o.Some? && WellFormed(o.value)
  }

  /** Pixel (x, y) after glyph `id` is drawn at (glyphX, glyphY) with `scaler`. */
  function GlyphPixel(blend: BlendFn, raster: Rasterizer, scaler: Scaler, brush: Rgba, id: nat,
                      glyphX: real, glyphY: real, x: int, y: int, dst: Rgba): Rgba
    requires Drawable(Rasterize(raster, scaler, id, glyphX, glyphY))
  {
    var g := Rasterize(raster, scaler, id, glyphX, glyphY).value;
    BlitPixel(blend, g, brush, OriginX(glyphX, g.placement), OriginY(glyphY, g.placement), x, y, dst)
  }

  /** The pixels of the Mask branch visited before (px, py): whole rows above py, then row py up to px. */
  predicate Visited(ox: int, oy: int, w: nat, px: nat, py: nat, x: int, y: int)
  {
    ox <= x < ox + w && oy <= y && (y < oy + py || (y == oy + py && x < ox + px))
  }

  /** The Mask branch: coverage byte `i` of the row-major walk tints pixel (ox + px, oy + py) with the brush. */
  method BlitMask(img: array2<Rgba>, g: RenderedGlyph, brush: Rgba, ox: int, oy: int, blend: BlendFn)
    requires g.content.Mask? && Blittable(img.Length0, img.Length1, g, ox, oy)
    modifies img
    ensures forall x, y | InImage(img, x, y) :: img[x, y] == BlitPixel(blend, g, brush, ox, oy, x, y, old(img[x, y]))
  {
    var w := g.placement.width;
    var h := g.placement.height;
    var i := 0;
    var py := 0;
    while py < h
      invariant py <= h && i == py * w
      invariant forall x, y | InImage(img, x, y) ::
        img[x, y] == if Visited(ox, oy, w, 0, py, x, y)
                     then blend(old(img[x, y]), SourceAt(g, brush, x - ox, y - oy))
                     else old(img[x, y])
    {
      var px := 0;
      while px < w
        invariant px <= w && i == py * w + px
        invariant forall x, y | InImage(img, x, y) ::
          img[x, y] == if Visited(ox, oy, w, px, py, x, y)
                       then blend(old(img[x, y]), SourceAt(g, brush, x - ox, y - oy))
                       else old(img[x, y])
      {
        var x := ox + px;
        var y := oy + py;
        RowMajorInRange(px, py, w, h);
        var alpha := g.data[i];
        var color := Rgba(brush.r, brush.g, brush.b, alpha);
        assert color == SourceAt(g, brush, px, py);
        img[x, y] := blend(img[x, y], color);
        i := i + 1;
        px := px + 1;
      }
      py := py + 1;
    }
  }

  /** The Color branch: each 4-byte pixel of each `width * 4`-byte row is blended as it is; the brush plays no part. */
  method BlitColor(img: array2<Rgba>, g: RenderedGlyph, ox: int, oy: int, blend: BlendFn)
    requires g.content.Color? && Blittable(img.Length0, img.Length1, g, ox, oy)
    modifies img
    ensures forall brush: Rgba, x, y | InImage(img, x, y) ::
      img[x, y] == BlitPixel(blend, g, brush, ox, oy, x, y, old(img[x, y]))
  {
    var w := g.placement.width;
    var rowSize := w * 4;
    var rows := |g.data| / rowSize;
    var py := 0;
    while py < rows
      invariant py <= rows
      invariant forall x, y | InImage(img, x, y) ::
        img[x, y] == if Visited(ox, oy, w, 0, py, x, y)
                     then blend(old(img[x, y]), ColorAt(g, x - ox, y - oy))
                     else old(img[x, y])
    {
      ColorRowInData(py, rowSize, |g.data|);
      var row := g.data[py * rowSize .. py * rowSize + rowSize];
      var cols := |row| / 4;
      var px := 0;
      while px < cols
        invariant px <= cols == w
        invariant forall x, y | InImage(img, x, y) ::
          img[x, y] == if Visited(ox, oy, w, px, py, x, y)
                       then blend(old(img[x, y]), ColorAt(g, x - ox, y - oy))
                       else old(img[x, y])
      {
        var pixel := row[px * 4 .. px * 4 + 4];
        ColorPixelInRow(g, px, py);
        var color := Rgba(pixel[0], pixel[1], pixel[2], pixel[3]);
        var x := ox + px;
        var y := oy + py;
        img[x, y] := blend(img[x, y], color);
        px := px + 1;
      }
      py := py + 1;
    }
  }


  /**
   * `render_glyph`: rasterise at the fractional offset, unwrap the result,
   * then blend the bitmap into `img`.
   */
  method RenderGlyph(img: array2<Rgba>, raster: Rasterizer, scaler: Scaler, brush: Rgba, glyph: Glyph,
                     glyphX: real, glyphY: real, blend: BlendFn)
    requires var o := Rasterize(raster, scaler, glyph.id, glyphX, glyphY);
      o.Some? && Blittable(img.Length0, img.Length1, o.value, OriginX(glyphX, o.value.placement), OriginY(glyphY, o.value.placement))
    modifies img
    ensures forall x, y | InImage(img, x, y) ::
      img[x, y] == GlyphPixel(blend, raster, scaler, brush, glyph.id, glyphX, glyphY, x, y, old(img[x, y]))
  {
    var rendered := raster(scaler, glyph.id, Fract(glyphX), Fract(glyphY));
    var g := rendered.value;
    var ox := glyphX.Floor + g.placement.left;
    var oy := glyphY.Floor - g.placement.top;
    match g.content
    case Mask =>
      BlitMask(img, g, brush, ox, oy, blend);
    case SubpixelMask =>
      assert false;
    case Color =>
      BlitColor(img, g, ox, oy, blend);
  }

  // ---------------------------------------------------------------------
  // Runs and layouts

  /** Every glyph of the run rasterises to a bitmap that can be blitted into a width x height image. */
  predicate RunFits(width: nat, height: nat, raster: Rasterizer, run: GlyphRun, padding: nat)
  {
    forall k :: 0 <= k < |run.glyphs| ==>
      var o := RunGlyph(raster, run, padding, k);
      o.Some? && Blittable(width, height, o.value, OriginX(GlyphX(run, padding, k), o.value.placement),
                           OriginY(GlyphY(run, padding, k), o.value.placement))
  }

  /** Whether every glyph of the run rasterises to a well-formed bitmap. */
  predicate RunWellFormed(raster: Rasterizer, run: GlyphRun, padding: nat)
  {
    forall k :: 0 <= k < |run.glyphs| ==> Drawable(RunGlyph(raster, run, padding, k))
  }

  /** Pixel (x, y), previously `dst`, after the first `k` glyphs of the run are drawn in order. */
  function RunPixel(blend: BlendFn, raster: Rasterizer, run: GlyphRun, padding: nat, k: nat,
                    x: int, y: int, dst: Rgba): Rgba
    requires k <= |run.glyphs| && RunWellFormed(raster, run, padding)
  {
    if k == 0 then dst
    else
      assert Drawable(RunGlyph(raster, run, padding, k - 1));
      GlyphPixel(blend, raster, RunScaler(run), run.brush, run.glyphs[k - 1].id,
                 GlyphX(run, padding, k - 1), GlyphY(run, padding, k - 1),
                 x, y, RunPixel(blend, raster, run, padding, k - 1, x, y, dst))
  }

  /**
   * `render_glyph_run`: one scaler is built from the run's font, size and
   * coordinates; the pen starts at the run offset and moves by each glyph's
   * advance after the glyph is placed.
   */
  method RenderGlyphRun(img: array2<Rgba>, raster: Rasterizer, run: GlyphRun, padding: nat, blend: BlendFn)
    requires RunFits(img.Length0, img.Length1, raster, run, padding)
    modifies img
    ensures RunWellFormed(raster, run, padding)
    ensures forall x, y | InImage(img, x, y) ::
      img[x, y] == RunPixel(blend, raster, run, padding, |run.glyphs|, x, y, old(img[x, y]))
  {
    var runX := run.offset;
    var runY := run.baseline;
    var color := run.brush;
    var scaler := Scaler(run.font, run.fontSize, true, run.coords);
    var k := 0;
    while k < |run.glyphs|
      invariant k <= |run.glyphs|
      invariant runX == PenX(run, k)
      invariant forall x, y | InImage(img, x, y) ::
        img[x, y] == RunPixel(blend, raster, run, padding, k, x, y, old(img[x, y]))
    {
      var glyph := run.glyphs[k];
      var glyphX := runX + glyph.x + padding as real;
      var glyphY := runY - glyph.y + padding as real;
      PenXStep(run, k);
      runX := runX + glyph.advance;
      assert glyphX == GlyphX(run, padding, k) && glyphY == GlyphY(run, padding, k);
      RenderGlyph(img, raster, scaler, color, glyph, glyphX, glyphY, blend);
      k := k + 1;
    }
  }

  /** Whether two rasterisers yield the same for every glyph and offset under `scaler`. */
  ghost predicate AgreeOn(raster: Rasterizer, other: Rasterizer, scaler: Scaler)
  {
    forall id, fx, fy :: raster(scaler, id, fx, fy) == other(scaler, id, fx, fy)
  }

  /**
   * Drawing a run consults the rasteriser only through the run's own scaler:
   * rasterisers that agree on it draw the run identically, whatever they do
   * for other fonts, sizes or coordinates.
   */
  lemma {:induction false} RunUsesOwnScaler(blend: BlendFn, raster: Rasterizer, other: Rasterizer, run: GlyphRun,
                                            padding: nat, k: nat, x: int, y: int, dst: Rgba)
    requires k <= |run.glyphs| && RunWellFormed(raster, run, padding)
    requires AgreeOn(raster, other, RunScaler(run))
    ensures RunWellFormed(other, run, padding)
    ensures RunPixel(blend, other, run, padding, k, x, y, dst) == RunPixel(blend, raster, run, padding, k, x, y, dst)
  {
    assert forall j :: 0 <= j < |run.glyphs| ==> RunGlyph(other, run, padding, j) == RunGlyph(raster, run, padding, j);
    if k > 0 {
      RunUsesOwnScaler(blend, raster, other, run, padding, k - 1, x, y, dst);
    }
  }

  /**
   * A run whose glyphs all rasterise to colour bitmaps (emoji) renders the
   * same whatever its brush: the brush only tints coverage masks.
   */
  lemma {:induction false} ColorRunIgnoresBrush(blend: BlendFn, raster: Rasterizer, run: GlyphRun, padding: nat,
                                                brush: Rgba, k: nat, x: int, y: int, dst: Rgba)
    requires k <= |run.glyphs| && RunWellFormed(raster, run, padding)
    requires forall j :: 0 <= j < |run.glyphs| ==>
      RunGlyph(raster, run, padding, j).Some? && RunGlyph(raster, run, padding, j).value.content.Color?
    ensures RunWellFormed(raster, run.(brush := brush), padding)
    ensures RunPixel(blend, raster, run.(brush := brush), padding, k, x, y, dst)
         == RunPixel(blend, raster, run, padding, k, x, y, dst)
  {
    var other := run.(brush := brush);
    forall j | 0 <= j < |run.glyphs|
      ensures RunGlyph(raster, other, padding, j) == RunGlyph(raster, run, padding, j)
    {
      RunGlyphIgnoresBrush(raster, run, padding, brush, j);
    }
    if k > 0 {
      ColorRunIgnoresBrush(blend, raster, run, padding, brush, k - 1, x, y, dst);
      var g := RunGlyph(raster, run, padding, k - 1).value;
      RunGlyphIgnoresBrush(raster, run, padding, brush, k - 1);
      ColorBlitIgnoresBrush(blend, g, brush, run.brush, OriginX(GlyphX(run, padding, k - 1), g.placement),
                            OriginY(GlyphY(run, padding, k - 1), g.placement), x, y,
                            RunPixel(blend, raster, run, padding, k - 1, x, y, dst));
    }
  }

  /** Changing a run's brush changes neither its scaler nor where its glyphs are drawn. */
  lemma RunGlyphIgnoresBrush(raster: Rasterizer, run: GlyphRun, padding: nat, brush: Rgba, j: nat)
    requires j < |run.glyphs|
    ensures GlyphX(run.(brush := brush), padding, j) == GlyphX(run, padding, j)
    ensures GlyphY(run.(brush := brush), padding, j) == GlyphY(run, padding, j)
    ensures RunGlyph(raster, run.(brush := brush), padding, j) == RunGlyph(raster, run, padding, j)
  {
  }

  /** A colour bitmap blits the same with any brush. */
  lemma ColorBlitIgnoresBrush(blend: BlendFn, g: RenderedGlyph, brush: Rgba, other: Rgba, ox: int, oy: int,
                              x: int, y: int, dst: Rgba)
    requires g.content.Color? && WellFormed(g)
    ensures BlitPixel(blend, g, brush, ox, oy, x, y, dst) == BlitPixel(blend, g, other, ox, oy, x, y, dst)
  {
  }

  /** Whether glyph `k` of the run yields a bitmap that covers pixel (x, y). */
  predicate GlyphCovers(raster: Rasterizer, run: GlyphRun, padding: nat, k: nat, x: int, y: int)
    requires k < |run.glyphs|
  {
    var o := RunGlyph(raster, run, padding, k);
    o.Some? && Covers(o.value, OriginX(GlyphX(run, padding, k), o.value.placement),
                      OriginY(GlyphY(run, padding, k), o.value.placement), x, y)
  }

  /** A pixel that none of the first `k` glyphs covers keeps its value. */
  lemma {:induction false} RunPixelOutside(blend: BlendFn, raster: Rasterizer, run: GlyphRun, padding: nat,
                                           k: nat, x: int, y: int, dst: Rgba)
    requires k <= |run.glyphs| && RunWellFormed(raster, run, padding)
    requires forall j :: 0 <= j < k ==> !GlyphCovers(raster, run, padding, j, x, y)
    ensures RunPixel(blend, raster, run, padding, k, x, y, dst) == dst
  {
    if k > 0 {
      RunPixelOutside(blend, raster, run, padding, k - 1, x, y, dst);
      assert !GlyphCovers(raster, run, padding, k - 1, x, y);
    }
  }

  /** Every run of the list rasterises to well-formed bitmaps. */
  predicate RunsWellFormed(raster: Rasterizer, runs: seq<GlyphRun>, padding: nat)
  {
    forall r :: 0 <= r < |runs| ==> RunWellFormed(raster, runs[r], padding)
  }

  /** Pixel (x, y), previously `dst`, after the first `n` runs are rendered in order. */
  function LayoutPixel(blend: BlendFn, raster: Rasterizer, runs: seq<GlyphRun>, padding: nat, n: nat,
                       x: int, y: int, dst: Rgba): Rgba
    requires n <= |runs| && RunsWellFormed(raster, runs, padding)
  {
    if n == 0 then dst
    else RunPixel(blend, raster, runs[n - 1], padding, |runs[n - 1].glyphs|, x, y,
                  LayoutPixel(blend, raster, runs, padding, n - 1, x, y, dst))
  }

  /**
   * The loop over the laid-out lines and their glyph runs; `runs` lists the
   * glyph runs of all lines in line order.
   */
  method RenderLayout(img: array2<Rgba>, raster: Rasterizer, runs: seq<GlyphRun>, padding: nat, blend: BlendFn)
    requires forall r :: 0 <= r < |runs| ==> RunFits(img.Length0, img.Length1, raster, runs[r], padding)
    modifies img
    ensures RunsWellFormed(raster, runs, padding)
    ensures forall x, y | InImage(img, x, y) ::
      img[x, y] == LayoutPixel(blend, raster, runs, padding, |runs|, x, y, old(img[x, y]))
  {
    var n := 0;
    while n < |runs|
      invariant n <= |runs|
      invariant RunsWellFormed(raster, runs[..n], padding)
      invariant forall x, y | InImage(img, x, y) ::
        img[x, y] == LayoutPixel(blend, raster, runs[..n], padding, n, x, y, old(img[x, y]))
    {
      RenderGlyphRun(img, raster, runs[n], padding, blend);
      LayoutPixelPrefix(blend, raster, runs, padding, n, n);
      LayoutPixelPrefix(blend, raster, runs, padding, n + 1, n + 1);
      LayoutPixelPrefix(blend, raster, runs, padding, n + 1, n);
      n := n + 1;
    }
    assert runs[..n] == runs;
  }

  /** LayoutPixel over the first m runs does not depend on the runs after them. */
  lemma {:induction false} LayoutPixelPrefix(blend: BlendFn, raster: Rasterizer, runs: seq<GlyphRun>, padding: nat,
                                             n: nat, m: nat)
    requires m <= n <= |runs| && RunsWellFormed(raster, runs, padding)
    ensures RunsWellFormed(raster, runs[..n], padding)
    ensures forall x, y, dst :: LayoutPixel(blend, raster, runs[..n], padding, m, x, y, dst)
                            == LayoutPixel(blend, raster, runs, padding, m, x, y, dst)
  {
    assert RunsWellFormed(raster, runs[..n], padding);
    if m > 0 {
      LayoutPixelPrefix(blend, raster, runs, padding, n, m - 1);
      assert runs[..n][m - 1] == runs[m - 1];
    }
  }

  /** A pixel that no glyph of any run covers keeps its value. */
  lemma {:induction false} LayoutPixelOutside(blend: BlendFn, raster: Rasterizer, runs: seq<GlyphRun>, padding: nat,
                                              n: nat, x: int, y: int, dst: Rgba)
    requires n <= |runs| && RunsWellFormed(raster, runs, padding)
    requires forall r, j :: 0 <= r < n && 0 <= j < |runs[r].glyphs| ==> !GlyphCovers(raster, runs[r], padding, j, x, y)
    ensures LayoutPixel(blend, raster, runs, padding, n, x, y, dst) == dst
  {
    if n > 0 {
      LayoutPixelOutside(blend, raster, runs, padding, n - 1, x, y, dst);
      RunPixelOutside(blend, raster, runs[n - 1], padding, |runs[n - 1].glyphs|, x, y, dst);
    }
  }

  /** The example's rendering: a 1080 x 720 image filled with the background colour, then every run, with padding 1. */
  method RenderText(raster: Rasterizer, runs: seq<GlyphRun>, blend: BlendFn) returns (img: array2<Rgba>)
    requires forall r :: 0 <= r < |runs| ==> RunFits(Width, Height, raster, runs[r], Padding)
    ensures fresh(img) && img.Length0 == Width && img.Length1 == Height
    ensures RunsWellFormed(raster, runs, Padding)
    ensures forall x, y | InImage(img, x, y) ::
      img[x, y] == LayoutPixel(blend, raster, runs, Padding, |runs|, x, y, Background)
  {
    img := FromPixel(Width, Height, Background);
    RenderLayout(img, raster, runs, Padding, blend);
  }
}
