# parley_cosmic: the integer and buffer bookkeeping of two text renderers

The repository has two example programs that render a list of styled text
spans into a 1080 x 720 RGBA image:

- `examples/parley.rs` lays the text out with parley, then rasterises each
  glyph with swash and blends the bitmap into an `image::RgbaImage`.
- `examples/cosmic.rs` lets cosmic-text call back with one-colour rectangles
  and blends each rectangle into the image.

Fonts, shaping, line breaking and rasterising are done by libraries. This
model covers what the examples compute themselves:

- **StyleQueue** (`style_queue.dfy`). The span loop of parley's `main`. It
  appends each span's text to `full_text` and queues `(style, start..end)`
  for every style of the span. The text is UTF-8 bytes, because Rust's
  `str::len` counts bytes. `String::insert_str` is modelled with its
  char-boundary precondition.
- **GlyphRender** (`glyph_render.dfy`). Covers `render_glyph_run`,
  `render_glyph` and the loop over the layout's glyph runs.
  - A running pen `run_x` gives each glyph its draw position. The glyph's
    advance is added after that position is computed.
  - Each run carries its font, font size and normalized coordinates. The
    scaler built from them once per run is passed to the rasteriser.
  - The rasteriser is a parameter. It receives the scaler, the glyph id and
    `fract` of the position, which is negative for a negative position. It
    may yield no image, where the source's `unwrap` panics.
  - The blit origin is `floor(x) + left`, `floor(y) - top`.
  - A coverage mask is blended pixel by pixel, tinted with the run's brush.
  - A colour bitmap is blended with its own RGBA values.
  - A subpixel mask is a fault.
- **CosmicDraw** (`cosmic_draw.dfy`). The image is filled with the
  background colour. Then the draw callback blends each `w x h` rectangle at
  clamped coordinates.
- **Image** (`image.dfy`). Holds the pixel type, `RgbaImage::from_pixel`,
  and `Pixel::blend`. `Pixel::blend` is a function parameter
  `blend(dst, src)` that the model treats as uninterpreted. Nothing proved
  here depends on its arithmetic.

The image is a two-dimensional array, indexed `img[x, y]` like
`get_pixel_mut(x, y)`, and the methods change it in place. Each method's
postcondition gives every pixel's new value as a function of its old value:

- `BlitPixel` for one bitmap.
- `RunPixel` for a glyph run.
- `LayoutPixel` for all runs.
- `CallPixel` for one cosmic callback.
- `DrawnPixel` for all callbacks.

Lemmas about these functions state what the examples promise.

Three behaviours of the code shape the model:

- **No clipping in parley.** `get_pixel_mut` panics outside the image, and
  the parley code does not clip before calling it. The model therefore
  requires each glyph rectangle to lie inside the image.
- **Clamping, not clipping, in cosmic.** The cosmic code clamps coordinates
  to the last column and row. A rectangle that reaches past the right or
  bottom edge is blended repeatedly onto the last column or row.
  `HitsAtEdge` states how many times.
- **Colour bitmap rows.** A colour bitmap has as many rows as
  `chunks_exact(width * 4)` yields: the number of whole rows its data holds,
  whatever `height` says. A zero width makes `chunks_exact` panic, so the
  model requires a non-zero width.

## Model

| member | source | states |
|---|---|---|
| StyleQueue.InsertStr | examples/parley.rs:146 | `insert_str` at a char boundary keeps the text before it, puts `s` there, and keeps the rest after it; the length grows by the length of `s` |
| StyleQueue.InsertAtEndAppends | examples/parley.rs:144-146 | inserting at `full_text.len()` is appending |
| StyleQueue.BuildStyleQueue | examples/parley.rs:138-150 | the loop yields the in-order concatenation of the span texts and exactly the queue `Queue(spans)` |
| StyleQueue.ConcatPrefix | examples/parley.rs:142-146 | the text built from the first k spans is a prefix of the full text (the text only grows by appending) |
| StyleQueue.ConcatStep | examples/parley.rs:144-146 | after span k, the text is the text before it followed by span k's text |
| StyleQueue.SpanRangeText | examples/parley.rs:144-146 | span k's range `[len_before, len_before + s.len())` lies within the text and picks out exactly span k's text |
| StyleQueue.SpanRangesTile | examples/parley.rs:144-145 | consecutive spans' ranges are adjacent; the first starts at 0 and the last ends at `full_text.len()` |
| StyleQueue.QueueLength | examples/parley.rs:147-149 | the queue has one entry per style of every span; spans without styles add none |
| StyleQueue.QueueAt | examples/parley.rs:147-149 | style m of span k is entry `StyleCount(spans[..k]) + m` and carries exactly span k's range: span order, then style order |
| StyleQueue.QueueRangesInBounds | examples/parley.rs:144-148 | every queued range satisfies `start <= end <= full_text.len()` |
| GlyphRender.AdvancesAppend | examples/parley.rs:245-248 | the accumulated advance over two consecutive groups of glyphs is the sum of both |
| GlyphRender.PenXStep | examples/parley.rs:246-248 | the pen before glyph k+1 is the pen before glyph k plus glyph k's advance (added after glyph k is placed) |
| GlyphRender.PenXBetween | examples/parley.rs:219-248 | the pen before glyph l is the pen before glyph k plus the advances of glyphs k..l |
| GlyphRender.AdvancesNonNegative | examples/parley.rs:248 | advances that are all non-negative add up to a non-negative amount |
| GlyphRender.PenXMonotone | examples/parley.rs:219-248 | with non-negative advances the pen never moves left |
| GlyphRender.RowMajorInRange | examples/parley.rs:289-298 | the coverage index `py * width + px` of every bitmap pixel is below `width * height` |
| GlyphRender.RowMajorInverse | examples/parley.rs:290-298 | the coverage index determines the pixel: `py` and `px` are its quotient and remainder by `width` |
| GlyphRender.RowMajorInjective | examples/parley.rs:290-298 | two distinct pixels of a mask read two distinct coverage bytes `data[py * width + px]` |
| GlyphRender.ColorRowInData | examples/parley.rs:304-305 | every row that `chunks_exact(width * 4)` yields ends within the data |
| GlyphRender.ColorPixelInRow | examples/parley.rs:304-309 | pixel px of row py is the four bytes at `(py * width + px) * 4` |
| GlyphRender.BlitMask | examples/parley.rs:289-300 | canvas pixel `(ox + px, oy + py)` becomes `blend(old, [brush.r, brush.g, brush.b, data[py * width + px]])` for each pixel of the `width x height` rectangle, all other pixels unchanged; its loops keep the counter `i` equal to `py * width + px` |
| GlyphRender.BlitColor | examples/parley.rs:303-313 | canvas pixel `(ox + px, oy + py)` becomes `blend(old, data[(py * width + px) * 4 .. + 4])` for every brush; all other pixels are unchanged |
| GlyphRender.Fract | examples/parley.rs:264 | `fract` takes an integer away from the position and leaves a part of magnitude below 1 with the position's sign, never larger in magnitude than the position |
| GlyphRender.RenderGlyph | examples/parley.rs:254-315 | asks the rasteriser for the glyph under the given scaler at `(fract(x), fract(y))`, requires an image (the `unwrap` at line 281 panics on none), blits it at `(floor(x) + left, floor(y) - top)`, and changes only the pixels inside that rectangle; a subpixel mask is excluded as the `unimplemented!()` fault |
| GlyphRender.RenderGlyphRun | examples/parley.rs:212-252 | every glyph is rasterised with the one scaler built from the run's font, size and normalized coordinates with hinting on; the pen starts at the run offset; glyph k is drawn at `offset + advances before k + glyph.x + padding` and `baseline - glyph.y + padding`; every glyph is blended in run order |
| GlyphRender.RunUsesOwnScaler | examples/parley.rs:226-250 | a run's rendering depends on the rasteriser only through the run's own scaler: rasterisers that agree on it draw the run identically |
| GlyphRender.ColorRunIgnoresBrush | examples/parley.rs:303-312 | a run whose glyphs are all colour bitmaps renders the same with any brush |
| GlyphRender.RunPixelOutside | examples/parley.rs:285-313 | a pixel that no glyph rectangle of the run covers keeps its value |
| GlyphRender.LayoutPixelPrefix | examples/parley.rs:189-194 | the image after the first m runs does not depend on the runs after them |
| GlyphRender.RenderLayout | examples/parley.rs:189-194 | the runs of all lines are rendered in order, each with its own font, size and coordinates, onto the result of the previous ones |
| GlyphRender.LayoutPixelOutside | examples/parley.rs:186-194 | a pixel that no glyph of any run covers keeps its value, the background colour on the example's image |
| GlyphRender.RenderText | examples/parley.rs:184-194 | a fresh 1080 x 720 image in the background colour, with every run rendered onto it with padding 1 |
| Image.FromPixel | examples/cosmic.rs:111 | a fresh `width x height` image with every pixel equal to the fill colour |
| CosmicDraw.DrawRect | examples/cosmic.rs:113-123 | each pixel `(px, py)` is blended with the callback colour exactly once for each `(i, j)` in `0..w x 0..h` with `min(x + i, width - 1) == px` and `min(y + j, height - 1) == py`; no write is out of bounds |
| CosmicDraw.Draw | examples/cosmic.rs:113 | the callbacks are applied in order, each onto the result of the previous ones |
| CosmicDraw.Render | examples/cosmic.rs:105-123 | a fresh 1080 x 720 image in the background colour, with every callback applied to it |
| CosmicDraw.HitsBeforeEdge | examples/cosmic.rs:117-118 | a column (or row) before the last is written once if the rectangle spans it and never otherwise |
| CosmicDraw.HitsAtEdge | examples/cosmic.rs:117-118 | every offset with `x + i >= width - 1` lands on the last column (and likewise for rows), so positions beyond the edge are re-blended there instead of being discarded |
| CosmicDraw.HitsOutside | examples/cosmic.rs:117-120 | no offset writes to a column or row outside the image |
| CosmicDraw.HitsBelowStep | examples/cosmic.rs:116-117 | one more offset adds one write, to the coordinate it clamps to |
| CosmicDraw.HitsTotal | examples/cosmic.rs:115-118 | the writes over all columns add up to `w`, one per offset `i` (likewise `h` for rows) |
| CosmicDraw.HitsPositive | examples/cosmic.rs:116-117 | a column is written exactly when some offset in `0..w` clamps to it |
| CosmicDraw.TouchesIffHit | examples/cosmic.rs:115-120 | the callback writes to a pixel exactly when both its column and its row are hit |
| CosmicDraw.UntouchedKeepsPixel | examples/cosmic.rs:111-123 | a pixel that no callback writes to keeps its value, which is the background colour on the example's image |

## Left out

- PNG encoding, building the output path and creating the file
  (`examples/parley.rs:196-209`, `examples/cosmic.rs:125-138`). These are
  file I/O.
- Font, layout and scale contexts are not modelled. Neither are the ranged
  builder (`push_default`, `push`, `build`, `break_all_lines`) nor
  cosmic-text's `FontSystem`, `Buffer` and `set_rich_text`. These are
  shaping and layout libraries outside this code. The runs that the layout
  yields, line by line, are the input `runs` of `RenderLayout`. The
  callbacks that `Buffer::draw` makes are the input `calls` of `Draw`.
- Applying the style queue to the builder (`examples/parley.rs:171-173`) is
  a call into the layout library.
- What swash's scaler does with its settings and how `Render::render`
  rasterises, with its source order and alpha format
  (`examples/parley.rs:236-242`, `examples/parley.rs:267-281`), is a foreign
  rasteriser. It is the `Rasterizer` parameter. The scaler is a `Scaler`
  value that records the font, size, hinting flag and coordinates.
  Parsing the font data with `FontRef::from_index` and the `unwrap` on its
  result (`examples/parley.rs:233`) are left out: the font's bytes are
  carried along unparsed.
- `Pixel::blend` arithmetic is not modelled. It is a float-based function of
  the image crate, passed in as an uninterpreted function.
- Floating point is not modelled. Positions are exact reals, `f32::floor`
  is the exact floor, `f32::fract` is `v - trunc(v)` computed exactly, and
  the saturating `f32 as i32` cast is not modelled.
- The span lists and colours of both examples (`examples/parley.rs:49-136`,
  `examples/cosmic.rs:15-92`) are static demo data. The style type is a type
  parameter.
- cosmic-text's packed `Color` and its `r()`, `g()`, `b()`, `a()` accessors
  are not modelled. The callback colour is given already split into its four
  components.
- GlyphRender.RenderGlyph: requires non-negative blit origins and rectangles
  inside the image. In the source, a negative `i32 as u32` cast wraps around
  and an out-of-range `get_pixel_mut` panics, and this model excludes both.
  It also does not model `i32` overflow of `floor(x) + left` or `u32`
  overflow of `x + pixel_x`.
- GlyphRender.RenderGlyphRun: inherits RenderGlyph's preconditions for every
  glyph of the run.
- CosmicDraw.DrawRect: requires `x >= 0` and `y >= 0`, because the source's
  `x as u32` wraps negative coordinates. `u32` overflow of `x + i` is not
  modelled.
- Rendering the same runs onto two fresh images gives identical images.
  This holds because every operation here is deterministic, so no separate
  statement is made.
