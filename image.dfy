/** Bytes as the Rust sources see them: `u8`. */
module Bytes {
  newtype byte = x: int | 0 <= x < 256
}

/**
 * The RGBA canvas of the `image` crate as both examples use it: an
 * `RgbaImage` of width x height pixels of four bytes each, mutated in place
 * through `get_pixel_mut(x, y).blend(&src)`. The model keeps the canvas as a
 * two-dimensional array indexed `img[x, y]`, with `img.Length0` the width and
 * `img.Length1` the height.
 */
module Image {
  import opened Bytes

  datatype Rgba = Rgba(r: byte, g: byte, b: byte, a: byte)

  /**
   * `Pixel::blend`: `blend(dst, src)` is the new value of a pixel `dst` after
   * `src` is composited onto it. Its arithmetic belongs to the image crate
   * and is not modelled: every operation takes it as a parameter, so nothing
   * proved here depends on how it blends.
   */
  type BlendFn = (Rgba, Rgba) -> Rgba

  /** The pixel `dst` after `n` successive blends of the same colour `src`. */
  function BlendTimes(blend: BlendFn, dst: Rgba, src: Rgba, n: nat): Rgba
  {
    if n == 0 then dst else blend(BlendTimes(blend, dst, src, n - 1), src)
  }

  predicate InImage(img: array2<Rgba>, x: int, y: int)
  {
    0 <= x < img.Length0 && 0 <= y < img.Length1
  }

  /** `RgbaImage::from_pixel(width, height, fill)`. */
  method FromPixel(width: nat, height: nat, fill: Rgba) returns (img: array2<Rgba>)
    ensures fresh(img)
    ensures img.Length0 == width && img.Length1 == height
    ensures forall x, y | 0 <= x < width && 0 <= y < height :: img[x, y] == fill
  {
    img := new Rgba[width, height]((x, y) => fill);
  }
}
