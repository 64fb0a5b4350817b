/**
 * The rendering half of the cosmic-text example: the image is filled with
 * the background colour, and the draw callback blends a w x h rectangle of
 * one colour at (x, y). The callback does not clip: it clamps each
 * coordinate to the last column or row, so the part of a rectangle past the
 * right or bottom edge is blended, again and again, onto that edge.
 *
 * `Buffer::draw` decides when the callback runs and with what; the model
 * takes that sequence of calls as its input.
 */
module CosmicDraw {
  import opened Image

  const Width: nat := 1080
  const Height: nat := 720
  const Background: Rgba := Rgba(0x34, 0x34, 0x34, 0xFF)

  /** The arguments of one callback: rectangle (x, y, w, h) and its colour as [r, g, b, a]. */
  datatype DrawCall = DrawCall(x: int, y: int, w: nat, h: nat, color: Rgba)

  /** `v.min(limit - 1)`. */
  function Clamp(v: int, limit: nat): int
    requires limit > 0
  {
    if v < limit - 1 then v else limit - 1
  }

  /** The coordinate offset `i` of a rectangle starting at `start` writes to: `(start + i).min(limit - 1)`. */
  function Target(start: nat, i: nat, limit: nat): int
    requires limit > 0
  {
    Clamp(start + i, limit)
  }

  /** How many of the offsets i in 0..n write to coordinate p: |{ i | Target(start, i, limit) == p }|. */
  function Hits(start: nat, n: nat, limit: nat, p: int): nat
    requires limit > 0
  {
    if n == 0 then 0
    else Hits(start, n - 1, limit, p) + (if Target(start, n - 1, limit) == p then 1 else 0)
  }

  /**
   * The callback's rectangle at a pixel: the pixel, previously `dst`, after
   * one blend of the call's colour for each (i, j) that lands on it.
   */
  function CallPixel(blend: BlendFn, c: DrawCall, width: nat, height: nat, px: int, py: int, dst: Rgba): Rgba
    requires width > 0 && height > 0 && c.x >= 0 && c.y >= 0
  {
    BlendTimes(blend, dst, c.color, Hits(c.x, c.w, width, px) * Hits(c.y, c.h, height, py))
  }

  /** The callback body: rows j outer, columns i inner, each (i, j) blended onto the clamped pixel. */
  method DrawRect(img: array2<Rgba>, c: DrawCall, blend: BlendFn)
    requires img.Length0 > 0 && img.Length1 > 0 && c.x >= 0 && c.y >= 0
    modifies img
    ensures forall px, py | InImage(img, px, py) ::
      img[px, py] == CallPixel(blend, c, img.Length0, img.Length1, px, py, old(img[px, py]))
  {
    var width, height := img.Length0, img.Length1;
    var color := c.color;
    var j := 0;
    while j < c.h
      invariant j <= c.h
      invariant forall px, py | InImage(img, px, py) ::
        img[px, py] == BlendTimes(blend, old(img[px, py]), color, Progress(c, width, height, j, 0, px, py))
    {
      var i := 0;
      while i < c.w
        invariant i <= c.w
        invariant forall px, py | InImage(img, px, py) ::
          img[px, py] == BlendTimes(blend, old(img[px, py]), color, Progress(c, width, height, j, i, px, py))
      {
        var px := Clamp(c.x + i, width);
        var py := Clamp(c.y + j, height);
        ProgressStep(c, width, height, j, i);
        img[px, py] := blend(img[px, py], color);
        i := i + 1;
      }
      ProgressRowDone(c, width, height, j);
      j := j + 1;
    }
    ProgressDone(c, width, height);
  }

  /**
   * The blends pixel (px, py) has received once rows 0..j and columns 0..i of
   * row j are done.
   */
  function Progress(c: DrawCall, width: nat, height: nat, j: nat, i: nat, px: int, py: int): nat
    requires width > 0 && height > 0 && c.x >= 0 && c.y >= 0
  {
    Hits(c.x, c.w, width, px) * Hits(c.y, j, height, py)
    + (if py == Target(c.y, j, height) then Hits(c.x, i, width, px) else 0)
  }

  /** Step (i, j) adds one blend to its target pixel and none to any other. */
  lemma ProgressStep(c: DrawCall, width: nat, height: nat, j: nat, i: nat)
    requires width > 0 && height > 0 && c.x >= 0 && c.y >= 0
    ensures forall px, py ::
      Progress(c, width, height, j, i + 1, px, py) ==
        Progress(c, width, height, j, i, px, py)
        + (if px == Target(c.x, i, width) && py == Target(c.y, j, height) then 1 else 0)
  {
  }

  /** Finishing row j is starting row j + 1. */
  lemma ProgressRowDone(c: DrawCall, width: nat, height: nat, j: nat)
    requires width > 0 && height > 0 && c.x >= 0 && c.y >= 0
    ensures forall px, py :: Progress(c, width, height, j, c.w, px, py) == Progress(c, width, height, j + 1, 0, px, py)
  {
    forall px, py
      ensures Progress(c, width, height, j, c.w, px, py) == Progress(c, width, height, j + 1, 0, px, py)
    {
      var a, b := Hits(c.x, c.w, width, px), Hits(c.y, j, height, py);
      assert a * b + a == a * (b + 1);
    }
  }

  lemma ProgressDone(c: DrawCall, width: nat, height: nat)
    requires width > 0 && height > 0 && c.x >= 0 && c.y >= 0
    ensures forall px, py ::
      Progress(c, width, height, c.h, 0, px, py) == Hits(c.x, c.w, width, px) * Hits(c.y, c.h, height, py)
  {
  }

  /** Pixel (px, py), previously `dst`, after the first `n` callbacks. */
  function DrawnPixel(blend: BlendFn, calls: seq<DrawCall>, width: nat, height: nat, n: nat,
                      px: int, py: int, dst: Rgba): Rgba
    requires n <= |calls| && width > 0 && height > 0
    requires forall k :: 0 <= k < |calls| ==> calls[k].x >= 0 && calls[k].y >= 0
  {
    if n == 0 then dst
    else CallPixel(blend, calls[n - 1], width, height, px, py, DrawnPixel(blend, calls, width, height, n - 1, px, py, dst))
  }

  /** The sequence of callbacks `Buffer::draw` makes, applied in order. */
  method Draw(img: array2<Rgba>, calls: seq<DrawCall>, blend: BlendFn)
    requires img.Length0 > 0 && img.Length1 > 0
    requires forall k :: 0 <= k < |calls| ==> calls[k].x >= 0 && calls[k].y >= 0
    modifies img
    ensures forall px, py | InImage(img, px, py) ::
      img[px, py] == DrawnPixel(blend, calls, img.Length0, img.Length1, |calls|, px, py, old(img[px, py]))
  {
    var n := 0;
    while n < |calls|
      invariant n <= |calls|
      invariant forall px, py | InImage(img, px, py) ::
        img[px, py] == DrawnPixel(blend, calls, img.Length0, img.Length1, n, px, py, old(img[px, py]))
    {
      DrawRect(img, calls[n], blend);
      n := n + 1;
    }
  }

  /** The example's rendering: a 1080 x 720 background-filled image, then every callback. */
  method Render(calls: seq<DrawCall>, blend: BlendFn) returns (img: array2<Rgba>)
    requires forall k :: 0 <= k < |calls| ==> calls[k].x >= 0 && calls[k].y >= 0
    ensures fresh(img) && img.Length0 == Width && img.Length1 == Height
    ensures forall px, py | InImage(img, px, py) ::
      img[px, py] == DrawnPixel(blend, calls, Width, Height, |calls|, px, py, Background)
  {
    img := FromPixel(Width, Height, Background);
    Draw(img, calls, blend);
  }

  // ---------------------------------------------------------------------
  // What the clamping does

  /** A column or row before the last one is hit once if the rectangle spans it, otherwise never. */
  lemma {:induction false} HitsBeforeEdge(start: nat, n: nat, limit: nat, p: int)
    requires limit > 0 && p < limit - 1
    ensures Hits(start, n, limit, p) == if start <= p < start + n then 1 else 0
  {
    if n > 0 {
      HitsBeforeEdge(start, n - 1, limit, p);
    }
  }

  /** The last column or row takes every offset at or past it: the part of the rectangle beyond the edge lands there. */
  lemma {:induction false} HitsAtEdge(start: nat, n: nat, limit: nat)
    requires limit > 0
    ensures Hits(start, n, limit, limit - 1) ==
      if start + n <= limit - 1 then 0
      else if start >= limit - 1 then n
      else start + n - (limit - 1)
  {
    if n > 0 {
      HitsAtEdge(start, n - 1, limit);
    }
  }

  /** No offset writes outside 0..limit: every write target is in bounds. */
  lemma {:induction false} HitsOutside(start: nat, n: nat, limit: nat, p: int)
    requires limit > 0 && (p < 0 || p >= limit)
    ensures Hits(start, n, limit, p) == 0
  {
    if n > 0 {
      HitsOutside(start, n - 1, limit, p);
    }
  }

  /** The hits of the coordinates 0..q, added up. */
  function HitsBelow(start: nat, n: nat, limit: nat, q: nat): nat
    requires limit > 0
  {
    if q == 0 then 0 else HitsBelow(start, n, limit, q - 1) + Hits(start, n, limit, q - 1)
  }

  lemma {:induction false} HitsBelowStep(start: nat, n: nat, limit: nat, q: nat)
    requires limit > 0
    ensures HitsBelow(start, n + 1, limit, q) ==
      HitsBelow(start, n, limit, q) + (if Target(start, n, limit) < q then 1 else 0)
  {
    if q > 0 {
      HitsBelowStep(start, n, limit, q - 1);
    }
  }

  /** Every offset i in 0..n is written exactly once: the hits over all coordinates sum to n. */
  lemma {:induction false} HitsTotal(start: nat, n: nat, limit: nat)
    requires limit > 0
    ensures HitsBelow(start, n, limit, limit) == n
  {
    if n == 0 {
      HitsBelowZero(start, limit, limit);
    } else {
      HitsTotal(start, n - 1, limit);
      HitsBelowStep(start, n - 1, limit, limit);
    }
  }

  lemma {:induction false} HitsBelowZero(start: nat, limit: nat, q: nat)
    requires limit > 0
    ensures HitsBelow(start, 0, limit, q) == 0
  {
    if q > 0 {
      HitsBelowZero(start, limit, q - 1);
    }
  }

  /** A coordinate is hit exactly when some offset in 0..n clamps to it. */
  lemma {:induction false} HitsPositive(start: nat, n: nat, limit: nat, p: int)
    requires limit > 0
    ensures Hits(start, n, limit, p) > 0 <==> exists i :: 0 <= i < n && Target(start, i, limit) == p
  {
    if n > 0 {
      HitsPositive(start, n - 1, limit, p);
    }
  }

  /** Whether callback `c` writes to pixel (px, py) for some (i, j). */
  ghost predicate Touches(c: DrawCall, width: nat, height: nat, px: int, py: int)
    requires width > 0 && height > 0 && c.x >= 0 && c.y >= 0
  {
    exists i, j :: 0 <= i < c.w && 0 <= j < c.h &&
      Target(c.x, i, width) == px && Target(c.y, j, height) == py
  }

  /** A callback writes to a pixel exactly when both its column and its row are hit. */
  lemma TouchesIffHit(c: DrawCall, width: nat, height: nat, px: int, py: int)
    requires width > 0 && height > 0 && c.x >= 0 && c.y >= 0
    ensures Touches(c, width, height, px, py) <==>
      Hits(c.x, c.w, width, px) > 0 && Hits(c.y, c.h, height, py) > 0
  {
    HitsPositive(c.x, c.w, width, px);
    HitsPositive(c.y, c.h, height, py);
    if Hits(c.x, c.w, width, px) > 0 && Hits(c.y, c.h, height, py) > 0 {
      var i :| 0 <= i < c.w && Target(c.x, i, width) == px;
      var j :| 0 <= j < c.h && Target(c.y, j, height) == py;
      assert Touches(c, width, height, px, py);
    }
  }

  /** A pixel that no callback writes to keeps its value: on the example's image, the background colour. */
  lemma {:induction false} UntouchedKeepsPixel(blend: BlendFn, calls: seq<DrawCall>, width: nat, height: nat, n: nat,
                                               px: int, py: int, dst: Rgba)
    requires n <= |calls| && width > 0 && height > 0
    requires forall k :: 0 <= k < |calls| ==> calls[k].x >= 0 && calls[k].y >= 0
    requires forall k :: 0 <= k < n ==> !Touches(calls[k], width, height, px, py)
    ensures DrawnPixel(blend, calls, width, height, n, px, py, dst) == dst
  {
    if n > 0 {
      var c := calls[n - 1];
      UntouchedKeepsPixel(blend, calls, width, height, n - 1, px, py, dst);
      TouchesIffHit(c, width, height, px, py);
      assert Hits(c.x, c.w, width, px) == 0 || Hits(c.y, c.h, height, py) == 0;
    }
  }
}
