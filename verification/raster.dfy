/** Pixels, rasters and the failure outcomes shared by every stage of the
    QR post-processing pipeline.

    A raster is stored row by row: `g[y][x]` is the pixel in column `x` of
    row `y`, as in the image crate's `get_pixel(x, y)`. */
module Raster {

  /** One 8-bit channel. */
  newtype byte = x: int | 0 <= x < 256

  /** An RGBA pixel with 8 bits per channel. */
  datatype Pixel = Rgba(r: byte, g: byte, b: byte, a: byte)

  /** Opaque white: the background and the "off" modules of a rendered code. */
  const White := Rgba(255, 255, 255, 255)

  /** White with zero alpha: what the transparency step writes. */
  const ClearWhite := Rgba(255, 255, 255, 0)

  /** Opaque black: the "on" modules of a rendered code. */
  const Black := Rgba(0, 0, 0, 255)

  predicate Opaque(p: Pixel) {
    p.a == 255
  }

  type Grid = seq<seq<Pixel>>

  /** Every row is as long as there are rows: an n-by-n raster with n = |g|. */
  predicate Square(g: Grid) {
    forall y :: 0 <= y < |g| ==> |g[y]| == |g|
  }

  /** Every row has the same length. */
  predicate Rect(g: Grid) {
    forall y :: 0 <= y < |g| ==> |g[y]| == Width(g)
  }

  function Width(g: Grid): nat {
    if |g| == 0 then 0 else |g[0]|
  }

  /** A rectangle no wider and no taller than `side`. */
  predicate FitsWithin(g: Grid, side: nat) {
    Rect(g) && |g| <= side && Width(g) <= side
  }

  /** Two rasters with the same number of rows and the same row lengths. */
  predicate SameShape(a: Grid, b: Grid) {
    |a| == |b| && forall y :: 0 <= y < |a| ==> |a[y]| == |b[y]|
  }

  /** Why a run of the pipeline produced no image. */
  datatype Failure =
    | RenderFailed      // the QR renderer rejected the text at this size
    | LogoDecodeFailed  // the logo bytes are not a decodable image (a panic in the code)
    | OffsetUnderflow   // `image_size - logo_size` would go below zero (a panic with overflow checks on)

  datatype Outcome<+T> = Ok(value: T) | Fail(failure: Failure)

  datatype Option<+T> = None | Some(value: T)
}
