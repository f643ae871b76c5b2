/** The transparency mapper: opaque white becomes white with zero alpha. */
module Transparency {
  import opened Raster

  /** One pixel: the colour channels are never touched, and the pixel
      changes exactly when it is opaque white, whose alpha drops to 0. */
  function ClearIfWhite(p: Pixel): (q: Pixel)
    ensures q.r == p.r && q.g == p.g && q.b == p.b
    ensures q != p <==> p == White
    ensures p == White ==> q.a == 0
  {
    if p == White then ClearWhite else p
  }

  /** One row, visited left to right. */
  function MapRow(row: seq<Pixel>): (out: seq<Pixel>)
    ensures |out| == |row|
    ensures forall x :: 0 <= x < |row| && row[x] == White ==> out[x] == ClearWhite
    ensures forall x :: 0 <= x < |row| && row[x] != White ==> out[x] == row[x]
  {
    if row == [] then [] else [ClearIfWhite(row[0])] + MapRow(row[1..])
  }

  /** The whole raster, visited row by row as `enumerate_pixels_mut` does.
      Exactly the opaque white pixels change, and they become `ClearWhite`;
      every other pixel and the shape are kept. */
  function MakeTransparent(g: Grid): (t: Grid)
    ensures SameShape(t, g)
    ensures forall y, x :: 0 <= y < |g| && 0 <= x < |g[y]| && g[y][x] == White ==> t[y][x] == ClearWhite
    ensures forall y, x :: 0 <= y < |g| && 0 <= x < |g[y]| && g[y][x] != White ==> t[y][x] == g[y][x]
  {
    if g == [] then [] else [MapRow(g[0])] + MakeTransparent(g[1..])
  }

  /** No opaque white pixel survives the step. */
  lemma NoOpaqueWhiteRemains(g: Grid)
    ensures forall y, x :: 0 <= y < |g| && 0 <= x < |g[y]| ==> MakeTransparent(g)[y][x] != White
  {
  }

  /** On a fully opaque raster (what the renderer produces), an output pixel
      is `ClearWhite` exactly when the input pixel was opaque white. */
  lemma ClearExactlyWhereWhite(g: Grid)
    requires forall y, x :: 0 <= y < |g| && 0 <= x < |g[y]| ==> Opaque(g[y][x])
    ensures forall y, x :: 0 <= y < |g| && 0 <= x < |g[y]| ==>
              (MakeTransparent(g)[y][x] == ClearWhite <==> g[y][x] == White)
  {
  }

  /** Applying the mapper twice gives the same raster as applying it once. */
  lemma MakeTransparentIdempotent(g: Grid)
    ensures MakeTransparent(MakeTransparent(g)) == MakeTransparent(g)
  {
    var t := MakeTransparent(g);
    var tt := MakeTransparent(t);
    forall y | 0 <= y < |g|
      ensures tt[y] == t[y]
    {
      assert |tt[y]| == |t[y]|;
      forall x | 0 <= x < |t[y]|
        ensures tt[y][x] == t[y][x]
      {
      }
    }
  }
}
