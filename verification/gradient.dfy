/** The gradient painter: every opaque black pixel is recoloured by a colour
    function of its Manhattan distance from the centre of the raster. */
module Gradient {
  import opened Raster

  /** A fraction `num / den`, the `f64` division `distance / image_size`. */
  datatype Ratio = Ratio(num: nat, den: nat)

  /** The interval `[0.0, 1.0]` the colour function is written for. */
  type UnitRatio = q: Ratio | q.den > 0 && q.num <= q.den witness Ratio(0, 1)

  /** The two colour stops of the gradient. */
  const StartColor := Rgba(100, 0, 100, 255)
  const EndColor := Rgba(30, 5, 60, 255)

  function AbsDiff(a: nat, b: nat): nat {
    if a < b then b - a else a - b
  }

  /** `x.abs_diff(center) + y.abs_diff(center)` with `center = image_size / 2`. */
  function Distance(x: nat, y: nat, n: nat): (d: nat)
    ensures d == 0 <==> x == n / 2 && y == n / 2
  {
    AbsDiff(x, n / 2) + AbsDiff(y, n / 2)
  }

  /** No pixel of an n-by-n raster is farther than `n` from the centre. */
  lemma DistanceWithinSide(x: nat, y: nat, n: nat)
    requires x < n && y < n
    ensures Distance(x, y, n) <= n
  {
  }

  /** The argument handed to the colour function for pixel `(x, y)`: its
      distance over the image size, a fraction in `[0, 1]` that is 0 exactly
      at the centre pixel. */
  function Position(x: nat, y: nat, n: nat): (q: UnitRatio)
    requires x < n && y < n
    ensures q.den == n && q.num == Distance(x, y, n)
    ensures q.num == 0 <==> x == n / 2 && y == n / 2
  {
    DistanceWithinSide(x, y, n);
    Ratio(Distance(x, y, n), n)
  }

  /** Each channel of `p` lies between the matching channels of `a` and `b`. */
  predicate Between(p: Pixel, a: Pixel, b: Pixel) {
    InRange(p.r, a.r, b.r) && InRange(p.g, a.g, b.g) && InRange(p.b, a.b, b.b) && InRange(p.a, a.a, b.a)
  }

  predicate InRange(v: byte, a: byte, b: byte) {
    (a <= v <= b) || (b <= v <= a)
  }

  /** What a two-stop linear gradient between `StartColor` and `EndColor`
      guarantees of its colours: every channel lies between the stops. */
  ghost predicate LinearBetweenStops(paint: UnitRatio -> Pixel) {
    forall q: UnitRatio :: Between(paint(q), StartColor, EndColor)
  }

  /** Colours between the two stops are opaque and not black. */
  lemma StopColoursOpaqueNotBlack(p: Pixel)
    requires Between(p, StartColor, EndColor)
    ensures Opaque(p) && p != Black
  {
  }

  /** One pixel at `(x, y)`: only an opaque black pixel may change, and it
      takes the colour at its distance from the centre over `n`. */
  function PaintPixel(p: Pixel, x: nat, y: nat, n: nat, paint: UnitRatio -> Pixel): (q: Pixel)
    requires x < n && y < n
    ensures q != p ==> p == Black
    ensures p == Black ==> q == paint(Ratio(Distance(x, y, n), n))
  {
    if p == Black then paint(Position(x, y, n)) else p
  }

  /** Row `y` of an n-wide raster, from column `x0` on. */
  function PaintRow(row: seq<Pixel>, x0: nat, y: nat, n: nat, paint: UnitRatio -> Pixel): (out: seq<Pixel>)
    requires y < n && x0 + |row| <= n
    ensures |out| == |row|
    ensures forall i :: 0 <= i < |row| && row[i] == Black ==> out[i] == paint(Position(x0 + i, y, n))
    ensures forall i :: 0 <= i < |row| && row[i] != Black ==> out[i] == row[i]
  {
    if row == [] then []
    else [PaintPixel(row[0], x0, y, n, paint)] + PaintRow(row[1..], x0 + 1, y, n, paint)
  }

  /** Rows of an n-by-n raster, from row `y0` on. */
  function PaintRows(rows: Grid, y0: nat, n: nat, paint: UnitRatio -> Pixel): (out: Grid)
    requires y0 + |rows| <= n
    requires forall y :: 0 <= y < |rows| ==> |rows[y]| == n
    ensures |out| == |rows|
    ensures forall y :: 0 <= y < |rows| ==> |out[y]| == n
    ensures forall y, x :: 0 <= y < |rows| && 0 <= x < n && rows[y][x] == Black
              ==> out[y][x] == paint(Position(x, y0 + y, n))
    ensures forall y, x :: 0 <= y < |rows| && 0 <= x < n && rows[y][x] != Black
              ==> out[y][x] == rows[y][x]
  {
    if rows == [] then []
    else [PaintRow(rows[0], 0, y0, n, paint)] + PaintRows(rows[1..], y0 + 1, n, paint)
  }

  /** `add_gradient`: each opaque black pixel at `(x, y)` takes the colour at
      `distance / image_size`; every other pixel and the size are kept. */
  function AddGradient(g: Grid, paint: UnitRatio -> Pixel): (r: Grid)
    requires Square(g)
    ensures Square(r) && |r| == |g|
    ensures forall y, x :: 0 <= y < |g| && 0 <= x < |g| && g[y][x] == Black
              ==> r[y][x] == paint(Ratio(Distance(x, y, |g|), |g|))
    ensures forall y, x :: 0 <= y < |g| && 0 <= x < |g| && g[y][x] != Black
              ==> r[y][x] == g[y][x]
  {
    PaintRows(g, 0, |g|, paint)
  }

  /** With the fixed two-stop gradient, every pixel that was black comes out
      opaque and not black, so no black pixel is left. */
  lemma GradientLeavesNoBlack(g: Grid, paint: UnitRatio -> Pixel)
    requires Square(g) && LinearBetweenStops(paint)
    ensures forall y, x :: 0 <= y < |g| && 0 <= x < |g| && g[y][x] == Black
              ==> Opaque(AddGradient(g, paint)[y][x])
    ensures forall y, x :: 0 <= y < |g| && 0 <= x < |g| ==> AddGradient(g, paint)[y][x] != Black
  {
    var r := AddGradient(g, paint);
    forall y, x | 0 <= y < |g| && 0 <= x < |g| && g[y][x] == Black
      ensures Opaque(r[y][x]) && r[y][x] != Black
    {
      StopColoursOpaqueNotBlack(paint(Position(x, y, |g|)));
    }
  }

  /** With the fixed two-stop gradient, painting twice is painting once. */
  lemma AddGradientIdempotent(g: Grid, paint: UnitRatio -> Pixel)
    requires Square(g) && LinearBetweenStops(paint)
    ensures AddGradient(AddGradient(g, paint), paint) == AddGradient(g, paint)
  {
    var r := AddGradient(g, paint);
    var rr := AddGradient(r, paint);
    GradientLeavesNoBlack(g, paint);
    forall y | 0 <= y < |g|
      ensures rr[y] == r[y]
    {
      forall x | 0 <= x < |g|
        ensures rr[y][x] == r[y][x]
      {
      }
    }
  }
}
