/** The logo compositor: a logo side that grows in steps of two modules under
    a bound of 5/16 of the image side, a centring offset, and an overwrite of
    the centred region. */
module Logo {
  import opened Raster
  import ElementSize
  import opened Arith

  /** `5 * image_size / 16` in the code: the largest side the logo may take. */
  function SizeBound(n: nat): (b: nat)
    ensures 16 * b <= 5 * n < 16 * (b + 1)
  {
    5 * n / 16
  }

  /** The side the sizing loop ends with once it has reached side `l`: it
      keeps adding `2 * e` while the next side stays within the bound. */
  function Grow(e: nat, n: nat, l: nat): (r: nat)
    requires e >= 1
    ensures r >= l
    ensures r + 2 * e > SizeBound(n)
    ensures l <= SizeBound(n) ==> r <= SizeBound(n)
    decreases SizeBound(n) - l
  {
    if l + 2 * e <= SizeBound(n) then Grow(e, n, l + 2 * e) else l
  }

  /** How many times the sizing loop adds `2 * e` from side `l` on. */
  function GrowSteps(e: nat, n: nat, l: nat): nat
    requires e >= 1
    decreases SizeBound(n) - l
  {
    if l + 2 * e <= SizeBound(n) then 1 + GrowSteps(e, n, l + 2 * e) else 0
  }

  /** Growing adds `2 * e` once per step. */
  lemma {:induction false} GrowAddsSteps(e: nat, n: nat, l: nat)
    requires e >= 1
    ensures Grow(e, n, l) == l + 2 * e * GrowSteps(e, n, l)
    decreases SizeBound(n) - l
  {
    if l + 2 * e <= SizeBound(n) {
      GrowAddsSteps(e, n, l + 2 * e);
      MulSucc(2 * e, GrowSteps(e, n, l + 2 * e));
    }
  }

  /** Any side reachable from `l` in steps of `2 * e` without leaving the
      bound is at most where growing from `l` ends. */
  lemma {:induction false} GrowMaximal(e: nat, n: nat, l: nat, j: nat)
    requires e >= 1 && l + 2 * e * j <= SizeBound(n)
    ensures l + 2 * e * j <= Grow(e, n, l)
    decreases j
  {
    if j > 0 {
      var next := l + 2 * e;
      assert next + 2 * e * (j - 1) == l + 2 * e * j by {
        MulSucc(2 * e, j - 1);
      }
      assert Grow(e, n, l) == Grow(e, n, next);
      GrowMaximal(e, n, next, j - 1);
    }
  }

  /** The logo side for element size `e` on an n-pixel image: the loop starts
      at one module, so the side is at least `e`. One more step of `2 * e`
      would overshoot the bound. The side is within the bound whenever `e`
      itself is, and is `e` when it is not. */
  function LogoSize(e: nat, n: nat): (l: nat)
    requires e >= 1
    ensures l >= e
    ensures l + 2 * e > SizeBound(n)
    ensures e <= SizeBound(n) ==> l <= SizeBound(n)
    ensures e > SizeBound(n) ==> l == e
  {
    Grow(e, n, e)
  }

  /** The logo side is an odd multiple `e * (2k + 1)` of the element size,
      `k` being the number of loop iterations. */
  lemma LogoSizeOddMultiple(e: nat, n: nat)
    requires e >= 1
    ensures LogoSize(e, n) == e * (2 * GrowSteps(e, n, e) + 1)
  {
    GrowAddsSteps(e, n, e);
    OddForm(e, GrowSteps(e, n, e));
  }

  /** The sizing loop of the code, `logo_size += 2 * element_size` while the
      next size still fits under `5 * image_size / 16`. */
  method GrowLogoSize(e: nat, n: nat) returns (l: nat)
    requires e >= 1
    ensures l == LogoSize(e, n)
    ensures l == e * (2 * GrowSteps(e, n, e) + 1)
  {
    l := e;
    ghost var k: nat := 0;
    while l + 2 * e <= 5 * n / 16
      invariant l == e * (2 * k + 1)
      invariant Grow(e, n, l) == LogoSize(e, n)
      invariant GrowSteps(e, n, e) == k + GrowSteps(e, n, l)
      decreases 5 * n / 16 - l
    {
      OddStep(e, k);
      l := l + 2 * e;
      k := k + 1;
    }
  }

  /** No odd multiple of `e` within the bound exceeds the chosen side: the
      loop finds the largest one. */
  lemma LogoSizeMaximal(e: nat, n: nat, k: nat)
    requires e >= 1 && e * (2 * k + 1) <= SizeBound(n)
    ensures e * (2 * k + 1) <= LogoSize(e, n)
  {
    OddForm(e, k);
    GrowMaximal(e, n, e, k);
  }

  /** A square of side at most 5/16 of the image side has at most a tenth of
      its area: 256 l^2 <= 25 n^2 < 25.6 n^2. */
  lemma FiveSixteenthsSquared(l: nat, n: nat)
    requires 16 * l <= 5 * n
    ensures 10 * l * l <= n * n
  {
    var a, b := 16 * l, 5 * n;
    MulLe(a, b, a);
    MulLe(a, b, b);
    assert a * a == 256 * (l * l);
    assert b * b == 25 * (n * n);
    assert 10 * l * l == 10 * (l * l);
  }

  /** When one module fits under the bound, the logo square covers at most a
      tenth of the image area, as the doc comment of `add_logo` promises. */
  lemma LogoAreaBound(e: nat, n: nat)
    requires e >= 1 && e <= SizeBound(n)
    ensures 10 * LogoSize(e, n) * LogoSize(e, n) <= n * n
  {
    var l := LogoSize(e, n);
    assert 16 * l <= 5 * n;
    FiveSixteenthsSquared(l, n);
  }

  /** The logo side for raster `g`. On a non-empty raster it is at most the
      raster side, so `image_size - logo_size` does not underflow. */
  function LogoSide(g: Grid): (l: nat)
    requires Square(g)
    ensures l == LogoSize(ElementSize.ElementSize(g), |g|)
    ensures |g| > 0 ==> l <= |g|
  {
    LogoSize(ElementSize.ElementSize(g), |g|)
  }

  /** Top-left offset `(image_size - logo_size) / 2`: the square stays inside
      the image and the margin after it exceeds the one before by at most one
      pixel. */
  function CenterOffset(n: nat, l: nat): (off: nat)
    requires l <= n
    ensures off + l <= n
    ensures (n - l - off) - off == 0 || (n - l - off) - off == 1
  {
    (n - l) / 2
  }

  /** `imageops::replace`: the pixels of `top`, placed with its top-left corner
      at column `ox` and row `oy`, overwrite those of `bottom`; what falls
      outside `bottom` is dropped. */
  function Replace(bottom: Grid, top: Grid, ox: nat, oy: nat): (r: Grid)
    requires Rect(top)
    ensures SameShape(r, bottom)
    ensures forall y, x ::
              (0 <= y < |bottom| && 0 <= x < |bottom[y]| && oy <= y < oy + |top| && ox <= x < ox + Width(top))
              ==> r[y][x] == top[y - oy][x - ox]
    ensures forall y, x ::
              (0 <= y < |bottom| && 0 <= x < |bottom[y]| && !(oy <= y < oy + |top| && ox <= x < ox + Width(top)))
              ==> r[y][x] == bottom[y][x]
  {
    seq(|bottom|, y requires 0 <= y < |bottom| =>
      seq(|bottom[y]|, x requires 0 <= x < |bottom[y]| =>
        if oy <= y < oy + |top| && ox <= x < ox + Width(top) then top[y - oy][x - ox] else bottom[y][x]))
  }

  /** Asked for a square of side at least 1, the resizer never returns a
      logo larger than that square (the image crate's `resize` keeps the
      aspect ratio inside the square, and makes each side at least 1). */
  ghost predicate ResizeFits(resize: (Grid, nat) -> Grid) {
    forall img, side :: side >= 1 ==> FitsWithin(resize(img, side), side)
  }

  /** `r` is `g` with `logo` placed at column and row `off`: the logo's
      pixels inside its rectangle, those of `g` everywhere else. */
  predicate Overlaid(r: Grid, g: Grid, logo: Grid, off: nat)
    requires Square(g) && Square(r) && |r| == |g|
    requires Rect(logo) && off + |logo| <= |g| && off + Width(logo) <= |g|
  {
    (forall y, x :: (off <= y < off + |logo| && off <= x < off + Width(logo))
                    ==> r[y][x] == logo[y - off][x - off])
    && (forall y, x :: (0 <= y < |g| && 0 <= x < |g| && !(off <= y < off + |logo| && off <= x < off + Width(logo)))
                       ==> r[y][x] == g[y][x])
  }

  /** Placing a logo that fits inside a square raster with `Replace` keeps
      the raster square and overlays the logo. */
  lemma ReplaceOverlaid(g: Grid, logo: Grid, off: nat)
    requires Square(g) && Rect(logo) && off + |logo| <= |g| && off + Width(logo) <= |g|
    ensures var r := Replace(g, logo, off, off);
            Square(r) && |r| == |g| && Overlaid(r, g, logo, off)
  {
    var r := Replace(g, logo, off, off);
    assert Square(r);
  }

  /** `add_logo`: measure the element size, grow the logo side, decode and
      resize the logo, and overwrite the centred square with it. `decoded` is
      the result of decoding the logo bytes (`None` when they are not an
      image); `resize` is the image crate's Lanczos3 resize. */
  function AddLogo(g: Grid, decoded: Option<Grid>, resize: (Grid, nat) -> Grid): (r: Outcome<Grid>)
    requires Square(g)
    requires ResizeFits(resize)
    ensures decoded.None? ==> r == Fail(LogoDecodeFailed)
    ensures decoded.Some? && |g| == 0 ==> r == Fail(OffsetUnderflow)
    ensures decoded.Some? && |g| > 0 ==> r.Ok?
    ensures r.Ok? ==> Square(r.value) && |r.value| == |g|
    ensures r.Ok? ==>
              var l := LogoSide(g);
              var off := CenterOffset(|g|, l);
              var logo := resize(decoded.value, l);
              off + l <= |g| && FitsWithin(logo, l) && Overlaid(r.value, g, logo, off)
  {
    var n := |g|;
    var l := LogoSide(g);
    match decoded
    case None => Fail(LogoDecodeFailed)
    case Some(img) =>
      if l > n then Fail(OffsetUnderflow)
      else
        var logo := resize(img, l);
        assert FitsWithin(logo, l);
        var off := CenterOffset(n, l);
        ReplaceOverlaid(g, logo, off);
        Ok(Replace(g, logo, off, off))
  }

  /** On a non-empty raster with a decodable logo, `add_logo` is `replace`
      of the resized logo at the centred offset. */
  lemma AddLogoIsCentredReplace(g: Grid, img: Grid, resize: (Grid, nat) -> Grid)
    requires Square(g) && |g| > 0 && ResizeFits(resize)
    ensures var side := LogoSide(g);
            var logo := resize(img, side);
            var off := CenterOffset(|g|, side);
            FitsWithin(logo, side) && off + side <= |g|
            && AddLogo(g, Some(img), resize) == Ok(Replace(g, logo, off, off))
  {
  }
}
