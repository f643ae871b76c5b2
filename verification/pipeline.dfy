/** `generate`: render, then the optional transparency, logo and gradient
    steps in that fixed order, then encode.

    The renderer and the PNG encoder are not modelled: the rendered grey
    raster comes in as `rendered` (`None` when the renderer rejects the
    input), and the raster handed to the encoder is the result. */
module Pipeline {
  import opened Raster
  import Transparency
  import ElementSize
  import Logo
  import Gradient

  /** The request options: `add_transparency` is optional and only
      `Some(true)` turns the step on. */
  datatype Options = Options(addLogo: bool, addGradient: bool, addTransparency: Option<bool>)

  /** An 8-bit grey raster as the QR renderer produces it. */
  type Luma = seq<seq<byte>>

  predicate LumaSquare(l: Luma) {
    forall y :: 0 <= y < |l| ==> |l[y]| == |l|
  }

  function GreyRow(row: seq<byte>): (out: seq<Pixel>)
    ensures |out| == |row|
    ensures forall x :: 0 <= x < |row| ==> out[x] == Rgba(row[x], row[x], row[x], 255)
  {
    if row == [] then [] else [Rgba(row[0], row[0], row[0], 255)] + GreyRow(row[1..])
  }

  /** `into_rgba8` of a grey raster: grey level `v` becomes opaque `(v, v, v)`;
      in particular 0 becomes `Black` and 255 becomes `White`. */
  function ToRgba(l: Luma): (g: Grid)
    requires LumaSquare(l)
    ensures Square(g) && |g| == |l|
    ensures forall y, x :: 0 <= y < |l| && 0 <= x < |l| ==> g[y][x] == Rgba(l[y][x], l[y][x], l[y][x], 255)
  {
    seq(|l|, y requires 0 <= y < |l| => GreyRow(l[y]))
  }

  /** The transparency step keeps every black pixel black and makes no new
      one, so the element size, and with it the logo placement, is the same
      with or without it. */
  lemma TransparencyKeepsElementSize(g: Grid)
    requires Square(g)
    ensures Square(Transparency.MakeTransparent(g))
    ensures ElementSize.ElementSize(Transparency.MakeTransparent(g)) == ElementSize.ElementSize(g)
  {
    var t := Transparency.MakeTransparent(g);
    forall j | 0 <= j < |g|
      ensures ElementSize.DiagBlack(g, j) <==> ElementSize.DiagBlack(t, j)
    {
    }
    ElementSize.ElementSizeDependsOnDiagonal(g, t);
  }

  /** The whole pipeline. The renderer is the only failure when the logo step
      is off; with it on, an undecodable logo or an empty raster also fails.
      A result has the rendered size. */
  function Generate(rendered: Option<Luma>, options: Options, decoded: Option<Grid>,
                    resize: (Grid, nat) -> Grid, paint: Gradient.UnitRatio -> Pixel): (r: Outcome<Grid>)
    requires rendered.Some? ==> LumaSquare(rendered.value)
    requires Logo.ResizeFits(resize)
    ensures rendered.None? ==> r == Fail(RenderFailed)
    ensures rendered.Some? && !options.addLogo ==> r.Ok?
    ensures rendered.Some? && options.addLogo && decoded.None? ==> r == Fail(LogoDecodeFailed)
    ensures rendered.Some? && options.addLogo && decoded.Some? ==> (r.Ok? <==> |rendered.value| > 0)
    ensures r.Ok? ==> Square(r.value) && |r.value| == |rendered.value|
  {
    match rendered
    case None => Fail(RenderFailed)
    case Some(luma) =>
      var qr := ToRgba(luma);
      var qr1 := if options.addTransparency == Some(true) then Transparency.MakeTransparent(qr) else qr;
      assert Square(qr1) && |qr1| == |luma|;
      var logoed := if options.addLogo then Logo.AddLogo(qr1, decoded, resize) else Ok(qr1);
      match logoed
      case Fail(f) => Fail(f)
      case Ok(qr2) => Ok(if options.addGradient then Gradient.AddGradient(qr2, paint) else qr2)
  }

  /** With every step off, the encoder receives the rendered raster as is. */
  lemma AllStepsOffKeepsRender(rendered: Option<Luma>, options: Options, decoded: Option<Grid>,
                               resize: (Grid, nat) -> Grid, paint: Gradient.UnitRatio -> Pixel)
    requires rendered.Some? && LumaSquare(rendered.value)
    requires Logo.ResizeFits(resize)
    requires !options.addLogo && !options.addGradient && options.addTransparency != Some(true)
    ensures Generate(rendered, options, decoded, resize, paint) == Ok(ToRgba(rendered.value))
  {
  }

  /** An absent `add_transparency` behaves exactly like `Some(false)`. */
  lemma AbsentTransparencyIsFalse(rendered: Option<Luma>, options: Options, decoded: Option<Grid>,
                                  resize: (Grid, nat) -> Grid, paint: Gradient.UnitRatio -> Pixel)
    requires rendered.Some? ==> LumaSquare(rendered.value)
    requires Logo.ResizeFits(resize)
    ensures Generate(rendered, options.(addTransparency := None), decoded, resize, paint)
         == Generate(rendered, options.(addTransparency := Some(false)), decoded, resize, paint)
  {
  }

  /** A black-and-white rendering with every step off comes out as opaque
      black and opaque white pixels only. */
  lemma PlainCodeIsBlackAndWhite(l: Luma, options: Options, decoded: Option<Grid>,
                                 resize: (Grid, nat) -> Grid, paint: Gradient.UnitRatio -> Pixel)
    requires LumaSquare(l) && Logo.ResizeFits(resize)
    requires forall y, x :: 0 <= y < |l| && 0 <= x < |l| ==> l[y][x] == 0 || l[y][x] == 255
    requires !options.addLogo && !options.addGradient && options.addTransparency != Some(true)
    ensures Generate(Some(l), options, decoded, resize, paint).Ok?
    ensures var g := Generate(Some(l), options, decoded, resize, paint).value;
            forall y, x :: 0 <= y < |l| && 0 <= x < |l| ==> g[y][x] == Black || g[y][x] == White
  {
    AllStepsOffKeepsRender(Some(l), options, decoded, resize, paint);
  }

  /** With only the logo step on, every pixel that differs from the rendering
      lies in the centred square of side `LogoSize`, and when one module fits
      under the size bound that square covers at most a tenth of the image. */
  lemma LogoOnlyChangesCentre(l: Luma, options: Options, img: Grid,
                              resize: (Grid, nat) -> Grid, paint: Gradient.UnitRatio -> Pixel)
    requires LumaSquare(l) && |l| > 0 && Logo.ResizeFits(resize)
    requires options.addLogo && !options.addGradient && options.addTransparency != Some(true)
    ensures Generate(Some(l), options, Some(img), resize, paint).Ok?
    ensures var n := |l|;
            var e := ElementSize.ElementSize(ToRgba(l));
            var side := Logo.LogoSize(e, n);
            var off := Logo.CenterOffset(n, side);
            var g := Generate(Some(l), options, Some(img), resize, paint).value;
            (forall y, x :: 0 <= y < n && 0 <= x < n && g[y][x] != ToRgba(l)[y][x]
               ==> off <= y < off + side && off <= x < off + side)
            && (e <= Logo.SizeBound(n) ==> 10 * side * side <= n * n)
  {
    var n := |l|;
    var e := ElementSize.ElementSize(ToRgba(l));
    if e <= Logo.SizeBound(n) {
      Logo.LogoAreaBound(e, n);
    }
  }

  /** What the result `g` of all three steps looks like, pixel by pixel, for
      a logo raster `logo` placed at offset `off`. Inside the logo rectangle
      it is the logo's pixel, painted by the gradient when that pixel is
      black; the transparency step ran first, so the logo's white stays
      opaque. Elsewhere a black module is painted, a white one is transparent,
      and any other grey is kept. */
  ghost predicate AllStepsPixels(l: Luma, logo: Grid, off: nat, paint: Gradient.UnitRatio -> Pixel, g: Grid)
    requires LumaSquare(l) && Rect(logo) && off + |logo| <= |l| && off + Width(logo) <= |l|
  {
    Square(g) && |g| == |l|
    && (forall y, x :: off <= y < off + |logo| && off <= x < off + Width(logo) ==>
          g[y][x] == if logo[y - off][x - off] == Black then paint(Gradient.Position(x, y, |l|))
                     else logo[y - off][x - off])
    && (forall y, x :: 0 <= y < |l| && 0 <= x < |l| && !(off <= y < off + |logo| && off <= x < off + Width(logo)) ==>
          g[y][x] == if l[y][x] == 0 then paint(Gradient.Position(x, y, |l|))
                     else if l[y][x] == 255 then ClearWhite
                     else Rgba(l[y][x], l[y][x], l[y][x], 255))
  }

  /** Where the logo goes: its side and offset are computed from the
      rendering itself, and the transparency step does not move them. */
  lemma TransparencyKeepsLogoPlace(l: Luma)
    requires LumaSquare(l) && |l| > 0
    ensures Square(Transparency.MakeTransparent(ToRgba(l)))
    ensures |Transparency.MakeTransparent(ToRgba(l))| == |l|
    ensures Logo.LogoSide(Transparency.MakeTransparent(ToRgba(l))) == Logo.LogoSide(ToRgba(l))
  {
    TransparencyKeepsElementSize(ToRgba(l));
  }

  /** The three steps one after the other. */
  ghost function AllSteps(l: Luma, img: Grid, resize: (Grid, nat) -> Grid, paint: Gradient.UnitRatio -> Pixel): (g: Grid)
    requires LumaSquare(l) && |l| > 0 && Logo.ResizeFits(resize)
    ensures Square(g) && |g| == |l|
  {
    TransparencyKeepsLogoPlace(l);
    var t := Transparency.MakeTransparent(ToRgba(l));
    Gradient.AddGradient(Logo.AddLogo(t, Some(img), resize).value, paint)
  }

  /** The composition of the three steps has the pixels described above, with
      the logo where the element size of the rendering (without transparency)
      puts it. */
  lemma AllStepsHavePixels(l: Luma, img: Grid, resize: (Grid, nat) -> Grid, paint: Gradient.UnitRatio -> Pixel)
    requires LumaSquare(l) && |l| > 0 && Logo.ResizeFits(resize)
    ensures var side := Logo.LogoSide(ToRgba(l));
            var logo := resize(img, side);
            var off := Logo.CenterOffset(|l|, side);
            FitsWithin(logo, side) && off + side <= |l|
            && AllStepsPixels(l, logo, off, paint, AllSteps(l, img, resize, paint))
  {
    TransparencyKeepsLogoPlace(l);
    var t := Transparency.MakeTransparent(ToRgba(l));
    var side := Logo.LogoSide(ToRgba(l));
    var logo := resize(img, side);
    var off := Logo.CenterOffset(|l|, side);
    Logo.AddLogoIsCentredReplace(t, img, resize);
    assert AllSteps(l, img, resize, paint) == Gradient.AddGradient(Logo.Replace(t, logo, off, off), paint);
    RenderPixels(l, logo, off, paint);
  }

  /** With all three steps on, `generate` runs transparency, then the logo,
      then the gradient. */
  lemma AllStepsInOrder(l: Luma, options: Options, img: Grid,
                        resize: (Grid, nat) -> Grid, paint: Gradient.UnitRatio -> Pixel)
    requires LumaSquare(l) && |l| > 0 && Logo.ResizeFits(resize)
    requires options.addLogo && options.addGradient && options.addTransparency == Some(true)
    ensures Generate(Some(l), options, Some(img), resize, paint) == Ok(AllSteps(l, img, resize, paint))
  {
    TransparencyKeepsLogoPlace(l);
  }

  /** With all three steps on, the result has the pixels described by
      `AllStepsPixels`. */
  lemma FullPipeline(l: Luma, options: Options, img: Grid,
                     resize: (Grid, nat) -> Grid, paint: Gradient.UnitRatio -> Pixel)
    requires LumaSquare(l) && |l| > 0 && Logo.ResizeFits(resize)
    requires options.addLogo && options.addGradient && options.addTransparency == Some(true)
    ensures Generate(Some(l), options, Some(img), resize, paint).Ok?
    ensures var side := Logo.LogoSide(ToRgba(l));
            var logo := resize(img, side);
            var off := Logo.CenterOffset(|l|, side);
            FitsWithin(logo, side) && off + side <= |l|
            && AllStepsPixels(l, logo, off, paint, Generate(Some(l), options, Some(img), resize, paint).value)
  {
    AllStepsInOrder(l, options, img, resize, paint);
    AllStepsHavePixels(l, img, resize, paint);
  }

  /** A pixel of `Replace(t, logo, off, off)` after the gradient: the logo's
      pixel inside the logo rectangle and the input's elsewhere, painted
      when it is black. */
  lemma ReplaceThenGradientAt(t: Grid, logo: Grid, off: nat, paint: Gradient.UnitRatio -> Pixel, y: nat, x: nat)
    requires Square(t) && Rect(logo) && off + |logo| <= |t| && off + Width(logo) <= |t|
    requires y < |t| && x < |t|
    ensures Gradient.AddGradient(Logo.Replace(t, logo, off, off), paint)[y][x]
         == Gradient.PaintPixel(
              if off <= y < off + |logo| && off <= x < off + Width(logo) then logo[y - off][x - off] else t[y][x],
              x, y, |t|, paint)
  {
    var p := Logo.Replace(t, logo, off, off);
    assert Square(p) && |p| == |t|;
  }

  /** After the gradient, the logo rectangle of `Replace(t, logo, off, off)`
      holds the logo with its black pixels painted. */
  lemma GradientOverLogo(t: Grid, logo: Grid, off: nat, paint: Gradient.UnitRatio -> Pixel)
    requires Square(t) && Rect(logo) && off + |logo| <= |t| && off + Width(logo) <= |t|
    ensures var g := Gradient.AddGradient(Logo.Replace(t, logo, off, off), paint);
            forall y, x :: off <= y < off + |logo| && off <= x < off + Width(logo) ==>
              g[y][x] == if logo[y - off][x - off] == Black then paint(Gradient.Position(x, y, |t|))
                         else logo[y - off][x - off]
  {
    forall y, x | off <= y < off + |logo| && off <= x < off + Width(logo)
      ensures Gradient.AddGradient(Logo.Replace(t, logo, off, off), paint)[y][x]
           == Gradient.PaintPixel(logo[y - off][x - off], x, y, |t|, paint)
    {
      ReplaceThenGradientAt(t, logo, off, paint, y, x);
    }
  }

  /** After the gradient, outside the logo rectangle of
      `Replace(t, logo, off, off)` every pixel is that of `t`, painted when
      it is black. */
  lemma GradientAroundLogo(t: Grid, logo: Grid, off: nat, paint: Gradient.UnitRatio -> Pixel)
    requires Square(t) && Rect(logo) && off + |logo| <= |t| && off + Width(logo) <= |t|
    ensures var g := Gradient.AddGradient(Logo.Replace(t, logo, off, off), paint);
            forall y, x :: 0 <= y < |t| && 0 <= x < |t| && !(off <= y < off + |logo| && off <= x < off + Width(logo)) ==>
              g[y][x] == Gradient.PaintPixel(t[y][x], x, y, |t|, paint)
  {
    forall y, x | 0 <= y < |t| && 0 <= x < |t| && !(off <= y < off + |logo| && off <= x < off + Width(logo))
      ensures Gradient.AddGradient(Logo.Replace(t, logo, off, off), paint)[y][x]
           == Gradient.PaintPixel(t[y][x], x, y, |t|, paint)
    {
      ReplaceThenGradientAt(t, logo, off, paint, y, x);
    }
  }

  /** One pixel of the rendering after the transparency step: white turns
      clear, every other grey stays opaque. */
  lemma TransparentRenderAt(l: Luma, y: nat, x: nat)
    requires LumaSquare(l) && y < |l| && x < |l|
    ensures Transparency.MakeTransparent(ToRgba(l))[y][x]
         == if l[y][x] == 255 then ClearWhite else Rgba(l[y][x], l[y][x], l[y][x], 255)
  {
    assert ToRgba(l)[y][x] == Rgba(l[y][x], l[y][x], l[y][x], 255);
  }

  /** Inside a logo placed at `off` on the rendering after the transparency
      step, the gradient paints the logo's own black pixels. */
  lemma GradientOverRender(l: Luma, logo: Grid, off: nat, paint: Gradient.UnitRatio -> Pixel)
    requires LumaSquare(l) && Rect(logo) && off + |logo| <= |l| && off + Width(logo) <= |l|
    ensures var t := Transparency.MakeTransparent(ToRgba(l));
            var g := Gradient.AddGradient(Logo.Replace(t, logo, off, off), paint);
            Square(g) && |g| == |l|
            && forall y, x :: off <= y < off + |logo| && off <= x < off + Width(logo) ==>
                 g[y][x] == if logo[y - off][x - off] == Black then paint(Gradient.Position(x, y, |l|))
                            else logo[y - off][x - off]
  {
    GradientOverLogo(Transparency.MakeTransparent(ToRgba(l)), logo, off, paint);
  }

  /** Around a logo placed at `off`, the rendering after the transparency
      step and the gradient: black modules painted, white ones clear, other
      greys kept opaque. */
  lemma GradientAroundRender(l: Luma, logo: Grid, off: nat, paint: Gradient.UnitRatio -> Pixel)
    requires LumaSquare(l) && Rect(logo) && off + |logo| <= |l| && off + Width(logo) <= |l|
    ensures var t := Transparency.MakeTransparent(ToRgba(l));
            var g := Gradient.AddGradient(Logo.Replace(t, logo, off, off), paint);
            Square(g) && |g| == |l|
            && forall y, x :: 0 <= y < |l| && 0 <= x < |l| && !(off <= y < off + |logo| && off <= x < off + Width(logo)) ==>
                 g[y][x] == if l[y][x] == 0 then paint(Gradient.Position(x, y, |l|))
                            else if l[y][x] == 255 then ClearWhite
                            else Rgba(l[y][x], l[y][x], l[y][x], 255)
  {
    forall y, x | 0 <= y < |l| && 0 <= x < |l| && !(off <= y < off + |logo| && off <= x < off + Width(logo)) {
      RenderAroundAt(l, logo, off, paint, y, x);
    }
  }

  /** One pixel outside the logo rectangle, after all three steps. */
  lemma RenderAroundAt(l: Luma, logo: Grid, off: nat, paint: Gradient.UnitRatio -> Pixel, y: nat, x: nat)
    requires LumaSquare(l) && Rect(logo) && off + |logo| <= |l| && off + Width(logo) <= |l|
    requires y < |l| && x < |l| && !(off <= y < off + |logo| && off <= x < off + Width(logo))
    ensures Gradient.AddGradient(Logo.Replace(Transparency.MakeTransparent(ToRgba(l)), logo, off, off), paint)[y][x]
         == if l[y][x] == 0 then paint(Gradient.Position(x, y, |l|))
            else if l[y][x] == 255 then ClearWhite
            else Rgba(l[y][x], l[y][x], l[y][x], 255)
  {
    var t := Transparency.MakeTransparent(ToRgba(l));
    ReplaceThenGradientAt(t, logo, off, paint, y, x);
    TransparentRenderAt(l, y, x);
  }

  /** The rendering after the transparency step, with `logo` placed at
      `off` and then the gradient, has the pixels `AllStepsPixels`
      describes. */
  lemma RenderPixels(l: Luma, logo: Grid, off: nat, paint: Gradient.UnitRatio -> Pixel)
    requires LumaSquare(l) && Rect(logo) && off + |logo| <= |l| && off + Width(logo) <= |l|
    ensures AllStepsPixels(l, logo, off, paint,
              Gradient.AddGradient(Logo.Replace(Transparency.MakeTransparent(ToRgba(l)), logo, off, off), paint))
  {
    GradientOverRender(l, logo, off, paint);
    GradientAroundRender(l, logo, off, paint);
  }
}
