# QR code post-processing, modelled in Dafny

This project models the image post-processing core of a QR-code generator
(`src/qrcode_backend/src/core.rs`). A QR renderer produces a black-and-white
raster of the requested size. `generate` then runs up to three in-place steps
on it, in a fixed order, each switched on by an option:

1. **transparency** (`make_transparent`): opaque white `(255,255,255,255)`
   becomes `(255,255,255,0)`;
2. **logo** (`add_logo`): the logo goes in the centre of the raster.
   - The pixel width of one QR module (the *element size*) is measured on the
     main diagonal (`get_qr_element_size`).
   - The logo side starts at one module and grows by two modules at a time
     while it stays within `5 * image_size / 16`.
   - The decoded and resized logo overwrites the square at offset
     `(image_size - logo_size) / 2`.
3. **gradient** (`add_gradient`): every opaque black pixel is recoloured by a
   two-stop colour gradient. The gradient's argument is the pixel's Manhattan
   distance from the centre, divided by the image size.

The result is handed to a PNG encoder.

Files, one module each:

- `raster.dfy` (`Raster`): bytes, pixels, the three fixed colours, rasters as
  `seq<seq<Pixel>>` indexed `g[y][x]`, and the failure outcomes.
- `arith.dfy` (`Arith`): small facts about multiplication and division.
- `transparency.dfy` (`Transparency`): the transparency step.
- `element_size.dfy` (`ElementSize`): the element-size estimator. It is given
  as a recursive function, as the two-loop method the code runs, and through
  a declarative description of the first black run on the diagonal.
- `logo.dfy` (`Logo`): the logo steps.
  - The sizing loop, as a method and as a recursive function.
  - The centring offset.
  - `imageops::replace`.
  - `add_logo` itself.
- `gradient.dfy` (`Gradient`): the pixel selection, the distance, and the
  gradient step.
- `pipeline.dfy` (`Pipeline`): the grey-to-RGBA conversion of the rendered
  raster, `generate`, and end-to-end properties.

Things the code gets from libraries are parameters of the model:

- The renderer's output is an `Option` of an 8-bit grey square raster.
  `None` means the renderer rejected the input.
- The decoded logo is an `Option<Grid>`. `None` means the logo bytes did not
  decode.
- The resize is a function `(Grid, nat) -> Grid`. Asked for a square of side
  at least 1, it is required to return a rectangle that fits in that square
  (`Logo.ResizeFits`). The logo step only ever asks for a side of at least
  one element, so at least 1. Side 0 is left unconstrained, because the image
  crate's resize returns at least a 1-by-1 image there.
- The gradient colour function has type `UnitRatio -> Pixel`. A `UnitRatio`
  is a fraction `num/den` with `0 <= num <= den` and `den > 0`. So the
  verifier must prove, wherever `paint` is applied, that the distance divided
  by the image size lies in `[0, 1]` (`Gradient.Position`).

Squareness (`width == height`) is a precondition throughout. The code uses
`min(width, height)` as the size, and the renderer only produces square
rasters.

Facts about the code that the model makes explicit:

- With centre `n / 2`, the Manhattan distance of a pixel of an n-by-n raster
  is at most `2 * (n / 2) <= n`. So the gradient argument never exceeds 1.0
  (`Gradient.DistanceWithinSide`).
- The sizing loop ends with `L <= 5n/16 < L + 2e` when `e <= 5n/16`, and with
  `L = e` otherwise (`Logo.LogoSize`).
- An undecodable logo makes `decode().unwrap()` panic. The model reports the
  failure outcome `LogoDecodeFailed` instead, and no image is produced either
  way.
- The gradient also recolours the logo's exactly-black pixels
  (`Pipeline.AllStepsPixels`).

## Model

| member | source | states |
|---|---|---|
| `Transparency.ClearIfWhite` | src/qrcode_backend/src/core.rs:43-45 | The colour channels never change. A pixel changes exactly when it is opaque white, and then its alpha becomes 0. |
| `Transparency.MapRow` | src/qrcode_backend/src/core.rs:42-46 | Along one row, opaque white pixels become `(255,255,255,0)` and all others are kept. |
| `Transparency.MakeTransparent` | src/qrcode_backend/src/core.rs:41-47 | Shape is kept. Every opaque white pixel becomes `(255,255,255,0)`. Every other pixel is unchanged, bit for bit. |
| `Transparency.MakeTransparentIdempotent` | src/qrcode_backend/src/core.rs:41-47 | Running the transparency step twice gives the same raster as running it once. |
| `Transparency.NoOpaqueWhiteRemains` | src/qrcode_backend/src/core.rs:41-47 | After the step, no pixel is opaque white. |
| `Transparency.ClearExactlyWhereWhite` | src/qrcode_backend/src/core.rs:41-47 | On a fully opaque raster (what the renderer gives), an output pixel is transparent white if and only if the input pixel was opaque white. |
| `ElementSize.FirstBlack` | src/qrcode_backend/src/core.rs:119-126 | The first diagonal index at or after `i` with a black pixel, or the size when there is none. All diagonal pixels before it are not black. |
| `ElementSize.RunEnd` | src/qrcode_backend/src/core.rs:128-135 | The offset from `start` of the first non-black diagonal pixel, or the distance to the edge. The diagonal is black on the whole stretch before it. |
| `ElementSize.FirstBlackIs` | src/qrcode_backend/src/core.rs:119-126 | The first scan's answer is unique: any index with no black diagonal pixel before it and a black one at it (or the edge) is the scan's result. |
| `ElementSize.RunEndIs` | src/qrcode_backend/src/core.rs:128-135 | The second scan's answer is unique: any offset with black pixels before it and a non-black pixel at it (or the edge) is the scan's result. |
| `ElementSize.ElementSize` | src/qrcode_backend/src/core.rs:114-137 | The element size is at least 1. It is 1 or smaller than the raster side. |
| `ElementSize.ElementSizeOfFirstRun` | src/qrcode_backend/src/core.rs:120-135 | Suppose the diagonal pixels before `s` are not black, those on `[s, s+e)` are black, and `(s+e, s+e)` is inside the raster and not black. Then the element size is exactly `e`. |
| `ElementSize.ElementSizeFallback` | src/qrcode_backend/src/core.rs:120-135 | With no black pixel on the diagonal, or with the first black run reaching the edge, the element size is 1. |
| `ElementSize.ElementSizeCases` | src/qrcode_backend/src/core.rs:120-135 | Every square raster is in one of three cases: no black diagonal pixel, a first black run that reaches the edge, or a first black run of length equal to the element size that ends inside. |
| `ElementSize.ElementSizeDependsOnDiagonal` | src/qrcode_backend/src/core.rs:122-131 | Two rasters whose diagonal pixels are black at the same places have the same element size. |
| `ElementSize.ElementSizeOfDrawnCode` | src/qrcode_backend/src/core.rs:113-137 | Take a module matrix drawn with module width `m` behind a white quiet zone, with a dark top-left module and a light module at (1,1) as in a finder pattern. Its element size is exactly `m`. |
| `ElementSize.GetQrElementSize` | src/qrcode_backend/src/core.rs:114-138 | The two loops as the code writes them compute the element size. The loops stop at the first black diagonal pixel and then at the first non-black one, with 1 as the default. |
| `Logo.SizeBound` | src/qrcode_backend/src/core.rs:60 | `5 * image_size / 16` is the largest `b` with `16b <= 5n`. |
| `Logo.Grow` | src/qrcode_backend/src/core.rs:60-62 | From side `l`, the loop ends at a side of at least `l` where one more step of `2e` would exceed `5n/16`. That side stays within `5n/16` whenever `l` is within it. |
| `Logo.GrowAddsSteps` | src/qrcode_backend/src/core.rs:60-62 | The side the loop ends at is the start side plus `2e` for each iteration. |
| `Logo.GrowMaximal` | src/qrcode_backend/src/core.rs:60-62 | Any side reachable from `l` in steps of `2e` without exceeding `5n/16` is at most the side the loop ends at. |
| `Logo.LogoSize` | src/qrcode_backend/src/core.rs:57-62 | The logo side is at least the element size `e`. One more step of `2e` would exceed `5n/16`. It is within `5n/16` whenever `e` is, and equals `e` otherwise. |
| `Logo.LogoSizeOddMultiple` | src/qrcode_backend/src/core.rs:57-62 | The logo side is `e(2k+1)`, with `k` the number of iterations: an odd multiple of the element size. |
| `Logo.GrowLogoSize` | src/qrcode_backend/src/core.rs:57-62 | The sizing loop as written, with invariant `l = e(2k+1)` and measure `5n/16 - l`, ends with the side `LogoSize` describes, an odd multiple of `e` whose factor counts the iterations. |
| `Logo.LogoSizeMaximal` | src/qrcode_backend/src/core.rs:57-62 | Every odd multiple of `e` within `5n/16` is at most the chosen side. The loop finds the largest one. |
| `Logo.LogoAreaBound` | src/qrcode_backend/src/core.rs:50-62 | When `e <= 5n/16`, the logo square covers at most a tenth of the image (`10 L^2 <= n^2`), as the doc comment promises. |
| `Logo.LogoSide` | src/qrcode_backend/src/core.rs:53-62 | On a non-empty raster the logo side is at most the raster side, so `image_size - logo_size` cannot underflow. |
| `Logo.CenterOffset` | src/qrcode_backend/src/core.rs:79-80 | The offset `(n - L)/2` keeps the square inside the image (`off + L <= n`). The margin after it is the margin before it or one more. |
| `Logo.Replace` | src/qrcode_backend/src/core.rs:76-81 | Shape is kept. Pixels under the placed logo are the logo's pixels. All other pixels are unchanged. |
| `Logo.ReplaceOverlaid` | src/qrcode_backend/src/core.rs:76-81 | Placing a logo that fits inside a square raster keeps the raster square. It puts the logo's pixels in its rectangle and keeps every other pixel. |
| `Logo.AddLogo` | src/qrcode_backend/src/core.rs:52-82 | An undecodable logo fails. An empty raster fails on the offset underflow. Otherwise the result is a raster of the same size with the resized logo at the centred offset, and every pixel outside the logo's rectangle unchanged. |
| `Logo.AddLogoIsCentredReplace` | src/qrcode_backend/src/core.rs:64-81 | On a non-empty raster with a decodable logo, `add_logo` is `replace` of the resized logo at the centred offset, and the resized logo fits inside the image. |
| `Gradient.DistanceWithinSide` | src/qrcode_backend/src/core.rs:101-107 | The Manhattan distance from `(n/2, n/2)` of any pixel of an n-by-n raster is at most `n`. |
| `Gradient.Distance` | src/qrcode_backend/src/core.rs:101-106 | The Manhattan distance from `(n/2, n/2)` is zero exactly at the centre pixel. |
| `Gradient.Position` | src/qrcode_backend/src/core.rs:107 | The colour function's argument for pixel `(x, y)` is its distance over `n`, a fraction in `[0, 1]`, and it is 0 exactly at the centre pixel. |
| `Gradient.PaintPixel` | src/qrcode_backend/src/core.rs:103-108 | Only an opaque black pixel can change. It takes the colour at its distance over `n`. |
| `Gradient.PaintRow` | src/qrcode_backend/src/core.rs:102-110 | Along one row, black pixels take the colour at their own distance and the others are kept. |
| `Gradient.PaintRows` | src/qrcode_backend/src/core.rs:102-110 | Row by row, black pixels take the colour at their own distance and the others are kept. |
| `Gradient.AddGradient` | src/qrcode_backend/src/core.rs:86-111 | Size is kept. Each opaque black pixel at `(x,y)` becomes the colour at `distance/n`. Every other pixel is unchanged. |
| `Gradient.StopColoursOpaqueNotBlack` | src/qrcode_backend/src/core.rs:92-98 | A colour between the stops `(100,0,100,255)` and `(30,5,60,255)` is opaque and not black. |
| `Gradient.GradientLeavesNoBlack` | src/qrcode_backend/src/core.rs:92-110 | With the two-stop gradient, every pixel that was black comes out opaque, and no black pixel is left. |
| `Gradient.AddGradientIdempotent` | src/qrcode_backend/src/core.rs:92-110 | With the two-stop gradient, painting twice gives the same raster as painting once. |
| `Pipeline.GreyRow` | src/qrcode_backend/src/core.rs:21 | Along one row, grey level `v` becomes the opaque pixel `(v,v,v,255)`. |
| `Pipeline.ToRgba` | src/qrcode_backend/src/core.rs:16-21 | The grey rendering becomes an opaque square RGBA raster: grey level `v` becomes `(v,v,v,255)`. |
| `Pipeline.TransparencyKeepsElementSize` | src/qrcode_backend/src/core.rs:23-28 | The transparency step keeps the raster square and does not change the element size that the logo step measures afterwards. |
| `Pipeline.Generate` | src/qrcode_backend/src/core.rs:9-38 | A renderer failure fails. With the logo off nothing else can fail. With the logo on, an undecodable logo fails, and a decodable one succeeds exactly on a non-empty raster. A result has the rendered size. |
| `Pipeline.AllStepsOffKeepsRender` | src/qrcode_backend/src/core.rs:23-37 | With all three steps off, the encoder receives the rendered raster unchanged. |
| `Pipeline.AbsentTransparencyIsFalse` | src/qrcode_backend/src/core.rs:23-25 | `add_transparency = None` gives the same result as `Some(false)`. |
| `Pipeline.PlainCodeIsBlackAndWhite` | src/qrcode_backend/src/core.rs:16-33 | A black-and-white rendering with all steps off comes out with only opaque black and opaque white pixels. |
| `Pipeline.LogoOnlyChangesCentre` | src/qrcode_backend/src/core.rs:27-29 | With only the logo on, every changed pixel lies in the centred square of the logo side. When one module fits under the bound, that square is at most a tenth of the image. |
| `Pipeline.TransparencyKeepsLogoPlace` | src/qrcode_backend/src/core.rs:23-29 | The logo side computed after the transparency step equals the one computed on the rendering. |
| `Pipeline.AllSteps` | src/qrcode_backend/src/core.rs:23-33 | Transparency, then the logo, then the gradient, on a non-empty rendering with a decodable logo. The result is square with the rendered size. |
| `Pipeline.AllStepsInOrder` | src/qrcode_backend/src/core.rs:23-33 | With all steps on, the result is transparency, then logo, then gradient, applied in that order. |
| `Pipeline.TransparentRenderAt` | src/qrcode_backend/src/core.rs:16-25 | After conversion and the transparency step, a rendered white pixel is transparent white and any other grey `v` is opaque `(v,v,v,255)`. |
| `Pipeline.ReplaceThenGradientAt` | src/qrcode_backend/src/core.rs:27-33 | After a logo is placed and the gradient runs, a pixel is the logo's pixel inside the logo rectangle and the input's pixel elsewhere, painted when it is black. |
| `Pipeline.GradientOverLogo` | src/qrcode_backend/src/core.rs:27-33 | After the gradient, every pixel inside the logo rectangle is the logo's pixel, painted when the logo is black there. |
| `Pipeline.GradientAroundLogo` | src/qrcode_backend/src/core.rs:27-33 | After the gradient, every pixel outside the logo rectangle is the input's pixel, painted when it is black. |
| `Pipeline.GradientOverRender` | src/qrcode_backend/src/core.rs:23-33 | With transparency, a logo and the gradient on the rendering, a pixel inside the logo rectangle is the logo's pixel, painted by the gradient when it is black. |
| `Pipeline.GradientAroundRender` | src/qrcode_backend/src/core.rs:23-33 | With transparency, a logo and the gradient on the rendering, a pixel outside the logo rectangle has one of three values: painted if the rendering was black there, transparent white if it was white, and the rendered grey otherwise. |
| `Pipeline.RenderAroundAt` | src/qrcode_backend/src/core.rs:23-33 | One pixel outside the logo rectangle after all three steps: painted if the rendering was black there, transparent white if it was white, and the rendered grey otherwise. |
| `Pipeline.RenderPixels` | src/qrcode_backend/src/core.rs:23-33 | Together: the rendering after all three steps, for a logo at any offset inside the image, has the pixels `AllStepsPixels` describes. |
| `Pipeline.AllStepsHavePixels` | src/qrcode_backend/src/core.rs:23-33 | The three steps composed have exactly the per-pixel result above, with the logo placed by the rendering's own element size. |
| `Pipeline.FullPipeline` | src/qrcode_backend/src/core.rs:9-38 | `generate` with all steps on succeeds on a non-empty rendering with a decodable logo, and gives that per-pixel result. The logo's white stays opaque because transparency runs first. The logo's black is painted because the gradient runs last. |

## Left out

- QR rendering (`qrcode_generator::to_image_buffer`, core.rs:16-20) is a
  library call. The model takes its grey raster, or its failure, as an input
  and assumes the raster is square.
- PNG encoding (core.rs:35-37) is a library call. The model's result is the
  raster handed to the encoder, and the encoder's own error is not modelled.
- Logo decoding with `with_guessed_format`, and the Lanczos3 resize
  (core.rs:64-74), are library calls. The decoded logo is an input, and the
  resize is a function parameter that must return a rectangle fitting in the
  requested square. The library keeps the aspect ratio, so the model allows
  any such rectangle, not only an exact L-by-L one.
- The `colorgrad` gradient (core.rs:92-98, 107) is floating point. Its colour
  function is a parameter. The properties that depend on its colours assume
  that every channel lies between the two stops (`LinearBetweenStops`).
- Integer widths: the model uses unbounded integers.
  - The code computes `5 * image_size` in `usize`. On a 32-bit target such
    as wasm32 this overflows once `image_size > 858993459`, and the model
    does not wrap there. An RGBA raster that large would need more than
    2.9 * 10^18 bytes, so none fits in memory.
  - The `u32` distance sum is at most `image_size`
    (`Gradient.DistanceWithinSide`), so it cannot overflow while the image's
    sides fit in `u32`.
  - `image_size - logo_size` goes below zero only when `image_size == 0`.
    The model follows overflow-checked semantics there, a panic, and reports
    it as `OffsetUnderflow`. A build without overflow checks wraps instead,
    and `replace` then clips the logo away entirely. The only caller, in
    `lib.rs`, always asks for 1024 pixels, so the case does not arise from it.
  - The casts `as i64` and `as u32` are the identity on these values.
- Non-square rasters: the code takes `min(width, height)`. Every raster here is
  square, so that case is not modelled.
- Everything in `lib.rs` is left out. That covers the canister endpoints, the
  Candid types, the embedded logo assets, the `QrResult` wrapping and the
  instruction-count logging. Its one choice, the transparent logo variant
  when `add_transparency == Some(true)`, is left to the caller, which
  supplies the decoded logo.
