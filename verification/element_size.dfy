/** The element-size estimator: the pixel width of one QR module, read off
    the main diagonal of a square raster. */
module ElementSize {
  import opened Raster
  import opened Arith

  /** Diagonal pixel `(i, i)` is opaque black. */
  predicate DiagBlack(g: Grid, i: nat)
    requires Square(g) && i < |g|
  {
    g[i][i] == Black
  }

  /** First diagonal index at or after `i` whose pixel is black, or `|g|`
      when there is none. */
  function FirstBlack(g: Grid, i: nat): (s: nat)
    requires Square(g) && i <= |g|
    ensures i <= s <= |g|
    ensures forall j :: i <= j < s ==> !DiagBlack(g, j)
    ensures s < |g| ==> DiagBlack(g, s)
    decreases |g| - i
  {
    if i == |g| then |g|
    else if DiagBlack(g, i) then i
    else FirstBlack(g, i + 1)
  }

  /** First offset `k >= i` at which diagonal pixel `(s + k, s + k)` is not
      black, or `|g| - s` when the run reaches the edge. */
  function RunEnd(g: Grid, s: nat, i: nat): (k: nat)
    requires Square(g) && s + i <= |g|
    ensures i <= k <= |g| - s
    ensures forall j :: s + i <= j < s + k ==> DiagBlack(g, j)
    ensures s + k < |g| ==> !DiagBlack(g, s + k)
    decreases |g| - s - i
  {
    if s + i == |g| then |g| - s
    else if !DiagBlack(g, s + i) then i
    else RunEnd(g, s, i + 1)
  }

  /** No diagonal pixel is black. */
  ghost predicate NoBlackOnDiagonal(g: Grid)
    requires Square(g)
  {
    forall j :: 0 <= j < |g| ==> !DiagBlack(g, j)
  }

  /** `s` is the first black diagonal index and the black run from it
      reaches the edge of the raster. */
  ghost predicate RunToEdge(g: Grid, s: nat)
    requires Square(g)
  {
    s < |g|
    && (forall j :: 0 <= j < s ==> !DiagBlack(g, j))
    && (forall j :: s <= j < |g| ==> DiagBlack(g, j))
  }

  /** `s` is the first black diagonal index, the diagonal is black on
      `[s, s + e)`, and `(s + e, s + e)` is inside the raster and not black. */
  ghost predicate FirstBlackRun(g: Grid, s: nat, e: nat)
    requires Square(g)
  {
    e >= 1 && s + e < |g|
    && (forall j :: 0 <= j < s ==> !DiagBlack(g, j))
    && (forall j :: s <= j < s + e ==> DiagBlack(g, j))
    && !DiagBlack(g, s + e)
  }

  /** The estimate: the length of the first black diagonal run, or 1 when
      there is no black diagonal pixel or the run reaches the edge. */
  function ElementSize(g: Grid): (e: nat)
    requires Square(g)
    ensures e >= 1
    ensures e == 1 || e < |g|
  {
    var s := FirstBlack(g, 0);
    var k := RunEnd(g, s, 0);
    if s + k < |g| then k else 1
  }

  /** `FirstBlack` from `i` is any `s` that has no black diagonal pixel in
      `[i, s)` and a black one at `s` (or is the edge). */
  lemma {:induction false} FirstBlackIs(g: Grid, i: nat, s: nat)
    requires Square(g) && i <= s <= |g|
    requires forall j :: i <= j < s ==> !DiagBlack(g, j)
    requires s < |g| ==> DiagBlack(g, s)
    ensures FirstBlack(g, i) == s
    decreases s - i
  {
    if i < s {
      FirstBlackIs(g, i + 1, s);
    }
  }

  /** `RunEnd` from offset `i` is any `k` whose diagonal stretch
      `[s + i, s + k)` is black and whose pixel `s + k` is not (or is the edge). */
  lemma {:induction false} RunEndIs(g: Grid, s: nat, i: nat, k: nat)
    requires Square(g) && i <= k && s + k <= |g|
    requires forall j :: s + i <= j < s + k ==> DiagBlack(g, j)
    requires s + k < |g| ==> !DiagBlack(g, s + k)
    ensures RunEnd(g, s, i) == k
    decreases k - i
  {
    if i < k {
      RunEndIs(g, s, i + 1, k);
    }
  }

  /** When the first black run ends inside the raster, the estimate is its length. */
  lemma ElementSizeOfFirstRun(g: Grid, s: nat, e: nat)
    requires Square(g)
    requires FirstBlackRun(g, s, e)
    ensures ElementSize(g) == e
  {
    FirstBlackIs(g, 0, s);
    RunEndIs(g, s, 0, e);
  }

  /** The two fallback cases both give 1. */
  lemma ElementSizeFallback(g: Grid)
    requires Square(g)
    requires NoBlackOnDiagonal(g) || exists s :: RunToEdge(g, s)
    ensures ElementSize(g) == 1
  {
    if NoBlackOnDiagonal(g) {
      FirstBlackIs(g, 0, |g|);
    } else {
      var s :| RunToEdge(g, s);
      FirstBlackIs(g, 0, s);
      RunEndIs(g, s, 0, |g| - s);
    }
  }

  /** Every square raster falls in one of the three cases above. */
  lemma ElementSizeCases(g: Grid)
    requires Square(g)
    ensures NoBlackOnDiagonal(g) || RunToEdge(g, FirstBlack(g, 0))
            || FirstBlackRun(g, FirstBlack(g, 0), ElementSize(g))
  {
    var s := FirstBlack(g, 0);
    if s < |g| {
      var k := RunEnd(g, s, 0);
      if s + k < |g| {
        assert k >= 1;
        assert FirstBlackRun(g, s, k);
      }
    }
  }

  /** The estimate only looks at which diagonal pixels are black. */
  lemma ElementSizeDependsOnDiagonal(g: Grid, h: Grid)
    requires Square(g) && Square(h) && |g| == |h|
    requires forall j :: 0 <= j < |g| ==> (DiagBlack(g, j) <==> DiagBlack(h, j))
    ensures ElementSize(g) == ElementSize(h)
  {
    if NoBlackOnDiagonal(g) {
      ElementSizeFallback(g);
      ElementSizeFallback(h);
    } else if RunToEdge(g, FirstBlack(g, 0)) {
      assert RunToEdge(h, FirstBlack(g, 0));
      ElementSizeFallback(g);
      ElementSizeFallback(h);
    } else {
      ElementSizeCases(g);
      ElementSizeOfFirstRun(h, FirstBlack(g, 0), ElementSize(g));
    }
  }

  /** Whether pixel `(x, y)` falls on a dark module when each module of
      `mods` (true = dark) is drawn as an `m`-pixel square behind a white
      quiet zone `q` pixels wide. */
  function OnDarkModule(mods: seq<seq<bool>>, m: nat, q: nat, x: nat, y: nat): bool
    requires m >= 1
  {
    q <= x && q <= y
    && (y - q) / m < |mods| && (x - q) / m < |mods[(y - q) / m]|
    && mods[(y - q) / m][(x - q) / m]
  }

  /** `g` is the square matrix `mods` drawn with module width `m` and quiet
      zone `q`, the rest of the raster white. */
  ghost predicate DrawnCode(g: Grid, mods: seq<seq<bool>>, m: nat, q: nat)
    requires Square(g)
  {
    m >= 1
    && (forall i :: 0 <= i < |mods| ==> |mods[i]| == |mods|)
    && q + |mods| * m <= |g|
    && forall y, x :: 0 <= y < |g| && 0 <= x < |g| ==>
         g[y][x] == if OnDarkModule(mods, m, q, x, y) then Black else White
  }

  /** On a drawn code whose top-left module is dark and whose next diagonal
      module is light, as in a QR finder pattern, the estimate is exactly the
      module width. */
  lemma ElementSizeOfDrawnCode(g: Grid, mods: seq<seq<bool>>, m: nat, q: nat)
    requires Square(g) && DrawnCode(g, mods, m, q)
    requires |mods| >= 2 && mods[0][0] && !mods[1][1]
    ensures ElementSize(g) == m
  {
    MulLe(2, |mods|, m);
    forall j | q <= j < q + m
      ensures DiagBlack(g, j)
    {
      DivIs(j - q, m, 0);
    }
    DivIs(m, m, 1);
    assert !DiagBlack(g, q + m);
    ElementSizeOfFirstRun(g, q, m);
  }

  /** The scan as the code runs it: a loop to the first black diagonal pixel,
      then a loop to the first non-black one after it. */
  method GetQrElementSize(g: Grid) returns (e: nat)
    requires Square(g)
    ensures e == ElementSize(g)
  {
    var size := |g|;
    var start := size;
    var i := 0;
    while i < size
      invariant 0 <= i <= size
      invariant forall j :: 0 <= j < i ==> !DiagBlack(g, j)
      invariant start == size
    {
      if g[i][i] == Black {
        start := i;
        break;
      }
      i := i + 1;
    }
    FirstBlackIs(g, 0, start);

    e := 1;
    i := 0;
    while i < size - start
      invariant 0 <= i <= size - start
      invariant forall j :: start <= j < start + i ==> DiagBlack(g, j)
      invariant e == 1
    {
      if g[start + i][start + i] != Black {
        RunEndIs(g, start, 0, i);
        e := i;
        break;
      }
      i := i + 1;
    }
    if e == 1 && start + i == size {
      RunEndIs(g, start, 0, i);
    }
  }
}
