/** The blur filter (ImageShop.py `blur`). The source walks the pixel array
    in row-major order and overwrites each interior pixel as it goes, so the
    pixel above and the pixel to the left of a cell have already been blurred
    when the cell is computed. The model keeps that order: `Blur` is a fold
    of `BlurAt` over the cells, row by row. */
module Blurring {
  import opened PyBuiltins
  import opened Pixels

  /** A cell off the outermost rows and columns of an h-by-w array. */
  predicate IsInterior(h: int, w: int, i: int, j: int)
  {
    0 < i < h - 1 && 0 < j < w - 1
  }

  /** `round(mean([a, b, c, d, e]))` of five channel values. */
  function RoundedMean5(a: byte, b: byte, c: byte, d: byte, e: byte): (m: byte)
    ensures IsRoundHalfEven(a + b + c + d + e, 5, m)
  {
    RoundHalfEvenBounds(a + b + c + d + e, 5, 255);
    RoundHalfEven(a + b + c + d + e, 5)
  }

  /** The new pixel built from a pixel and its four neighbours (down, up,
      right, left), channel by channel. */
  function PlusMean(c: Pixel, dn: Pixel, up: Pixel, rt: Pixel, lf: Pixel): (p: Pixel)
    ensures p.alpha == 255
    ensures IsRoundHalfEven(c.red + dn.red + up.red + rt.red + lf.red, 5, p.red)
    ensures IsRoundHalfEven(c.green + dn.green + up.green + rt.green + lf.green, 5, p.green)
    ensures IsRoundHalfEven(c.blue + dn.blue + up.blue + rt.blue + lf.blue, 5, p.blue)
  {
    CreateRGBPixel(
      RoundedMean5(c.red, dn.red, up.red, rt.red, lf.red),
      RoundedMean5(c.green, dn.green, up.green, rt.green, lf.green),
      RoundedMean5(c.blue, dn.blue, up.blue, rt.blue, lf.blue))
  }

  /** The channel the source reads out of `bin(p)` at string positions lo
      to lo + 8. */
  function ReadChannel(p: Pixel, lo: nat): byte
    requires lo <= 26
  {
    BinField(p, lo, lo + 8)
  }

  /** The pixel the source writes at interior cell (i, j) of the current
      array: every channel read through `bin` slices and averaged. */
  function BlurredPixel(cur: Grid, i: nat, j: nat): (p: Pixel)
    requires IsPixelArray(cur) && i + 1 < |cur| && 0 < i && 0 < j && j + 1 < |cur[0]|
    ensures p.alpha == 255
  {
    var c, dn, up, rt, lf := cur[i][j], cur[i + 1][j], cur[i - 1][j], cur[i][j + 1], cur[i][j - 1];
    CreateRGBPixel(
      RoundedMean5(ReadChannel(c, 10), ReadChannel(dn, 10), ReadChannel(up, 10), ReadChannel(rt, 10), ReadChannel(lf, 10)),
      RoundedMean5(ReadChannel(c, 18), ReadChannel(dn, 18), ReadChannel(up, 18), ReadChannel(rt, 18), ReadChannel(lf, 18)),
      RoundedMean5(ReadChannel(c, 26), ReadChannel(dn, 26), ReadChannel(up, 26), ReadChannel(rt, 26), ReadChannel(lf, 26)))
  }

  /** When the five pixels read have high alpha, the string slicing reads the
      true channels. */
  lemma BlurredPixelOfHighAlpha(cur: Grid, i: nat, j: nat)
    requires IsPixelArray(cur) && i + 1 < |cur| && 0 < i && 0 < j && j + 1 < |cur[0]|
    requires HighAlpha(cur[i][j]) && HighAlpha(cur[i + 1][j]) && HighAlpha(cur[i - 1][j])
    requires HighAlpha(cur[i][j + 1]) && HighAlpha(cur[i][j - 1])
    ensures BlurredPixel(cur, i, j) == PlusMean(cur[i][j], cur[i + 1][j], cur[i - 1][j], cur[i][j + 1], cur[i][j - 1])
  {
    BinFieldsOfHighAlpha(cur[i][j]);
    BinFieldsOfHighAlpha(cur[i + 1][j]);
    BinFieldsOfHighAlpha(cur[i - 1][j]);
    BinFieldsOfHighAlpha(cur[i][j + 1]);
    BinFieldsOfHighAlpha(cur[i][j - 1]);
  }

  /** One step of the loop: the cell (i, j) is overwritten if it is interior. */
  function BlurAt(cur: Grid, i: nat, j: nat): (r: Grid)
    requires IsPixelArray(cur) && i < |cur| && j < |cur[0]|
    ensures HasShape(r, |cur|, |cur[0]|)
    ensures forall a, b :: 0 <= a < |cur| && 0 <= b < |cur[0]| && (a != i || b != j) ==> r[a][b] == cur[a][b]
    ensures !IsInterior(|cur|, |cur[0]|, i, j) ==> r == cur
  {
    if IsInterior(|cur|, |cur[0]|, i, j) then cur[i := cur[i][j := BlurredPixel(cur, i, j)]] else cur
  }

  /** The inner loop from column j to the end of row i. */
  function BlurRowFrom(cur: Grid, i: nat, j: nat): (r: Grid)
    requires IsPixelArray(cur) && i < |cur| && j <= |cur[0]|
    ensures HasShape(r, |cur|, |cur[0]|)
    ensures forall a, b :: 0 <= a < |cur| && 0 <= b < |cur[0]| && !IsInterior(|cur|, |cur[0]|, a, b) ==> r[a][b] == cur[a][b]
    decreases |cur[0]| - j
  {
    if j == |cur[0]| then cur else BlurRowFrom(BlurAt(cur, i, j), i, j + 1)
  }

  /** The outer loop from row i to the last row. */
  function BlurRowsFrom(cur: Grid, i: nat): (r: Grid)
    requires IsPixelArray(cur) && i <= |cur|
    ensures HasShape(r, |cur|, |cur[0]|)
    ensures forall a, b :: 0 <= a < |cur| && 0 <= b < |cur[0]| && !IsInterior(|cur|, |cur[0]|, a, b) ==> r[a][b] == cur[a][b]
    decreases |cur| - i
  {
    if i == |cur| then cur else BlurRowsFrom(BlurRowFrom(cur, i, 0), i + 1)
  }

  /** `blur`: the array keeps its size and every border pixel. */
  function Blur(g: Grid): (r: Grid)
    requires IsPixelArray(g)
    ensures HasShape(r, |g|, |g[0]|)
    ensures forall i, j :: 0 <= i < |g| && 0 <= j < |g[0]| && !IsInterior(|g|, |g[0]|, i, j) ==> r[i][j] == g[i][j]
  {
    BlurRowsFrom(g, 0)
  }

  // ---------------------------------------------------------------------------
  // What the in-place loop computes
  // ---------------------------------------------------------------------------

  /** Cell (r, c) is visited before cell (i, j) in row-major order. */
  predicate Before(r: int, c: int, i: int, j: int)
  {
    r < i || (r == i && c < j)
  }

  /** The value the loop leaves in cell (r, c): an interior cell gets the
      plus mean of its own, lower and right input pixels and of the values
      already left in the cells above and to the left of it; every other
      cell keeps its input pixel. */
  function BlurredValue(g: Grid, r: nat, c: nat): Pixel
    requires IsPixelArray(g) && r < |g| && c < |g[0]|
    decreases r, c
  {
    if IsInterior(|g|, |g[0]|, r, c)
    then PlusMean(g[r][c], g[r + 1][c], BlurredValue(g, r - 1, c), g[r][c + 1], BlurredValue(g, r, c - 1))
    else g[r][c]
  }

  /** The loop invariant: cells visited before (i, j) hold their final
      value, the others still hold the input. */
  ghost predicate BlurredUpTo(g: Grid, cur: Grid, i: nat, j: nat)
    requires IsPixelArray(g)
  {
    && HasShape(cur, |g|, |g[0]|)
    && (forall r, c :: 0 <= r < |g| && 0 <= c < |g[0]| && Before(r, c, i, j) ==> cur[r][c] == BlurredValue(g, r, c))
    && (forall r, c :: 0 <= r < |g| && 0 <= c < |g[0]| && !Before(r, c, i, j) ==> cur[r][c] == g[r][c])
  }

  /** Visiting cell (i, j) leaves its final value there. */
  lemma BlurAtValue(g: Grid, cur: Grid, i: nat, j: nat)
    requires IsPixelArray(g) && AllHighAlpha(g) && i < |g| && j < |g[0]|
    requires BlurredUpTo(g, cur, i, j)
    ensures BlurAt(cur, i, j)[i][j] == BlurredValue(g, i, j)
  {
    assert !Before(i, j, i, j);
    if IsInterior(|g|, |g[0]|, i, j) {
      assert Before(i - 1, j, i, j) && Before(i, j - 1, i, j);
      assert !Before(i + 1, j, i, j) && !Before(i, j + 1, i, j);
      assert HighAlpha(cur[i - 1][j]) && HighAlpha(cur[i][j - 1]);
      BlurredPixelOfHighAlpha(cur, i, j);
    }
  }

  /** Visiting cell (i, j) keeps the loop invariant, one cell further on. */
  lemma BlurAtStep(g: Grid, cur: Grid, i: nat, j: nat)
    requires IsPixelArray(g) && AllHighAlpha(g) && i < |g| && j < |g[0]|
    requires BlurredUpTo(g, cur, i, j)
    ensures BlurredUpTo(g, BlurAt(cur, i, j), i, j + 1)
  {
    var next := BlurAt(cur, i, j);
    BlurAtValue(g, cur, i, j);
    forall r, c | 0 <= r < |g| && 0 <= c < |g[0]| && Before(r, c, i, j + 1)
      ensures next[r][c] == BlurredValue(g, r, c)
    {
      if r != i || c != j {
        assert Before(r, c, i, j);
      }
    }
    forall r, c | 0 <= r < |g| && 0 <= c < |g[0]| && !Before(r, c, i, j + 1)
      ensures next[r][c] == g[r][c]
    {
      assert !Before(r, c, i, j);
    }
  }

  /** Having visited all of row i is having visited every row before i + 1. */
  lemma RowFinished(g: Grid, cur: Grid, i: nat)
    requires IsPixelArray(g) && i < |g|
    requires BlurredUpTo(g, cur, i, |g[0]|)
    ensures BlurredUpTo(g, cur, i + 1, 0)
  {
    forall r, c | 0 <= r < |g| && 0 <= c < |g[0]| && Before(r, c, i + 1, 0)
      ensures cur[r][c] == BlurredValue(g, r, c)
    {
      assert Before(r, c, i, |g[0]|);
    }
    forall r, c | 0 <= r < |g| && 0 <= c < |g[0]| && !Before(r, c, i + 1, 0)
      ensures cur[r][c] == g[r][c]
    {
      assert !Before(r, c, i, |g[0]|);
    }
  }

  lemma {:induction false} BlurRowFromInvariant(g: Grid, cur: Grid, i: nat, j: nat)
    requires IsPixelArray(g) && AllHighAlpha(g) && i < |g| && j <= |g[0]|
    requires BlurredUpTo(g, cur, i, j)
    ensures BlurredUpTo(g, BlurRowFrom(cur, i, j), i + 1, 0)
    decreases |g[0]| - j
  {
    if j == |g[0]| {
      RowFinished(g, cur, i);
    } else {
      BlurAtStep(g, cur, i, j);
      BlurRowFromInvariant(g, BlurAt(cur, i, j), i, j + 1);
    }
  }

  lemma {:induction false} BlurRowsFromInvariant(g: Grid, cur: Grid, i: nat)
    requires IsPixelArray(g) && AllHighAlpha(g) && i <= |g|
    requires BlurredUpTo(g, cur, i, 0)
    ensures BlurredUpTo(g, BlurRowsFrom(cur, i), |g|, 0)
    decreases |g| - i
  {
    if i < |g| {
      BlurRowFromInvariant(g, cur, i, 0);
      BlurRowsFromInvariant(g, BlurRowFrom(cur, i, 0), i + 1);
    }
  }

  /** The result is the value the in-place loop leaves in every cell. */
  lemma BlurComputes(g: Grid)
    requires IsPixelArray(g) && AllHighAlpha(g)
    ensures forall i, j :: 0 <= i < |g| && 0 <= j < |g[0]| ==> Blur(g)[i][j] == BlurredValue(g, i, j)
  {
    BlurRowsFromInvariant(g, g, 0);
    forall i, j | 0 <= i < |g| && 0 <= j < |g[0]|
      ensures Blur(g)[i][j] == BlurredValue(g, i, j)
    {
      assert Before(i, j, |g|, 0);
    }
  }

  /** Every interior pixel of the result is the rounded mean of the input
      pixel, the input pixels below and to the right of it, and the already
      blurred result pixels above and to the left of it. */
  lemma BlurInPlace(g: Grid)
    requires IsPixelArray(g) && AllHighAlpha(g)
    ensures forall i, j {:trigger IsInterior(|g|, |g[0]|, i, j)} ::
              0 <= i < |g| && 0 <= j < |g[0]| && IsInterior(|g|, |g[0]|, i, j) ==>
              Blur(g)[i][j] == PlusMean(g[i][j], g[i + 1][j], Blur(g)[i - 1][j], g[i][j + 1], Blur(g)[i][j - 1])
  {
    BlurComputes(g);
  }

  /** An array with fewer than three rows or columns has no interior and
      comes back unchanged. */
  lemma BlurSmallUnchanged(g: Grid)
    requires IsPixelArray(g)
    requires |g| < 3 || |g[0]| < 3
    ensures Blur(g) == g
  {
    var out := Blur(g);
    forall i | 0 <= i < |g|
      ensures out[i] == g[i]
    {
      assert forall j :: 0 <= j < |g[0]| ==> out[i][j] == g[i][j];
    }
  }

  // ---------------------------------------------------------------------------
  // Uniform arrays and a worked example
  // ---------------------------------------------------------------------------

  predicate IsUniform(g: Grid, p: Pixel)
  {
    forall i, j :: 0 <= i < |g| && 0 <= j < |g[i]| ==> g[i][j] == p
  }

  lemma UpdateWithSame<T>(s: seq<T>, k: nat, x: T)
    requires k < |s| && s[k] == x
    ensures s[k := x] == s
  {
  }

  /** The plus mean of five copies of one pixel with alpha 255 is that pixel. */
  lemma PlusMeanOfEqual(p: Pixel)
    requires p.alpha == 255
    ensures PlusMean(p, p, p, p, p) == p
  {
    RoundHalfEvenExact(p.red, 5);
    RoundHalfEvenExact(p.green, 5);
    RoundHalfEvenExact(p.blue, 5);
  }

  lemma BlurAtUniform(cur: Grid, p: Pixel, i: nat, j: nat)
    requires IsPixelArray(cur) && i < |cur| && j < |cur[0]|
    requires IsUniform(cur, p) && p.alpha == 255
    ensures BlurAt(cur, i, j) == cur
  {
    if IsInterior(|cur|, |cur[0]|, i, j) {
      assert cur[i][j] == p && cur[i + 1][j] == p && cur[i - 1][j] == p;
      assert cur[i][j + 1] == p && cur[i][j - 1] == p;
      assert BlurredPixel(cur, i, j) == p by {
        BlurredPixelOfHighAlpha(cur, i, j);
        PlusMeanOfEqual(p);
      }
      UpdateWithSame(cur[i], j, BlurredPixel(cur, i, j));
      UpdateWithSame(cur, i, cur[i]);
    }
  }

  lemma {:induction false} BlurRowFromUniform(cur: Grid, p: Pixel, i: nat, j: nat)
    requires IsPixelArray(cur) && i < |cur| && j <= |cur[0]|
    requires IsUniform(cur, p) && p.alpha == 255
    ensures BlurRowFrom(cur, i, j) == cur
    decreases |cur[0]| - j
  {
    if j < |cur[0]| {
      BlurAtUniform(cur, p, i, j);
      BlurRowFromUniform(cur, p, i, j + 1);
    }
  }

  lemma {:induction false} BlurRowsFromUniform(cur: Grid, p: Pixel, i: nat)
    requires IsPixelArray(cur) && i <= |cur|
    requires IsUniform(cur, p) && p.alpha == 255
    ensures BlurRowsFrom(cur, i) == cur
    decreases |cur| - i
  {
    if i < |cur| {
      BlurRowFromUniform(cur, p, i, 0);
      BlurRowsFromUniform(cur, p, i + 1);
    }
  }

  /** An array filled with one colour with alpha 255 (as `createRGBPixel` makes it)
      is a fixed point of the blur. */
  lemma BlurUniformFixedPoint(g: Grid, p: Pixel)
    requires IsPixelArray(g) && IsUniform(g, p) && p.alpha == 255
    ensures Blur(g) == g
  {
    BlurRowsFromUniform(g, p, 0);
  }

  /** A 3-by-3 black array with a pure red centre: the centre becomes
      (51, 0, 0) and everything else stays black. */
  lemma BlurRedCentre()
    ensures var k, c := CreateRGBPixel(0, 0, 0), CreateRGBPixel(255, 0, 0);
            var g := [[k, k, k], [k, c, k], [k, k, k]];
            IsPixelArray(g) &&
            Blur(g) == [[k, k, k], [k, CreateRGBPixel(51, 0, 0), k], [k, k, k]]
  {
    var k, c := CreateRGBPixel(0, 0, 0), CreateRGBPixel(255, 0, 0);
    var g := [[k, k, k], [k, c, k], [k, k, k]];
    BlurInPlace(g);
    var out := Blur(g);
    assert IsInterior(3, 3, 1, 1);
    assert out[0][1] == k && out[1][0] == k;
    MeanOfFiveRounds(255);
    MeanOfFiveRounds(0);
    assert out[1][1] == CreateRGBPixel(51, 0, 0);
    assert out[0] == [k, k, k];
    assert out[1] == [k, CreateRGBPixel(51, 0, 0), k];
    assert out[2] == [k, k, k];
  }
}
