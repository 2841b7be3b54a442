/** Histogram equalization (equalize.py). The four helper functions of the
    source are methods with the same loops; their contracts are stated
    against declarative definitions (`Histogram`, `CumulativeOf`). */
module Equalization {
  import opened PyBuiltins
  import opened Pixels
  import opened GrayscaleImage

  // ---------------------------------------------------------------------------
  // Sums
  // ---------------------------------------------------------------------------

  /** s[lo] + ... + s[hi - 1]. */
  function SumRange(s: seq<nat>, lo: nat, hi: nat): nat
    requires lo <= hi <= |s|
    decreases hi - lo
  {
    if lo == hi then 0 else SumRange(s, lo, hi - 1) + s[hi - 1]
  }

  function Sum(s: seq<nat>): nat
  {
    SumRange(s, 0, |s|)
  }

  lemma {:induction false} SumRangeSplit(s: seq<nat>, lo: nat, mid: nat, hi: nat)
    requires lo <= mid <= hi <= |s|
    ensures SumRange(s, lo, hi) == SumRange(s, lo, mid) + SumRange(s, mid, hi)
    decreases hi - mid
  {
    if mid < hi {
      SumRangeSplit(s, lo, mid, hi - 1);
    }
  }

  lemma {:induction false} SumRangeZero(s: seq<nat>, lo: nat, hi: nat)
    requires lo <= hi <= |s|
    requires forall k :: lo <= k < hi ==> s[k] == 0
    ensures SumRange(s, lo, hi) == 0
    decreases hi - lo
  {
    if lo < hi {
      SumRangeZero(s, lo, hi - 1);
    }
  }

  /** Raising one entry by one raises the sum of any range holding it by one. */
  lemma {:induction false} SumRangeIncrement(s: seq<nat>, k: nat, lo: nat, hi: nat)
    requires lo <= hi <= |s| && k < |s|
    ensures SumRange(s[k := s[k] + 1], lo, hi) == SumRange(s, lo, hi) + (if lo <= k < hi then 1 else 0)
    decreases hi - lo
  {
    if lo < hi {
      SumRangeIncrement(s, k, lo, hi - 1);
    }
  }

  // ---------------------------------------------------------------------------
  // The luminance histogram
  // ---------------------------------------------------------------------------

  /** The pixels of an array in row-major order. */
  function RowMajor(g: Grid): seq<Pixel>
  {
    if |g| == 0 then [] else RowMajor(g[..|g| - 1]) + g[|g| - 1]
  }

  lemma {:induction false} RowMajorLength(g: Grid, w: nat)
    requires forall i :: 0 <= i < |g| ==> |g[i]| == w
    ensures |RowMajor(g)| == |g| * w
  {
    if |g| > 0 {
      RowMajorLength(g[..|g| - 1], w);
    }
  }

  lemma RowMajorSnoc(g: Grid, i: nat)
    requires i < |g|
    ensures RowMajor(g[..i + 1]) == RowMajor(g[..i]) + g[i]
  {
    assert g[..i + 1][..i] == g[..i];
  }

  lemma PrefixSnoc<T>(done: seq<T>, row: seq<T>, j: nat)
    requires j < |row|
    ensures done + row[..j + 1] == (done + row[..j]) + [row[j]]
  {
  }

  /** The number of pixels in ps whose luminance is k. */
  function CountLuminance(ps: seq<Pixel>, k: int): nat
  {
    if |ps| == 0 then 0
    else CountLuminance(ps[..|ps| - 1], k) + (if Luminance(ps[|ps| - 1]) == k then 1 else 0)
  }

  /** The histogram the source's counting loop builds from the pixels ps,
      taken in order: 256 zero bins, then one increment per pixel at its
      luminance. */
  function HistogramOf(ps: seq<Pixel>): (h: seq<nat>)
    ensures |h| == 256
    ensures forall k :: 0 <= k < 256 ==> h[k] <= |ps|
  {
    if |ps| == 0 then seq(256, _ => 0)
    else
      var h0 := HistogramOf(ps[..|ps| - 1]);
      var lum := Luminance(ps[|ps| - 1]);
      h0[lum := h0[lum] + 1]
  }

  /** The histogram of an array, its pixels taken row by row. */
  function Histogram(g: Grid): (h: seq<nat>)
    ensures |h| == 256
  {
    HistogramOf(RowMajor(g))
  }

  lemma HistogramOfSnoc(ps: seq<Pixel>, p: Pixel)
    ensures HistogramOf(ps + [p]) == HistogramOf(ps)[Luminance(p) := HistogramOf(ps)[Luminance(p)] + 1]
  {
    assert (ps + [p])[..|ps|] == ps;
  }

  /** Bin k of the histogram counts exactly the pixels of luminance k. */
  lemma {:induction false} HistogramCounts(ps: seq<Pixel>)
    ensures forall k :: 0 <= k < 256 ==> HistogramOf(ps)[k] == CountLuminance(ps, k)
  {
    if |ps| > 0 {
      HistogramCounts(ps[..|ps| - 1]);
    }
  }

  /** Raising one entry by one raises the total by one. */
  lemma IncrementSum(s: seq<nat>, k: nat)
    requires k < |s|
    ensures Sum(s[k := s[k] + 1]) == Sum(s) + 1
  {
    SumRangeIncrement(s, k, 0, |s|);
  }

  /** Every pixel lands in exactly one bin, so the bins add up to the
      number of pixels. */
  lemma {:induction false} HistogramTotal(ps: seq<Pixel>)
    ensures Sum(HistogramOf(ps)) == |ps|
  {
    if |ps| == 0 {
      SumRangeZero(HistogramOf(ps), 0, 256);
    } else {
      var init := ps[..|ps| - 1];
      HistogramTotal(init);
      IncrementSum(HistogramOf(init), Luminance(ps[|ps| - 1]));
    }
  }

  /** The inner loop of `computeImageHistogram`: one row's pixels counted
      on top of the histogram of the pixels before it. */
  method CountRow(hist: seq<nat>, done: seq<Pixel>, row: seq<Pixel>) returns (hist': seq<nat>)
    requires hist == HistogramOf(done)
    ensures hist' == HistogramOf(done + row)
  {
    hist' := hist;
    var j := 0;
    assert done + row[..0] == done;
    while j < |row|
      invariant 0 <= j <= |row|
      invariant hist' == HistogramOf(done + row[..j])
    {
      var lum := Luminance(row[j]);
      HistogramOfSnoc(done + row[..j], row[j]);
      PrefixSnoc(done, row, j);
      hist' := hist'[lum := hist'[lum] + 1];
      j := j + 1;
    }
    assert row[..j] == row;
  }

  /** `computeImageHistogram`: 256 bins, bin k counting the pixels of
      luminance k, so the bins add up to height times width. */
  method ComputeImageHistogram(g: Grid) returns (hist: seq<nat>)
    requires IsPixelArray(g)
    ensures hist == Histogram(g)
    ensures |hist| == 256 && forall k :: 0 <= k < 256 ==> hist[k] == CountLuminance(RowMajor(g), k)
    ensures Sum(hist) == |g| * |g[0]|
  {
    hist := seq(256, _ => 0);
    assert hist == HistogramOf([]);
    var i := 0;
    while i < |g|
      invariant 0 <= i <= |g|
      invariant hist == HistogramOf(RowMajor(g[..i]))
    {
      hist := CountRow(hist, RowMajor(g[..i]), g[i]);
      RowMajorSnoc(g, i);
      i := i + 1;
    }
    assert g[..|g|] == g;
    HistogramCounts(RowMajor(g));
    HistogramTotal(RowMajor(g));
    RowMajorLength(g, |g[0]|);
  }

  // ---------------------------------------------------------------------------
  // The cumulative histogram, as the source computes it
  // ---------------------------------------------------------------------------

  /** The recurrence the source's loop establishes: at i = 0 it adds
      `histogram[-1]`, the still-zero last entry, so C[0] = H[0]; at i = 1 it
      does not add C[0]; from i = 2 on it is a running sum. */
  ghost predicate IsSourceCumulative(h: seq<nat>, c: seq<nat>)
  {
    && |h| == 256 && |c| == 256
    && c[0] == h[0]
    && c[1] == h[1]
    && forall k :: 2 <= k < 256 ==> c[k] == h[k] + c[k - 1]
  }

  /** The closed form: C[0] = H[0] and C[k] = H[1] + ... + H[k] for k >= 1. */
  function CumulativeOf(h: seq<nat>): (c: seq<nat>)
    requires |h| == 256
    ensures |c| == 256
  {
    seq(256, k requires 0 <= k < 256 => if k == 0 then h[0] else SumRange(h, 1, k + 1))
  }

  /** The closed form satisfies the recurrence. */
  lemma ClosedFormSolves(h: seq<nat>)
    requires |h| == 256
    ensures IsSourceCumulative(h, CumulativeOf(h))
  {
    var cf := CumulativeOf(h);
    assert cf[1] == SumRange(h, 1, 1) + h[1];
    forall k | 2 <= k < 256
      ensures cf[k] == h[k] + cf[k - 1]
    {
      assert cf[k] == SumRange(h, 1, k) + h[k];
    }
  }

  /** The recurrence has exactly one solution, the closed form. */
  lemma CumulativeClosedForm(h: seq<nat>, c: seq<nat>)
    requires |h| == 256
    ensures IsSourceCumulative(h, c) <==> c == CumulativeOf(h)
  {
    var cf := CumulativeOf(h);
    ClosedFormSolves(h);
    if IsSourceCumulative(h, c) {
      var k := 1;
      while k < 256
        invariant 1 <= k <= 256
        invariant forall m :: 0 <= m < k ==> c[m] == cf[m]
      {
        if k == 1 {
          assert cf[1] == SumRange(h, 1, 1) + h[1];
        } else {
          assert c[k] == h[k] + c[k - 1];
          assert cf[k - 1] == SumRange(h, 1, k);
          assert cf[k] == SumRange(h, 1, k) + h[k];
        }
        k := k + 1;
      }
      assert c == cf;
    }
  }

  /** Entries 1..255 of the cumulative histogram never decrease. */
  lemma CumulativeMonotone(h: seq<nat>)
    requires |h| == 256
    ensures forall a, b :: 1 <= a <= b < 256 ==> CumulativeOf(h)[a] <= CumulativeOf(h)[b]
  {
    forall a, b | 1 <= a <= b < 256
      ensures CumulativeOf(h)[a] <= CumulativeOf(h)[b]
    {
      SumRangeSplit(h, 1, a + 1, b + 1);
    }
  }

  /** No entry of the cumulative histogram exceeds the pixel count, and
      the last one misses exactly H[0]. */
  lemma CumulativeBounds(h: seq<nat>)
    requires |h| == 256
    ensures forall k :: 0 <= k < 256 ==> CumulativeOf(h)[k] <= Sum(h)
    ensures CumulativeOf(h)[255] == Sum(h) - h[0]
  {
    SumRangeSplit(h, 0, 1, 256);
    forall k | 1 <= k < 256
      ensures CumulativeOf(h)[k] <= Sum(h)
    {
      SumRangeSplit(h, 1, k + 1, 256);
    }
  }

  /** Because C[1] leaves out C[0], the darkest bin can map above the next
      one: two pixels of luminance 0 and one of luminance 1 give C[0] = 2
      and C[1] = 1, which equalize to 170 and 85. */
  lemma CumulativeDarkestBinInverts(h: seq<nat>)
    requires |h| == 256 && h[0] == 2 && h[1] == 1
    requires forall k :: 2 <= k < 256 ==> h[k] == 0
    ensures Sum(h) == 3
    ensures CumulativeOf(h)[0] == 2 && CumulativeOf(h)[1] == 1
    ensures RoundHalfEven(255 * CumulativeOf(h)[0], 3) == 170
    ensures RoundHalfEven(255 * CumulativeOf(h)[1], 3) == 85
  {
    assert SumRange(h, 1, 2) == 1;
    SumRangeSplit(h, 0, 2, 256);
    SumRangeZero(h, 2, 256);
    RoundHalfEvenExact(170, 3);
    RoundHalfEvenExact(85, 3);
  }

  /** `computeCumulativeHistogram`, with the source's special case at 1 and
      its read of `histogram[i - 1]` through a negative index at 0. */
  method ComputeCumulativeHistogram(h: seq<nat>) returns (c: seq<nat>)
    requires |h| == 256
    ensures IsSourceCumulative(h, c)
    ensures c == CumulativeOf(h)
  {
    c := seq(256, _ => 0);
    var i := 0;
    while i < |h|
      invariant 0 <= i <= 256 && |c| == 256
      invariant i >= 1 ==> c[0] == h[0]
      invariant i >= 2 ==> c[1] == h[1]
      invariant forall k :: 2 <= k < i ==> c[k] == h[k] + c[k - 1]
      invariant forall k :: i <= k < 256 ==> c[k] == 0
    {
      if i == 1 {
        c := c[1 := h[1]];
      } else {
        c := c[i := h[i] + c[PyIndex(256, i - 1)]];
      }
      i := i + 1;
    }
    CumulativeClosedForm(h, c);
  }

  // ---------------------------------------------------------------------------
  // New luminances and the equalized image
  // ---------------------------------------------------------------------------

  /** `computeNewLuminance`: every pixel is replaced by
      round(255 * C[luminance] / (height * width)). */
  method ComputeNewLuminance(c: seq<nat>, g: Grid) returns (lums: seq<seq<int>>)
    requires |c| == 256 && IsPixelArray(g)
    ensures |lums| == |g| && forall i :: 0 <= i < |g| ==> |lums[i]| == |g[0]|
    ensures forall i, j :: 0 <= i < |g| && 0 <= j < |g[0]| ==>
              IsRoundHalfEven(255 * c[Luminance(g[i][j])], |g| * |g[0]|, lums[i][j])
  {
    var h, w := |g|, |g[0]|;
    var n := h * w;
    lums := [];
    var i := 0;
    while i < h
      invariant 0 <= i <= h && |lums| == i
      invariant forall r :: 0 <= r < i ==> |lums[r]| == w
      invariant forall r, k :: 0 <= r < i && 0 <= k < w ==>
                  IsRoundHalfEven(255 * c[Luminance(g[r][k])], n, lums[r][k])
    {
      var row := [];
      var j := 0;
      while j < w
        invariant 0 <= j <= w && |row| == j
        invariant forall k :: 0 <= k < j ==> IsRoundHalfEven(255 * c[Luminance(g[i][k])], n, row[k])
      {
        MulMonotone(w, 0, h);
        row := row + [RoundHalfEven(255 * c[Luminance(g[i][j])], n)];
        j := j + 1;
      }
      lums := lums + [row];
      i := i + 1;
    }
  }

  /** `luminanceToGreyscale`: every luminance v becomes the gray pixel
      (v, v, v). */
  method LuminanceToGreyscale(lums: seq<seq<int>>) returns (out: Grid)
    requires |lums| >= 1 && forall i :: 0 <= i < |lums| ==> |lums[i]| == |lums[0]|
    requires forall i, j :: 0 <= i < |lums| && 0 <= j < |lums[i]| ==> 0 <= lums[i][j] < 256
    ensures HasShape(out, |lums|, |lums[0]|)
    ensures forall i, j :: 0 <= i < |lums| && 0 <= j < |lums[0]| ==>
              IsAchromatic(out[i][j]) && out[i][j].alpha == 255 && out[i][j].red == lums[i][j]
    ensures forall i, j :: 0 <= i < |lums| && 0 <= j < |lums[0]| ==> Luminance(out[i][j]) == lums[i][j]
  {
    var w := |lums[0]|;
    out := [];
    var i := 0;
    while i < |lums|
      invariant 0 <= i <= |lums| && |out| == i
      invariant forall r :: 0 <= r < i ==> |out[r]| == w
      invariant forall r, k :: 0 <= r < i && 0 <= k < w ==>
                  IsAchromatic(out[r][k]) && out[r][k].alpha == 255 && out[r][k].red == lums[r][k]
    {
      var row := [];
      var j := 0;
      while j < w
        invariant 0 <= j <= w && |row| == j
        invariant forall k :: 0 <= k < j ==> row[k] == Gray(lums[i][k])
      {
        row := row + [Gray(lums[i][j])];
        j := j + 1;
      }
      out := out + [row];
      i := i + 1;
    }
    forall i, j | 0 <= i < |lums| && 0 <= j < |lums[0]|
      ensures Luminance(out[i][j]) == lums[i][j]
    {
      LuminanceOfGray(lums[i][j]);
    }
  }

  /** The value a pixel of luminance l equalizes to, for a cumulative
      histogram c over n pixels, lies in [0, 255] when c[l] <= n. */
  lemma EqualizedInRange(c: nat, n: int, v: int)
    requires IsRoundHalfEven(255 * c, n, v) && c <= n
    ensures 0 <= v <= 255
  {
    RoundHalfEvenUnique(255 * c, n, v, RoundHalfEven(255 * c, n));
    RoundHalfEvenBounds(255 * c, n, 255);
  }

  /** For every histogram C[0] = H[0] and C[1] = H[1], so bin 0 equalizes
      at least as bright as bin 1 when it holds at least as many pixels, and
      strictly brighter only when it holds strictly more. */
  lemma DarkestBinNotDarker(h: seq<nat>, n: int, v0: int, v1: int)
    requires |h| == 256 && n > 0
    requires IsRoundHalfEven(255 * CumulativeOf(h)[0], n, v0)
    requires IsRoundHalfEven(255 * CumulativeOf(h)[1], n, v1)
    ensures h[1] <= h[0] ==> v1 <= v0
    ensures v1 < v0 ==> h[1] < h[0]
  {
    var c := CumulativeOf(h);
    assert c[0] == h[0];
    assert c[1] == h[1] by { assert SumRange(h, 1, 2) == h[1]; }
    RoundHalfEvenUnique(255 * c[0], n, v0, RoundHalfEven(255 * c[0], n));
    RoundHalfEvenUnique(255 * c[1], n, v1, RoundHalfEven(255 * c[1], n));
    if h[1] <= h[0] {
      RoundHalfEvenMonotone(255 * c[1], 255 * c[0], n);
    }
    if h[0] <= h[1] {
      RoundHalfEvenMonotone(255 * c[0], 255 * c[1], n);
    }
  }

  /** Luminances 1..255 equalize in order: a brighter bin never maps to a
      smaller value. */
  lemma EqualizedOrder(h: seq<nat>, a: nat, b: nat, n: int, va: int, vb: int)
    requires |h| == 256 && 1 <= a <= b < 256
    requires IsRoundHalfEven(255 * CumulativeOf(h)[a], n, va)
    requires IsRoundHalfEven(255 * CumulativeOf(h)[b], n, vb)
    ensures va <= vb
  {
    var c := CumulativeOf(h);
    CumulativeMonotone(h);
    RoundHalfEvenUnique(255 * c[a], n, va, RoundHalfEven(255 * c[a], n));
    RoundHalfEvenUnique(255 * c[b], n, vb, RoundHalfEven(255 * c[b], n));
    RoundHalfEvenMonotone(255 * c[a], 255 * c[b], n);
  }

  /** `equalize`: a gray image of the same size in which every pixel's
      value is its luminance's cumulative count scaled to [0, 255], and in
      which pixels of luminance at least 1 keep their brightness order. */
  method Equalize(g: Grid) returns (out: Grid)
    requires IsPixelArray(g)
    ensures HasShape(out, |g|, |g[0]|)
    ensures forall i, j :: 0 <= i < |g| && 0 <= j < |g[0]| ==>
              && IsAchromatic(out[i][j]) && out[i][j].alpha == 255
              && IsRoundHalfEven(255 * CumulativeOf(Histogram(g))[Luminance(g[i][j])], |g| * |g[0]|, out[i][j].red)
              && Luminance(out[i][j]) == out[i][j].red
    ensures forall i, j, i', j' ::
              (0 <= i < |g| && 0 <= j < |g[0]| && 0 <= i' < |g| && 0 <= j' < |g[0]| &&
               1 <= Luminance(g[i][j]) <= Luminance(g[i'][j'])) ==> out[i][j].red <= out[i'][j'].red
  {
    var h := ComputeImageHistogram(g);
    var c := ComputeCumulativeHistogram(h);
    var n := |g| * |g[0]|;
    CumulativeBounds(h);
    var lums := ComputeNewLuminance(c, g);
    forall i, j | 0 <= i < |lums| && 0 <= j < |lums[i]|
      ensures 0 <= lums[i][j] < 256
    {
      EqualizedInRange(c[Luminance(g[i][j])], n, lums[i][j]);
    }
    out := LuminanceToGreyscale(lums);
    forall i, j, i', j' |
      0 <= i < |g| && 0 <= j < |g[0]| && 0 <= i' < |g| && 0 <= j' < |g[0]| &&
      1 <= Luminance(g[i][j]) <= Luminance(g[i'][j'])
      ensures out[i][j].red <= out[i'][j'].red
    {
      EqualizedOrder(h, Luminance(g[i][j]), Luminance(g[i'][j']), n, lums[i][j], lums[i'][j']);
    }
  }
}
