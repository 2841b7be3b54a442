/** Luminance and grayscale conversion (GrayscaleImage.py). */
module GrayscaleImage {
  import opened PyBuiltins
  import opened Pixels

  /** The NTSC weighted sum 0.299 r + 0.587 g + 0.114 b, scaled by 1000. */
  function WeightedSum(p: Pixel): nat
  {
    299 * p.red + 587 * p.green + 114 * p.blue
  }

  /** The subjective brightness of a pixel: the NTSC weighted sum rounded to
      the nearest integer (halves to even). It always indexes a 256-entry
      histogram. */
  function Luminance(p: Pixel): (l: byte)
    ensures IsRoundHalfEven(WeightedSum(p), 1000, l)
  {
    RoundHalfEven(WeightedSum(p), 1000)
  }

  /** The opaque gray pixel (v, v, v). */
  function Gray(v: byte): Pixel
  {
    CreateRGBPixel(v, v, v)
  }

  predicate IsAchromatic(p: Pixel)
  {
    p.red == p.green == p.blue
  }

  /** A gray pixel's luminance is its common channel value; in particular
      white has luminance 255 and black 0. */
  lemma LuminanceOfGray(v: byte)
    ensures Luminance(Gray(v)) == v
    ensures forall p: Pixel :: IsAchromatic(p) && p.red == v ==> Luminance(p) == v
  {
    assert WeightedSum(Gray(v)) == 1000 * v;
    RoundHalfEvenExact(v, 1000);
  }

  /** Luminance does not decrease when any channel grows. */
  lemma LuminanceMonotone(p: Pixel, q: Pixel)
    requires p.red <= q.red && p.green <= q.green && p.blue <= q.blue
    ensures Luminance(p) <= Luminance(q)
  {
    RoundHalfEvenMonotone(WeightedSum(p), WeightedSum(q), 1000);
  }

  /** `createGrayscaleImage`: every pixel becomes the gray pixel whose
      channels are its luminance. */
  function CreateGrayscaleImage(g: Grid): (r: Grid)
    requires IsPixelArray(g)
    ensures HasShape(r, |g|, |g[0]|)
    ensures forall i, j :: 0 <= i < |g| && 0 <= j < |g[0]| ==>
              IsAchromatic(r[i][j]) && r[i][j].alpha == 255 && r[i][j].red == Luminance(g[i][j])
  {
    seq(|g|, i requires 0 <= i < |g| =>
      seq(|g[0]|, j requires 0 <= j < |g[0]| => Gray(Luminance(g[i][j]))))
  }

  /** Converting to grayscale keeps every pixel's luminance. */
  lemma GrayscaleKeepsLuminance(g: Grid)
    requires IsPixelArray(g)
    ensures forall i, j :: 0 <= i < |g| && 0 <= j < |g[0]| ==>
              Luminance(CreateGrayscaleImage(g)[i][j]) == Luminance(g[i][j])
  {
    forall i, j | 0 <= i < |g| && 0 <= j < |g[0]|
      ensures Luminance(CreateGrayscaleImage(g)[i][j]) == Luminance(g[i][j])
    {
      LuminanceOfGray(Luminance(g[i][j]));
    }
  }

  /** Converting an image that is already grayscale changes nothing. */
  lemma GrayscaleIdempotent(g: Grid)
    requires IsPixelArray(g)
    ensures IsPixelArray(CreateGrayscaleImage(g))
    ensures CreateGrayscaleImage(CreateGrayscaleImage(g)) == CreateGrayscaleImage(g)
  {
    var r := CreateGrayscaleImage(g);
    var rr := CreateGrayscaleImage(r);
    GrayscaleKeepsLuminance(g);
    forall i | 0 <= i < |g|
      ensures rr[i] == r[i]
    {
      forall j | 0 <= j < |g[0]|
        ensures rr[i][j] == r[i][j]
      {
        LuminanceOfGray(Luminance(g[i][j]));
      }
    }
  }
}
