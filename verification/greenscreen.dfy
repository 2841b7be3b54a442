/** Green-screen compositing (ImageShop.py `greenScreen`). The overlay
    array, which the program obtains from a file dialog, is a parameter. */
module ChromaKey {
  import opened PyBuiltins
  import opened Pixels

  /** The source's greenness test, transcribed with Python's string
      semantics: `bin(p)[18:26] > 2*max(bin(p)[10:18], bin(p)[26:34])`,
      where `>` compares strings lexicographically, `max` picks the
      lexicographically larger string and `2*` repeats a string. */
  predicate LooksGreen(p: Pixel)
  {
    var s := Bin(Pack(p));
    StrLess(StrRepeat(2, StrMax(StrSlice(s, 10, 18), StrSlice(s, 26, 34))), StrSlice(s, 18, 26))
  }

  function MaxByte(a: byte, b: byte): byte
  {
    if a < b then b else a
  }

  /** On a pixel with high alpha the test compares numbers after all: the string
      doubling leaves an 8-character green slice greater exactly when it is
      greater than the undoubled slice, so a pixel looks green iff its green
      byte exceeds both its red and its blue byte. */
  lemma LooksGreenIff(p: Pixel)
    requires HighAlpha(p)
    ensures LooksGreen(p) <==> p.green > MaxByte(p.red, p.blue)
  {
    Pow2Values();
    BinFieldsOfHighAlpha(p);
    StrMaxBits(p.red, p.blue, 8);
    var m, g := Bits(MaxByte(p.red, p.blue), 8), Bits(p.green, 8);
    assert StrRepeat(2, m) == m + m;
    StrLessPadded(m, g, m);
    StrLessBits(MaxByte(p.red, p.blue), p.green, 8);
  }

  /** `greenScreen`: over the rows and columns both arrays have, every base
      pixel whose overlay pixel does not look green is replaced by it; all
      other base pixels stay. */
  function GreenScreen(base: Grid, overlay: Grid): (r: Grid)
    requires IsPixelArray(base) && IsPixelArray(overlay)
    ensures HasShape(r, |base|, |base[0]|)
    ensures forall i, j :: 0 <= i < |base| && 0 <= j < |base[0]| && (i >= |overlay| || j >= |overlay[0]|) ==>
              r[i][j] == base[i][j]
  {
    var h := if |base| <= |overlay| then |base| else |overlay|;
    var w := if |base[0]| <= |overlay[0]| then |base[0]| else |overlay[0]|;
    seq(|base|, i requires 0 <= i < |base| =>
      seq(|base[0]|, j requires 0 <= j < |base[0]| =>
        if i < h && j < w && !LooksGreen(overlay[i][j]) then overlay[i][j] else base[i][j]))
  }

  /** With high-alpha overlay pixels, inside the overlap the overlay pixel is
      taken exactly when its green byte is at most the larger of its red and
      blue bytes. */
  lemma GreenScreenTakesNonGreen(base: Grid, overlay: Grid)
    requires IsPixelArray(base) && IsPixelArray(overlay) && AllHighAlpha(overlay)
    ensures forall i, j :: 0 <= i < |base| && 0 <= j < |base[0]| && i < |overlay| && j < |overlay[0]| ==>
              GreenScreen(base, overlay)[i][j] ==
                if overlay[i][j].green <= MaxByte(overlay[i][j].red, overlay[i][j].blue)
                then overlay[i][j] else base[i][j]
  {
    forall i, j | 0 <= i < |base| && 0 <= j < |base[0]| && i < |overlay| && j < |overlay[0]|
    {
      LooksGreenIff(overlay[i][j]);
    }
  }

  /** An overlay that looks green everywhere leaves the base unchanged. */
  lemma AllGreenOverlayKeepsBase(base: Grid, overlay: Grid)
    requires IsPixelArray(base) && IsPixelArray(overlay)
    requires forall i, j :: 0 <= i < |overlay| && 0 <= j < |overlay[i]| ==> LooksGreen(overlay[i][j])
    ensures GreenScreen(base, overlay) == base
  {
    var r := GreenScreen(base, overlay);
    forall i | 0 <= i < |base|
      ensures r[i] == base[i]
    {
    }
  }

  /** An overlay with no green-looking pixel replaces the whole overlap. */
  lemma NoGreenOverlayReplacesOverlap(base: Grid, overlay: Grid)
    requires IsPixelArray(base) && IsPixelArray(overlay)
    requires forall i, j :: 0 <= i < |overlay| && 0 <= j < |overlay[i]| ==> !LooksGreen(overlay[i][j])
    ensures forall i, j :: 0 <= i < |base| && 0 <= j < |base[0]| && i < |overlay| && j < |overlay[0]| ==>
              GreenScreen(base, overlay)[i][j] == overlay[i][j]
  {
  }
}
