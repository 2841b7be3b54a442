/** Pixels and pixel arrays as the pgl library hands them to the image
    routines: a pixel array is a list of rows, and every pixel is one
    packed 32-bit ARGB integer. */
module Pixels {
  import opened PyBuiltins

  type byte = x: int | 0 <= x < 256

  /** The four bytes of a packed ARGB pixel. */
  datatype Pixel = Pixel(alpha: byte, red: byte, green: byte, blue: byte)

  /** `GImage.createRGBPixel(r, g, b)`: the pixel with those channels and a
      fully opaque alpha byte. */
  function CreateRGBPixel(r: byte, g: byte, b: byte): (p: Pixel)
    ensures p.alpha == 255
  {
    Pixel(255, r, g, b)
  }

  /** The integer a pixel array stores for p. */
  function Pack(p: Pixel): (n: nat)
    ensures n < 4294967296
  {
    ((p.alpha * 256 + p.red) * 256 + p.green) * 256 + p.blue
  }

  /** `GImage.getRed`, `getGreen` and `getBlue` (shift and mask) undo `Pack`. */
  lemma UnpackPack(p: Pixel)
    ensures Pack(p) / 16777216 == p.alpha
    ensures Pack(p) / 65536 % 256 == p.red
    ensures Pack(p) / 256 % 256 == p.green
    ensures Pack(p) % 256 == p.blue
  {
    var n := Pack(p);
    var x := (p.alpha * 256 + p.red) * 256 + p.green;
    assert n == x * 256 + p.blue;
    assert n / 256 == x && n % 256 == p.blue;
    assert x / 256 == p.alpha * 256 + p.red && x % 256 == p.green;
    assert n / 65536 == x / 256;
    assert n / 16777216 == (p.alpha * 256 + p.red) / 256;
  }

  /** A pixel with high alpha: its alpha byte has its top bit set
      (alpha >= 128), so `bin` of its packed value is exactly 34 characters
      long. Such a pixel may still be partly transparent. */
  predicate HighAlpha(p: Pixel)
  {
    p.alpha >= 128
  }

  /** `int(bin(p)[lo:hi], 2)`: the source's way of reading a channel. */
  function BinField(p: Pixel, lo: nat, hi: nat): (v: nat)
    requires lo <= hi <= lo + 8
    ensures v < 256
  {
    var s := StrSlice(Bin(Pack(p)), lo, hi);
    ParseBinByte(s);
    ParseBin(s)
  }

  /** A high-alpha pixel packs to a number of exactly 32 significant bits. */
  lemma BinOfHighAlphaWidth(p: Pixel)
    requires HighAlpha(p)
    ensures Bin(Pack(p)) == "0b" + Bits(Pack(p), 32)
  {
    var n := Pack(p);
    assert Pow2(31) <= n < Pow2(32) by {
      Pow2Values();
      var ar := p.alpha * 256 + p.red;
      assert ar >= 128 * 256;
      assert ar * 256 + p.green >= 128 * 65536;
    }
    DigitsOfWidth(n, 32);
  }

  /** The 32 bits of a packed pixel are its four bytes, alpha first. */
  lemma BitsOfPack(p: Pixel)
    ensures Bits(Pack(p), 32) == Bits(p.alpha, 8) + Bits(p.red, 8) + Bits(p.green, 8) + Bits(p.blue, 8)
  {
    var ar := p.alpha * 256 + p.red;
    var arg := ar * 256 + p.green;
    BitsConcatByte(ar, p.alpha, p.red, 8);
    BitsConcatByte(arg, ar, p.green, 16);
    BitsConcatByte(Pack(p), arg, p.blue, 24);
  }

  /** For a high-alpha pixel, `bin` prints the four bytes in full, alpha first. */
  lemma BinOfHighAlpha(p: Pixel)
    requires HighAlpha(p)
    ensures Bin(Pack(p)) == "0b" + Bits(p.alpha, 8) + Bits(p.red, 8) + Bits(p.green, 8) + Bits(p.blue, 8)
  {
    BinOfHighAlphaWidth(p);
    BitsOfPack(p);
    var a, r, gr, b := Bits(p.alpha, 8), Bits(p.red, 8), Bits(p.green, 8), Bits(p.blue, 8);
    assert "0b" + (a + r + gr + b) == "0b" + a + r + gr + b;
  }

  /** The slices [10:18], [18:26] and [26:34] of `bin` of a high-alpha pixel are
      the red, green and blue bytes, and `int(..., 2)` reads them back. */
  lemma BinFieldsOfHighAlpha(p: Pixel)
    requires HighAlpha(p)
    ensures StrSlice(Bin(Pack(p)), 10, 18) == Bits(p.red, 8)
    ensures StrSlice(Bin(Pack(p)), 18, 26) == Bits(p.green, 8)
    ensures StrSlice(Bin(Pack(p)), 26, 34) == Bits(p.blue, 8)
    ensures BinField(p, 10, 18) == p.red
    ensures BinField(p, 18, 26) == p.green
    ensures BinField(p, 26, 34) == p.blue
  {
    BinOfHighAlpha(p);
    Pow2Values();
    var a, r, g, b := Bits(p.alpha, 8), Bits(p.red, 8), Bits(p.green, 8), Bits(p.blue, 8);
    var s := "0b" + a + r + g + b;
    assert s[10..18] == r;
    assert s[18..26] == g;
    assert s[26..34] == b;
    ParseBits(p.red, 8);
    ParseBits(p.green, 8);
    ParseBits(p.blue, 8);
  }

  /** A pixel array: a list of rows, at least one, all as long as the first
      (the source reads the width as `len(array[0])`). */
  type Grid = seq<seq<Pixel>>

  predicate IsPixelArray(g: Grid)
  {
    |g| >= 1 && forall i :: 0 <= i < |g| ==> |g[i]| == |g[0]|
  }

  /** r has h rows of w pixels each. */
  predicate HasShape(r: Grid, h: nat, w: nat)
  {
    |r| == h && forall i :: 0 <= i < h ==> |r[i]| == w
  }

  predicate AllHighAlpha(g: Grid)
  {
    forall i, j :: 0 <= i < |g| && 0 <= j < |g[i]| ==> HighAlpha(g[i][j])
  }
}
