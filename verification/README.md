# ImageShop pixel routines in Dafny

This project models the image-processing core of ImageShop, a small Python
teaching program built on the `pgl` graphics library. An image is a pixel
array: a list of rows, each pixel one packed 32-bit ARGB integer. The
modelled routines are:

- `luminance` and `createGrayscaleImage` (GrayscaleImage.py);
- histogram equalization (`equalize`, `computeImageHistogram`,
  `computeCumulativeHistogram`, `computeNewLuminance` and
  `luminanceToGreyscale`, in equalize.py);
- the transforms of ImageShop.py: `flipVertical`, `flipHorizontal`,
  `rotateLeft`, `rotateRight`, `greenScreen` and `blur`.

The model follows the Python code as written, including its quirks:

- **Channels read from `bin()`.** The green-screen and blur routines get
  channels by slicing the string `bin(pixel)`. The model keeps that string.
  It proves that the slices are the red, green and blue bytes whenever the
  alpha byte has its top bit set.
- **Green test compares strings.** The green-screen test compares strings,
  doubles a string with `2*` and takes `max` of two strings. The model
  proves that for such pixels the test means "green is greater than both
  red and blue".
- **Rotations use negative indices.** The rotations write through
  `new_array[-j]`, so index 0 maps to itself rather than to the far end.
  The result is a quarter turn with a one-position cyclic seam. It is
  still a bijection on cells, and four left turns are the identity.
- **Cumulative histogram.** The cumulative histogram is computed by the
  source's recurrence: C[0] = H[0], C[1] = H[1], and C[k] = H[k] + C[k-1]
  from k = 2 on. Bin 0 is therefore left out of every later entry.
- **Blur works in place.** The blur overwrites the array in row-major
  order, so each interior cell averages the already-blurred pixels above
  and to its left. The model is a fold over the cells in that order. It is
  proved equal to a recursive description of the value each cell ends up
  with.
- **`round` halves to even.** Python's `round` rounds halves to even. It
  is modelled exactly on rationals by `RoundHalfEven(n, d)`, characterised
  by `IsRoundHalfEven`.

Files and modules:

- `pybuiltins.dfy` (`PyBuiltins`): the Python built-ins the routines rely on.
  These are `bin`, `int(s, 2)`, string slicing, comparison, `max` and
  repetition, negative indices, `[::-1]` and `round`.
- `pixels.dfy` (`Pixels`): pixels, packing, reading channels through
  `bin` slices, and pixel arrays.
- `grayscale.dfy` (`GrayscaleImage`), `equalize.dfy` (`Equalization`),
  `geometry.dfy` (`Geometry`), `greenscreen.dfy` (`ChromaKey`) and
  `blur.dfy` (`Blurring`): one module per group of routines.

Consequences of these quirks that the model keeps and proves:

- **Bin 0 of the cumulative histogram.** At i = 0 `computeCumulativeHistogram`
  reads `histogram[-1]`, the still-zero last entry, so C[0] = H[0]. At
  i = 1 it sets C[1] = H[1] without adding C[0] (`CumulativeClosedForm`).
  For every histogram, bin 0 therefore equalizes at least as bright as
  bin 1 when H[0] >= H[1], and strictly brighter only when H[0] > H[1]
  (`DarkestBinNotDarker`). Even then, rounding can give the two bins the
  same value. With H[0] = 2, H[1] = 1 and no other pixels, the darker
  pixels go to 170 and the brighter one to 85
  (`CumulativeDarkestBinInverts`).
- **Green threshold.** `2*` at ImageShop.py:164 repeats a string, so for a
  pixel whose alpha byte is at least 128 the test is green > max(red, blue)
  (`LooksGreenIff`).
- **Rotations.** Index 0 maps to row or column 0, so the rotations have a
  one-position cyclic seam (`RotateLeft`, `RotateLeftTwice`).

## Model

| member | source | states |
|---|---|---|
| Pixels.Pack | GrayscaleImage.py:45-47 | the packed ARGB integer of a pixel array entry, alpha in the top byte; it fits in 32 bits |
| Pixels.CreateRGBPixel | GrayscaleImage.py:37 | `createRGBPixel(r, g, b)` gives the pixel with those channels and alpha 255 |
| Pixels.UnpackPack | GrayscaleImage.py:45-47 | shifting and masking the packed integer gives back the alpha, red, green and blue bytes |
| Pixels.BinField | ImageShop.py:178-199 | `int(bin(p)[lo:hi], 2)` of a slice at most 8 characters wide is always a byte value |
| Pixels.BinOfHighAlphaWidth | ImageShop.py:178 | a pixel whose alpha byte is at least 128 packs to a number with exactly 32 significant bits, so `bin` prints 32 digits after "0b" |
| Pixels.BitsOfPack | ImageShop.py:178-192 | the 32-bit rendering of a packed pixel is the 8-bit renderings of alpha, red, green and blue, in that order |
| Pixels.BinOfHighAlpha | ImageShop.py:178-192 | for such pixels `bin` is "0b" followed by the four bytes in full |
| Pixels.BinFieldsOfHighAlpha | ImageShop.py:178-199 | for such pixels the slices [10:18], [18:26] and [26:34] are the red, green and blue bytes, and `int(..., 2)` reads back exactly those channels |
| PyBuiltins.Bin | ImageShop.py:164 | Python's `bin` of a non-negative integer: "0b" followed by its binary digits without leading zeros; `BinOfHighAlpha` gives its value on a packed pixel |
| PyBuiltins.StrSlice | ImageShop.py:164 | Python's `s[lo:hi]`: at most hi - lo characters, and exactly `s[lo..hi]` when hi is within the string; shorter or empty past the end |
| PyBuiltins.ParseBin | ImageShop.py:194-199 | Python's `int(s, 2)` on a string of binary digits; `ParseBits` and `ParseBinBound` give its inverse and bound |
| PyBuiltins.StrLess | ImageShop.py:164 | Python's lexicographic string `<`; `StrLessBits` and `StrLessPadded` give its meaning on bit strings |
| PyBuiltins.StrMax | ImageShop.py:164 | Python's `max` of two strings is one of its arguments, the larger one under `<` |
| PyBuiltins.StrRepeat | ImageShop.py:164 | Python's `n * s` on a string has n times its length |
| PyBuiltins.Reverse | ImageShop.py:122 | `[::-1]` keeps the length and puts element i at position length - 1 - i |
| PyBuiltins.PyIndex | equalize.py:35 | a Python index -len <= k < len denotes a valid position, so `histogram[i - 1]` at i = 0 reads the last entry |
| PyBuiltins.NegIndex | ImageShop.py:140 | the position `-k` denotes in a list of length n is a valid position |
| PyBuiltins.RoundHalfEven | GrayscaleImage.py:48 | Python's `round` of n/d: the nearest integer, the even one on a tie, as characterised by `IsRoundHalfEven` |
| PyBuiltins.DigitsOfWidth | ImageShop.py:164 | `bin` of a number with exactly w significant bits is its w-bit rendering |
| PyBuiltins.BitsConcat | ImageShop.py:178-192 | the bit string of x·2^k + y (with y < 2^k) is x's bits followed by y's k bits |
| PyBuiltins.ParseBits | ImageShop.py:194-199 | `int(s, 2)` inverts the w-bit rendering of any number below 2^w |
| PyBuiltins.ParseBinBound | ImageShop.py:194-199 | `int(s, 2)` of an n-character binary string is below 2^n |
| PyBuiltins.StrLessBits | ImageShop.py:164 | on equal-width bit strings, Python's string `<` is numeric `<` (both directions) |
| PyBuiltins.StrLessPadded | ImageShop.py:164 | a string extended past the length of the other operand compares as its prefix does, which is why `2*` on a slice does not change the comparison |
| PyBuiltins.StrMaxBits | ImageShop.py:164 | string `max` of two bit renderings renders the larger number |
| PyBuiltins.NegIndexInvolution | ImageShop.py:140 | index `-k` into a list of length n is (n - k) mod n, and negating twice gives k back |
| PyBuiltins.ReverseInvolution | ImageShop.py:122 | `[::-1]` applied twice is the identity |
| PyBuiltins.RoundHalfEvenUnique | GrayscaleImage.py:48 | `round` of n/d has exactly one value: the nearest integer, and the even one on a tie |
| PyBuiltins.RoundHalfEvenMonotone | equalize.py:42 | rounding n/d never decreases as n grows |
| PyBuiltins.RoundHalfEvenBounds | equalize.py:42 | rounding n/d with 0 <= n <= d·m gives a value in [0, m] |
| PyBuiltins.RoundHalfEvenExact | GrayscaleImage.py:48 | rounding an exact multiple v·d over d gives v |
| PyBuiltins.MeanOfFiveRounds | ImageShop.py:194-199 | `round(mean(...))` of five integers never meets a tie and equals (s + 2) div 5 for their sum s |
| GrayscaleImage.Luminance | GrayscaleImage.py:40-48 | the luminance is the nearest integer to (299 r + 587 g + 114 b) / 1000, with halves to even, and it is a valid histogram index in [0, 255] |
| GrayscaleImage.LuminanceOfGray | GrayscaleImage.py:40-48 | a gray pixel (v, v, v) has luminance v; in particular white has 255 and black has 0 |
| GrayscaleImage.LuminanceMonotone | GrayscaleImage.py:40-48 | raising any channel never lowers the luminance |
| GrayscaleImage.CreateGrayscaleImage | GrayscaleImage.py:27-38 | same shape; every pixel becomes an opaque gray pixel whose level is the luminance of the input pixel |
| GrayscaleImage.GrayscaleKeepsLuminance | GrayscaleImage.py:27-38 | converting to grayscale keeps every pixel's luminance |
| GrayscaleImage.GrayscaleIdempotent | GrayscaleImage.py:27-38 | converting a grayscale result again changes nothing |
| Equalization.HistogramOf | equalize.py:21-26 | the counting loop's histogram over pixels taken in order has 256 bins, none above the number of pixels counted; `HistogramCounts` ties each bin to the independent count |
| Equalization.HistogramCounts | equalize.py:21-26 | bin k of the histogram the counting loop builds equals the number of pixels of luminance k |
| Equalization.HistogramTotal | equalize.py:21-26 | the bins add up to the number of pixels counted |
| Equalization.CountRow | equalize.py:24-26 | the inner loop adds one row's pixels to the histogram of the pixels before it |
| Equalization.ComputeImageHistogram | equalize.py:19-27 | 256 bins; bin k counts the pixels of luminance k in row-major order; the bins sum to height × width |
| Equalization.ClosedFormSolves | equalize.py:29-36 | C[0] = H[0] and C[k] = H[1] + … + H[k] satisfies the loop's recurrence |
| Equalization.CumulativeClosedForm | equalize.py:29-36 | the loop's recurrence holds exactly when C is that closed form (both directions) |
| Equalization.ComputeCumulativeHistogram | equalize.py:29-36 | the loop, including its `histogram[-1]` read at i = 0 and its special case at i = 1, establishes the recurrence and so the closed form |
| Equalization.CumulativeMonotone | equalize.py:32-35 | entries 1 to 255 of the cumulative histogram never decrease |
| Equalization.CumulativeBounds | equalize.py:32-35 | no entry exceeds the total pixel count, and the last entry misses exactly H[0] |
| Equalization.CumulativeDarkestBinInverts | equalize.py:33-35 | with two pixels of luminance 0 and one of luminance 1, C[0] = 2 exceeds C[1] = 1, so the darker pixels equalize to 170 and the brighter one to 85 |
| Equalization.ComputeNewLuminance | equalize.py:38-43 | every pixel gets round(255 · C[luminance] / (height · width)) |
| Equalization.LuminanceToGreyscale | equalize.py:45-50 | every value v becomes the opaque gray pixel (v, v, v), whose luminance is v again; shape kept |
| Equalization.DarkestBinNotDarker | equalize.py:31-35 | for every histogram, bin 0 equalizes at least as bright as bin 1 when H[0] >= H[1], and strictly brighter only when H[0] > H[1] |
| Equalization.EqualizedInRange | equalize.py:42 | an equalized value lies in [0, 255] whenever the cumulative count is at most the pixel count |
| Equalization.EqualizedOrder | equalize.py:42 | luminances 1..255 keep their order through equalization |
| Equalization.Equalize | equalize.py:11-17 | same shape; every output pixel is opaque gray, and its level (which is also its luminance) is the rounded scaled cumulative count of the input luminance; pixels of luminance at least 1 keep their brightness order |
| Geometry.FlipVertical | ImageShop.py:119-122 | row i of the input becomes row height-1-i, and the shape is kept |
| Geometry.FlipHorizontal | ImageShop.py:125-130 | pixel j of each row moves to width-1-j, and the shape is kept |
| Geometry.FlipVerticalInvolution | ImageShop.py:119-122 | flipping vertically twice gives the input back |
| Geometry.FlipHorizontalInvolution | ImageShop.py:125-130 | flipping horizontally twice gives the input back |
| Geometry.RotateLeft | ImageShop.py:133-141 | a width × height array in which input cell (i, j) lands at row `-j` (index -j), column i |
| Geometry.RotateRight | ImageShop.py:143-151 | a width × height array in which input cell (i, j) lands at row j, column `-i` (index -i) |
| Geometry.NegIndexBijection | ImageShop.py:137-140 | the loops write every cell of the new array exactly once, so no placeholder `[0]` survives |
| Geometry.RotateRightThenLeft | ImageShop.py:133-151 | a left rotation undoes a right rotation |
| Geometry.RotateLeftThenRight | ImageShop.py:133-151 | a right rotation undoes a left rotation |
| Geometry.RotateLeftTwice | ImageShop.py:133-141 | two left rotations map cell (i, j) to the input's cell (-i, -j), a half turn with the seam |
| Geometry.RotateLeftFourTimes | ImageShop.py:133-141 | four left rotations give the input back |
| ChromaKey.LooksGreen | ImageShop.py:164 | the greenness test as written on `bin` strings, with string `<`, string `max` and `2*` repetition; `LooksGreenIff` gives its numeric meaning |
| ChromaKey.LooksGreenIff | ImageShop.py:164 | for a pixel with alpha at least 128, the string test holds exactly when green > max(red, blue) |
| ChromaKey.GreenScreen | ImageShop.py:153-167 | base shape kept; base pixels outside the rows and columns both arrays share are unchanged |
| ChromaKey.GreenScreenTakesNonGreen | ImageShop.py:162-165 | inside the overlap, with such overlay pixels, the overlay pixel is taken exactly when its green is at most max(red, blue) |
| ChromaKey.AllGreenOverlayKeepsBase | ImageShop.py:162-167 | an overlay that looks green everywhere leaves the base unchanged |
| ChromaKey.NoGreenOverlayReplacesOverlap | ImageShop.py:162-167 | an overlay with no green-looking pixel replaces the whole overlap |
| Blurring.RoundedMean5 | ImageShop.py:194-199 | `round(mean(...))` of five channel values is the nearest integer to their average, and a byte |
| Blurring.PlusMean | ImageShop.py:194-201 | the new pixel is opaque and each channel is the rounded mean of that channel over the pixel and its four neighbours |
| Blurring.BlurredPixelOfHighAlpha | ImageShop.py:176-201 | when the five pixels read have alpha at least 128, the bin-slice reads give the true plus mean |
| Blurring.BlurredPixel | ImageShop.py:177-201 | the pixel written at an interior cell is opaque, as `createRGBPixel` makes it; `BlurredPixelOfHighAlpha` gives its channels |
| Blurring.BlurRowFrom | ImageShop.py:175-201 | the inner loop over a row keeps the shape and never changes a border pixel; `BlurRowFromInvariant` gives the values it leaves |
| Blurring.BlurRowsFrom | ImageShop.py:174-201 | the outer loop over the rows keeps the shape and never changes a border pixel; `BlurRowsFromInvariant` gives the values it leaves |
| Blurring.BlurAt | ImageShop.py:176-201 | one loop step changes at most cell (i, j), and only an interior one |
| Blurring.Blur | ImageShop.py:169-202 | same shape; border pixels unchanged |
| Blurring.BlurAtValue | ImageShop.py:176-201 | visiting a cell leaves its final value there |
| Blurring.BlurAtStep | ImageShop.py:174-201 | each loop step keeps the invariant: visited cells hold their final value, the rest still hold the input |
| Blurring.RowFinished | ImageShop.py:174-175 | finishing row i is starting row i + 1 |
| Blurring.BlurRowFromInvariant | ImageShop.py:175-201 | finishing the inner loop over row i from any column keeps the invariant and arrives at the start of row i + 1 |
| Blurring.BlurRowsFromInvariant | ImageShop.py:174-201 | finishing the outer loop from any row keeps the invariant up to the end of the array |
| Blurring.BlurComputes | ImageShop.py:174-201 | every cell of the result holds its final value as defined by the in-place order |
| Blurring.BlurInPlace | ImageShop.py:174-201 | each interior result pixel is the rounded plus mean of the input pixel itself, the input pixels below and to the right, and the already-blurred result pixels above and to the left |
| Blurring.BlurSmallUnchanged | ImageShop.py:176 | an array with fewer than three rows or columns has no interior and comes back unchanged |
| Blurring.BlurUniformFixedPoint | ImageShop.py:169-202 | an array filled with one colour with alpha 255 is a fixed point |
| Blurring.BlurRedCentre | ImageShop.py:169-202 | a 3×3 black array with a (255, 0, 0) centre blurs to the same array with a (51, 0, 0) centre |

## Left out

- The GUI (ImageShop.py:1-117) and the demo program `GrayscaleImage()`
  (GrayscaleImage.py:18-25). They only create windows and buttons and call
  the routines.
- `chooseInputFile` and loading the second image (ImageShop.py:158-160). The
  overlay pixel array is a parameter of `GreenScreen`.
- The `pgl` library is not part of this model:
  - `GImage.getPixelArray`, `getRed`, `getGreen`, `getBlue` and
    `createRGBPixel` are modelled by `Pack`, `UnpackPack` and
    `CreateRGBPixel`;
  - wrapping results in a new `GImage` is not modelled: the routines
    return the pixel array.
- CreateRGBPixel: the `pgl` library is not part of this model, so that
  `createRGBPixel` writes alpha 255 is taken as given rather than proved.
  The blur lemmas rely on it (`BlurAtValue`, `BlurComputes`,
  `BlurUniformFixedPoint`, `BlurRedCentre`). They read back the already
  blurred pixels above and to the left through `bin` slices, which give the
  true channels only when alpha is at least 128.
- Aliasing and in-place mutation of the caller's pixel array are not
  modelled. The routines return new arrays.
- Luminance: floating point is not modelled. `round(0.299 r + 0.587 g +
  0.114 b)` is taken as the exact decimal value rounded half to even. A
  binary-float sum that lands just beside a .5 tie could round the other
  way in Python.
- ComputeNewLuminance: `255 * C / (h * w)` is taken as the exact rational
  value rounded half to even, not the float quotient.
- LuminanceToGreyscale: requires every value to be in [0, 255], which is
  what `createRGBPixel` accepts as a channel. Equalize establishes this
  before the call.
- Blur: `int('', 2)` raises ValueError in Python when a slice of
  `bin(pixel)` is empty. That happens for any pixel whose alpha byte is 0,
  since it packs below 2^24 and its [26:34] slice is empty. The model reads such an empty slice as 0 instead of
  raising. All lemmas about the blurred values assume every input pixel has alpha
  at least 128 (`HighAlpha`).
- Blur: `statistics.mean` is taken as the exact mean of the five integers.
  Its float conversion never reaches a tie, since the sum over 5 is never
  exactly a half.
- Arrays with no rows (`len(array) == 0`): `IsPixelArray` excludes them.
  Only `createGrayscaleImage` (GrayscaleImage.py:33) and the rotations
  (ImageShop.py:137, 147) evaluate `len(array[0])` outside a loop over the
  rows and fail on `[]`. The other routines return `[]` unchanged, but they
  are modelled from at least one row, because their callers always pass the
  pixel array of a loaded image, which has at least one row.
