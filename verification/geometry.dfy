/** Flips and rotations (ImageShop.py `flipVertical`, `flipHorizontal`,
    `rotateLeft`, `rotateRight`). The rotations write through Python's
    negative indices, so column 0 lands in row 0 instead of the far end:
    each is a quarter turn whose rows (or columns) are shifted cyclically
    by one, and still a bijection on cells. */
module Geometry {
  import opened PyBuiltins
  import opened Pixels

  /** `array[::-1]`: the rows in reverse order. */
  function FlipVertical(g: Grid): (r: Grid)
    ensures |r| == |g|
    ensures forall i :: 0 <= i < |g| ==> r[|g| - 1 - i] == g[i]
    ensures IsPixelArray(g) ==> HasShape(r, |g|, |g[0]|)
  {
    Reverse(g)
  }

  /** Every row replaced by `row[::-1]`. */
  function FlipHorizontal(g: Grid): (r: Grid)
    ensures |r| == |g|
    ensures forall i :: 0 <= i < |g| ==> |r[i]| == |g[i]|
    ensures forall i, j :: 0 <= i < |g| && 0 <= j < |g[i]| ==> r[i][|g[i]| - 1 - j] == g[i][j]
    ensures IsPixelArray(g) ==> HasShape(r, |g|, |g[0]|)
  {
    seq(|g|, i requires 0 <= i < |g| => Reverse(g[i]))
  }

  lemma FlipVerticalInvolution(g: Grid)
    ensures FlipVertical(FlipVertical(g)) == g
  {
    ReverseInvolution(g);
  }

  lemma FlipHorizontalInvolution(g: Grid)
    ensures FlipHorizontal(FlipHorizontal(g)) == g
  {
    var r := FlipHorizontal(FlipHorizontal(g));
    forall i | 0 <= i < |g|
      ensures r[i] == g[i]
    {
      ReverseInvolution(g[i]);
    }
  }

  /** `rotateLeft`: a width-by-height array in which `new_array[-j][i]` is
      written with `array[i][j]`. Row k is read back from column
      `NegIndex(width, k)`, the same map, since it is its own inverse. */
  function RotateLeft(g: Grid): (r: Grid)
    requires IsPixelArray(g)
    ensures HasShape(r, |g[0]|, |g|)
    ensures |g[0]| >= 1 ==> IsPixelArray(r)
    ensures forall i, j :: 0 <= i < |g| && 0 <= j < |g[0]| ==> r[NegIndex(|g[0]|, j)][i] == g[i][j]
  {
    var h, w := |g|, |g[0]|;
    seq(w, k requires 0 <= k < w =>
      seq(h, i requires 0 <= i < h => g[i][NegIndex(w, k)]))
  }

  /** `rotateRight`: a width-by-height array in which `new_array[j][-i]` is
      written with `array[i][j]`. */
  function RotateRight(g: Grid): (r: Grid)
    requires IsPixelArray(g)
    ensures HasShape(r, |g[0]|, |g|)
    ensures |g[0]| >= 1 ==> IsPixelArray(r)
    ensures forall i, j :: 0 <= i < |g| && 0 <= j < |g[0]| ==> r[j][NegIndex(|g|, i)] == g[i][j]
  {
    var h, w := |g|, |g[0]|;
    seq(w, j requires 0 <= j < w =>
      seq(h, c requires 0 <= c < h => g[NegIndex(h, c)][j]))
  }

  /** The writes of both rotation loops hit every target cell exactly once:
      the index map k |-> (n - k) % n is injective on [0, n), and every
      position t is the image of the index NegIndex(n, t). */
  lemma NegIndexBijection(n: nat)
    ensures forall i, k :: 0 <= i < n && 0 <= k < n && NegIndex(n, i) == NegIndex(n, k) ==> i == k
    ensures forall t :: 0 <= t < n ==> NegIndex(n, NegIndex(n, t)) == t
  {
    forall i, k | 0 <= i < n && 0 <= k < n && NegIndex(n, i) == NegIndex(n, k)
      ensures i == k
    {
      NegIndexInvolution(n, i);
      NegIndexInvolution(n, k);
    }
    forall t | 0 <= t < n
      ensures NegIndex(n, NegIndex(n, t)) == t
    {
      NegIndexInvolution(n, t);
    }
  }

  lemma RotateRightThenLeft(g: Grid)
    requires IsPixelArray(g) && |g[0]| >= 1
    ensures IsPixelArray(RotateRight(g))
    ensures RotateLeft(RotateRight(g)) == g
  {
    var r := RotateLeft(RotateRight(g));
    forall i | 0 <= i < |g|
      ensures r[i] == g[i]
    {
      assert forall j :: 0 <= j < |g[0]| ==> r[i][j] == g[i][j];
    }
  }

  lemma RotateLeftThenRight(g: Grid)
    requires IsPixelArray(g) && |g[0]| >= 1
    ensures IsPixelArray(RotateLeft(g))
    ensures RotateRight(RotateLeft(g)) == g
  {
    var r := RotateRight(RotateLeft(g));
    forall i | 0 <= i < |g|
      ensures r[i] == g[i]
    {
      assert forall j :: 0 <= j < |g[0]| ==> r[i][j] == g[i][j];
    }
  }

  /** Two left rotations turn the array by half a turn, with the seam. */
  lemma RotateLeftTwice(g: Grid)
    requires IsPixelArray(g) && |g[0]| >= 1
    ensures IsPixelArray(RotateLeft(g))
    ensures HasShape(RotateLeft(RotateLeft(g)), |g|, |g[0]|)
    ensures forall i, j :: 0 <= i < |g| && 0 <= j < |g[0]| ==>
              RotateLeft(RotateLeft(g))[i][j] == g[NegIndex(|g|, i)][NegIndex(|g[0]|, j)]
  {
  }

  /** Four left rotations give back the original array. */
  lemma RotateLeftFourTimes(g: Grid)
    requires IsPixelArray(g) && |g[0]| >= 1
    ensures IsPixelArray(RotateLeft(RotateLeft(g)))
    ensures RotateLeft(RotateLeft(RotateLeft(RotateLeft(g)))) == g
  {
    RotateLeftTwice(g);
    var g2 := RotateLeft(RotateLeft(g));
    RotateLeftTwice(g2);
    var g4 := RotateLeft(RotateLeft(g2));
    forall i | 0 <= i < |g|
      ensures g4[i] == g[i]
    {
      assert forall j :: 0 <= j < |g[0]| ==> g4[i][j] == g[i][j];
    }
  }
}
