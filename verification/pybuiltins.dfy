/** The pieces of Python's built-in behaviour that the image routines rely on:
    `bin` on non-negative integers, string slicing, string comparison, `max` of
    two strings, repetition `n * s`, `int(s, 2)`, negative list indices,
    `s[::-1]` and `round` (which rounds halves to even). */
module PyBuiltins {

  /** 2 to the power n. */
  function Pow2(n: nat): (r: nat)
    ensures r >= 1
  {
    if n == 0 then 1 else 2 * Pow2(n - 1)
  }

  lemma {:induction false} Pow2Add(a: nat, b: nat)
    ensures Pow2(a + b) == Pow2(a) * Pow2(b)
  {
    if b > 0 {
      Pow2Add(a, b - 1);
      assert Pow2(a + b) == 2 * Pow2(a + b - 1);
    }
  }

  lemma {:induction false} Pow2Le(a: nat, b: nat)
    requires a <= b
    ensures Pow2(a) <= Pow2(b)
    decreases b
  {
    if a < b {
      Pow2Le(a, b - 1);
    }
  }

  lemma Pow2Values()
    ensures Pow2(8) == 256
    ensures Pow2(16) == 65536
    ensures Pow2(31) == 2147483648
    ensures Pow2(32) == 4294967296
  {
    assert Pow2(2) == 4;
    assert Pow2(4) == 16;
    assert Pow2(8) == 256 by { Pow2Add(4, 4); }
    Pow2Add(8, 8);
    Pow2Add(16, 8);
    Pow2Add(24, 7);
    Pow2Add(31, 1);
    assert Pow2(7) == 128 by { Pow2Add(4, 3); }
  }

  // ---------------------------------------------------------------------------
  // bin() and fixed-width bit strings
  // ---------------------------------------------------------------------------

  function BitChar(b: int): char
  {
    if b == 0 then '0' else '1'
  }

  /** The binary digits of n without leading zeros (empty for 0). */
  function Digits(n: nat): string
  {
    if n == 0 then [] else Digits(n / 2) + [BitChar(n % 2)]
  }

  /** Python's `bin(n)` for a non-negative n: "0b" followed by the digits. */
  function Bin(n: nat): string
  {
    "0b" + (if n == 0 then "0" else Digits(n))
  }

  /** The low w bits of n written most significant first. */
  function Bits(n: nat, w: nat): (s: string)
    ensures |s| == w
    ensures forall k :: 0 <= k < w ==> s[k] == '0' || s[k] == '1'
  {
    if w == 0 then [] else Bits(n / 2, w - 1) + [BitChar(n % 2)]
  }

  /** A number with exactly w significant bits prints as its w-bit rendering. */
  lemma {:induction false} DigitsOfWidth(n: nat, w: nat)
    requires w >= 1 && Pow2(w - 1) <= n < Pow2(w)
    ensures Digits(n) == Bits(n, w)
  {
    if w == 1 {
      assert n == 1;
      assert Digits(0) == [];
    } else {
      assert Pow2(w - 1) == 2 * Pow2(w - 2);
      DigitsOfWidth(n / 2, w - 1);
    }
  }

  /** Bit strings of place-value sums are concatenations. */
  lemma {:induction false} BitsConcat(x: nat, y: nat, w: nat, k: nat)
    requires y < Pow2(k)
    ensures Bits(x * Pow2(k) + y, w + k) == Bits(x, w) + Bits(y, k)
  {
    if k == 0 {
      assert y == 0;
    } else {
      var half := Pow2(k - 1);
      var m := x * half;
      assert x * Pow2(k) == 2 * m by {
        assert Pow2(k) == 2 * half;
      }
      var n := x * Pow2(k) + y;
      HalveSum(m, y);
      BitsConcat(x, y / 2, w, k - 1);
      assert Bits(n, w + k) == Bits(n / 2, w + k - 1) + [BitChar(n % 2)];
    }
  }

  lemma HalveSum(m: nat, y: nat)
    ensures (2 * m + y) / 2 == m + y / 2
    ensures (2 * m + y) % 2 == y % 2
  {
  }

  /** The eight-bit case of `BitsConcat`: n = x * 256 + y, with y a byte,
      prints as x's bits followed by y's eight. */
  lemma BitsConcatByte(n: nat, x: nat, y: nat, w: nat)
    requires y < 256 && n == x * 256 + y
    ensures Bits(n, w + 8) == Bits(x, w) + Bits(y, 8)
  {
    assert Pow2(8) == 256;
    BitsConcat(x, y, w, 8);
  }

  // ---------------------------------------------------------------------------
  // int(s, 2)
  // ---------------------------------------------------------------------------

  /** Python's `int(s, 2)` on a string of binary digits. */
  function ParseBin(s: string): nat
  {
    if |s| == 0 then 0
    else 2 * ParseBin(s[..|s| - 1]) + (if s[|s| - 1] == '1' then 1 else 0)
  }

  lemma {:induction false} ParseBits(x: nat, w: nat)
    requires x < Pow2(w)
    ensures ParseBin(Bits(x, w)) == x
  {
    if w > 0 {
      var s := Bits(x, w);
      assert s[..w - 1] == Bits(x / 2, w - 1);
      ParseBits(x / 2, w - 1);
    }
  }

  lemma {:induction false} ParseBinBound(s: string)
    ensures ParseBin(s) < Pow2(|s|)
  {
    if |s| > 0 {
      ParseBinBound(s[..|s| - 1]);
    }
  }

  /** At most eight binary digits read back as a byte value. */
  lemma ParseBinByte(s: string)
    requires |s| <= 8
    ensures ParseBin(s) < 256
  {
    ParseBinBound(s);
    Pow2Le(|s|, 8);
    assert Pow2(8) == 256;
  }

  // ---------------------------------------------------------------------------
  // Slicing, comparison, max and repetition of strings
  // ---------------------------------------------------------------------------

  /** Python's `s[lo:hi]` for non-negative bounds: out-of-range bounds are clamped. */
  function StrSlice(s: string, lo: nat, hi: nat): (r: string)
    requires lo <= hi
    ensures |r| <= hi - lo
    ensures hi <= |s| ==> r == s[lo..hi]
  {
    var a := if lo <= |s| then lo else |s|;
    var b := if hi <= |s| then hi else |s|;
    s[a..b]
  }

  /** Python's lexicographic `s < t` on strings. */
  predicate StrLess(s: string, t: string)
  {
    if |s| == 0 then |t| > 0
    else if |t| == 0 then false
    else if s[0] != t[0] then s[0] < t[0]
    else StrLess(s[1..], t[1..])
  }

  /** Python's `max(s, t)`: the first argument unless the second is greater. */
  function StrMax(s: string, t: string): (r: string)
    ensures r == s || r == t
  {
    if StrLess(s, t) then t else s
  }

  /** Python's `n * s` for a string s. */
  function StrRepeat(n: nat, s: string): (r: string)
    ensures |r| == n * |s|
  {
    if n == 0 then [] else s + StrRepeat(n - 1, s)
  }

  /** Equal-length strings extended by one character compare on the
      prefix first and on the last character only when the prefixes agree. */
  lemma {:induction false} StrLessSnoc(a: string, b: string, c: char, d: char)
    requires |a| == |b|
    ensures StrLess(a + [c], b + [d]) <==> StrLess(a, b) || (a == b && c < d)
  {
    if |a| == 0 {
      assert a == b;
    } else {
      assert (a + [c])[1..] == a[1..] + [c];
      assert (b + [d])[1..] == b[1..] + [d];
      if a[0] == b[0] {
        StrLessSnoc(a[1..], b[1..], c, d);
        assert a == [a[0]] + a[1..];
        assert b == [b[0]] + b[1..];
      }
    }
  }

  /** A string compares against one of its own length as if anything
      appended to it were absent. */
  lemma {:induction false} StrLessPadded(m: string, g: string, t: string)
    requires |m| == |g|
    ensures StrLess(m + t, g) <==> StrLess(m, g)
  {
    if |m| > 0 {
      assert (m + t)[1..] == m[1..] + t;
      StrLessPadded(m[1..], g[1..], t);
    }
  }

  lemma {:induction false} BitsInjective(x: nat, y: nat, w: nat)
    requires x < Pow2(w) && y < Pow2(w)
    requires Bits(x, w) == Bits(y, w)
    ensures x == y
  {
    if w == 0 {
    } else {
      var s, t := Bits(x, w), Bits(y, w);
      assert s[..w - 1] == Bits(x / 2, w - 1);
      assert t[..w - 1] == Bits(y / 2, w - 1);
      assert s[w - 1] == BitChar(x % 2) && t[w - 1] == BitChar(y % 2);
      BitsInjective(x / 2, y / 2, w - 1);
    }
  }

  /** On w-bit renderings, string order is numeric order. */
  lemma {:induction false} StrLessBits(x: nat, y: nat, w: nat)
    requires x < Pow2(w) && y < Pow2(w)
    ensures StrLess(Bits(x, w), Bits(y, w)) <==> x < y
  {
    if w == 0 {
      assert Bits(x, 0) == [] && Bits(y, 0) == [];
    } else {
      StrLessBits(x / 2, y / 2, w - 1);
      StrLessSnoc(Bits(x / 2, w - 1), Bits(y / 2, w - 1), BitChar(x % 2), BitChar(y % 2));
      if Bits(x / 2, w - 1) == Bits(y / 2, w - 1) {
        BitsInjective(x / 2, y / 2, w - 1);
      }
    }
  }

  /** `max` of two w-bit renderings is the rendering of the larger number. */
  lemma StrMaxBits(x: nat, y: nat, w: nat)
    requires x < Pow2(w) && y < Pow2(w)
    ensures StrMax(Bits(x, w), Bits(y, w)) == Bits(if x < y then y else x, w)
  {
    StrLessBits(x, y, w);
  }

  // ---------------------------------------------------------------------------
  // Negative indices and s[::-1]
  // ---------------------------------------------------------------------------

  /** The position that Python's index k denotes in a list of length len. */
  function PyIndex(len: nat, k: int): (r: nat)
    requires -(len as int) <= k < len
    ensures r < len
  {
    if k < 0 then len + k else k
  }

  /** The position that the index `-k` denotes in a list of length n: 0 for
      k = 0 (since -0 is 0) and n - k otherwise. */
  function NegIndex(n: nat, k: nat): (r: nat)
    requires k < n
    ensures r < n
  {
    PyIndex(n, -(k as int))
  }

  /** Negating an index twice gives it back, so `NegIndex(n, _)` is a
      bijection of [0, n) onto itself; it equals (n - k) % n. */
  lemma NegIndexInvolution(n: nat, k: nat)
    requires k < n
    ensures NegIndex(n, NegIndex(n, k)) == k
    ensures NegIndex(n, k) == (n - k) % n
  {
    if k > 0 {
      assert NegIndex(n, k) == n - k;
      ModOfSmall(n - k, n);
    } else {
      ModOfSmall(0, n);
      assert (n - k) % n == 0 % n;
    }
  }

  lemma ModOfSmall(a: int, n: int)
    requires 0 <= a < n
    ensures a % n == a
    ensures (a + n) % n == a
  {
  }

  /** Python's `s[::-1]`. */
  function Reverse<T>(s: seq<T>): (r: seq<T>)
    ensures |r| == |s|
    ensures forall i :: 0 <= i < |s| ==> r[i] == s[|s| - 1 - i]
  {
    if |s| == 0 then [] else Reverse(s[1..]) + [s[0]]
  }

  lemma ReverseInvolution<T>(s: seq<T>)
    ensures Reverse(Reverse(s)) == s
  {
  }

  // ---------------------------------------------------------------------------
  // round(n / d)
  // ---------------------------------------------------------------------------

  /** r is n/d rounded to the nearest integer, a tie going to the even one. */
  ghost predicate IsRoundHalfEven(n: int, d: int, r: int)
  {
    && d > 0
    && -d <= 2 * (n - d * r) <= d
    && (2 * (n - d * r) == d || 2 * (n - d * r) == -d ==> r % 2 == 0)
  }

  /** Python's `round(n / d)` computed exactly with integer division. */
  function RoundHalfEven(n: int, d: int): (r: int)
    requires d > 0
    ensures IsRoundHalfEven(n, d, r)
  {
    var q := n / d;
    var m := n % d;
    assert n - d * (q + 1) == m - d;
    if 2 * m < d then q
    else if 2 * m > d then q + 1
    else if q % 2 == 0 then q
    else q + 1
  }

  lemma MulMonotone(d: int, a: int, b: int)
    requires d > 0 && a < b
    ensures d * a + d <= d * b
  {
    var k := b - a - 1;
    assert d * k >= 0;
    assert d * b == d * a + d + d * k;
  }

  /** Only one integer is the half-to-even rounding of n/d. */
  lemma RoundHalfEvenUnique(n: int, d: int, r1: int, r2: int)
    requires IsRoundHalfEven(n, d, r1) && IsRoundHalfEven(n, d, r2)
    ensures r1 == r2
  {
    if r1 < r2 {
      MulMonotone(d, r1, r2);
      if r1 + 1 < r2 {
        MulMonotone(d, r1 + 1, r2);
      }
    } else if r2 < r1 {
      MulMonotone(d, r2, r1);
      if r2 + 1 < r1 {
        MulMonotone(d, r2 + 1, r1);
      }
    }
  }

  /** Rounding is monotone in the numerator. */
  lemma RoundHalfEvenMonotone(n1: int, n2: int, d: int)
    requires d > 0 && n1 <= n2
    ensures RoundHalfEven(n1, d) <= RoundHalfEven(n2, d)
  {
    var r1, r2 := RoundHalfEven(n1, d), RoundHalfEven(n2, d);
    if r2 < r1 {
      MulMonotone(d, r2, r1);
      if r2 + 1 < r1 {
        MulMonotone(d, r2 + 1, r1);
      }
    }
  }

  /** A numerator between 0 and d*m rounds into [0, m]. */
  lemma RoundHalfEvenBounds(n: int, d: int, m: int)
    requires d > 0 && 0 <= n <= d * m
    ensures 0 <= RoundHalfEven(n, d) <= m
  {
    var r := RoundHalfEven(n, d);
    if r < 0 {
      MulMonotone(d, r, 0);
    }
    if m < r {
      MulMonotone(d, m, r);
    }
  }

  /** An exact quotient rounds to itself. */
  lemma RoundHalfEvenExact(v: int, d: int)
    requires d > 0
    ensures RoundHalfEven(d * v, d) == v
  {
    RoundHalfEvenUnique(d * v, d, RoundHalfEven(d * v, d), v);
  }

  /** The mean of five integers is never a tie, so it rounds to (s + 2) div 5. */
  lemma MeanOfFiveRounds(s: int)
    ensures RoundHalfEven(s, 5) == (s + 2) / 5
  {
    RoundHalfEvenUnique(s, 5, RoundHalfEven(s, 5), (s + 2) / 5);
  }
}
