/** The arithmetic of the thumbnail height: `System.Decimal` division taken
    as exact rational division, `Math.Round` with its default
    round-half-to-even, and the truncating `int` division of `saveImage`. */
module Sizing {
  import opened Wrappers

  function Abs(x: int): nat {
    if x < 0 then -x else x
  }

  /** The C# / .NET `int` range. */
  predicate InInt32(x: int) {
    -0x8000_0000 <= x < 0x8000_0000
  }

  /** Multiplying by a non-negative factor keeps the order. */
  lemma MulMonotone(a: int, b: int, c: int)
    requires a <= b && c >= 0
    ensures a * c <= b * c
  {
    assert b * c - a * c == (b - a) * c;
  }

  /** Integer division by a positive divisor brackets the dividend. */
  lemma DivBounds(x: nat, y: nat)
    requires y > 0
    ensures (x / y) * y <= x < (x / y + 1) * y
  {
    assert x == (x / y) * y + x % y;
    assert (x / y + 1) * y == (x / y) * y + y;
  }

  // ---------------------------------------------------------------------
  // Decimal values as exact fractions
  // ---------------------------------------------------------------------

  /** A fraction `num / den`; every one the model builds has `den > 0`. */
  datatype Fraction = Fraction(num: int, den: int) {
    predicate Valid() { den > 0 }
  }

  /** The widening `(decimal)x` of an integer. */
  function FromInt(x: int): (q: Fraction)
    ensures q.Valid() && q.num == x * q.den
  {
    Fraction(x, 1)
  }

  /** Decimal division: throws `DivideByZeroException` (here `None`) for a
      zero divisor, otherwise the quotient, i.e. the fraction that times
      `b` gives `a`. */
  function Divide(a: Fraction, b: Fraction): (r: Option<Fraction>)
    requires a.Valid() && b.Valid()
    ensures r.None? <==> b.num == 0
    ensures r.Some? ==> r.value.Valid() && r.value.num * b.num * a.den == a.num * r.value.den * b.den
  {
    if b.num == 0 then None
    else if b.num > 0 then
      assert (a.num * b.den) * b.num * a.den == a.num * (a.den * b.num) * b.den;
      Some(Fraction(a.num * b.den, a.den * b.num))
    else
      assert (-a.num * b.den) * b.num * a.den == a.num * (a.den * -b.num) * b.den;
      Some(Fraction(-a.num * b.den, a.den * -b.num))
  }

  // ---------------------------------------------------------------------
  // Math.Round(decimal): round half to even
  // ---------------------------------------------------------------------

  /** The integer nearest to `n / d`; at a tie (exactly half way) the even one. */
  function RoundHalfEven(n: int, d: int): (k: int)
    requires d > 0
    ensures 2 * Abs(n - k * d) <= d
    ensures 2 * Abs(n - k * d) == d ==> k % 2 == 0
  {
    var q, r := n / d, n % d;
    assert n - q * d == r;
    assert n - (q + 1) * d == r - d;
    if 2 * r < d then q
    else if 2 * r > d then q + 1
    else if q % 2 == 0 then q
    else q + 1
  }

  /** The two postconditions of `RoundHalfEven` determine it: any integer
      that is nearer than half a step, or exactly half a step away and even,
      is the rounded value. */
  lemma RoundHalfEvenUnique(n: int, d: int, k: int)
    requires d > 0
    requires 2 * Abs(n - k * d) < d || (2 * Abs(n - k * d) == d && k % 2 == 0)
    ensures k == RoundHalfEven(n, d)
  {
    var j := RoundHalfEven(n, d);
    // n - k * d and n - j * d lie within d / 2 of 0, so they are less than
    // two steps apart, and one step apart only when both are ties, which
    // cannot both be even
    if j > k {
      MulGap(k, j, d);
      assert false;
    } else if j < k {
      MulGap(j, k, d);
      assert false;
    }
  }

  /** Products with a common positive factor are at least one step apart per unit. */
  lemma MulGap(k: int, j: int, d: int)
    requires k < j && d > 0
    ensures j * d - k * d >= d
    ensures j >= k + 2 ==> j * d - k * d >= 2 * d
  {
    assert j * d - k * d == (j - k) * d;
    MulMonotone(1, j - k, d);
    if j >= k + 2 {
      MulMonotone(2, j - k, d);
    }
  }

  /** Rounding a quotient that lies in `[0, m]` gives an integer in `[0, m]`. */
  lemma RoundHalfEvenWithin(n: int, d: int, m: int)
    requires d > 0 && 0 <= n <= m * d
    ensures 0 <= RoundHalfEven(n, d) <= m
  {
    var k := RoundHalfEven(n, d);
    // k * d is within half a step of n, so k cannot be a whole step beyond [0, m]
    if k > m {
      MulGap(m, k, d);
      assert false;
    }
    if k < 0 {
      MulGap(k, 0, d);
      assert false;
    }
  }

  /** Rounding an integer quotient gives it back. */
  lemma RoundHalfEvenExact(m: int, d: int)
    requires d > 0
    ensures RoundHalfEven(m * d, d) == m
  {
    RoundHalfEvenUnique(m * d, d, m);
  }

  // ---------------------------------------------------------------------
  // The height computed in Run
  // ---------------------------------------------------------------------

  /** Lines 121-122 of `Run`: `divisor = (decimal)w0 / (decimal)t`, then
      `Math.Round((decimal)h0 / divisor)`. `None` is the
      `DivideByZeroException` of either division; the result is not yet
      narrowed to `int`. */
  function ScaledHeight(w0: int, h0: int, t: int): (h: Option<int>)
    ensures h.None? <==> t == 0 || w0 == 0
    ensures h.Some? && w0 > 0 ==> h.value == RoundHalfEven(h0 * t, w0)
  {
    match Divide(FromInt(w0), FromInt(t))
    case None => None
    case Some(divisor) =>
      match Divide(FromInt(h0), divisor)
      case None => None
      case Some(q) =>
        DivisorQuotient(w0, h0, t, divisor, q);
        Some(RoundHalfEven(q.num, q.den))
  }

  /** The two divisions of `ScaledHeight` compose to `h0 * t / w0`. */
  lemma DivisorQuotient(w0: int, h0: int, t: int, divisor: Fraction, q: Fraction)
    requires t != 0 && Divide(FromInt(w0), FromInt(t)) == Some(divisor)
    requires Divide(FromInt(h0), divisor) == Some(q)
    ensures w0 != 0
    ensures w0 > 0 ==> q == Fraction(h0 * t, w0)
  {
    if t > 0 {
      assert divisor == Fraction(w0, t);
    } else {
      assert divisor == Fraction(-w0, -t);
    }
  }

  /** Shrinking a `w0`-wide image to width `t < w0` keeps the height between
      0 and `h0`, and the height is the integer nearest to `h0 * t / w0`
      (ties to even): the aspect ratio is kept to within half a pixel. */
  lemma ScaledHeightShrinks(w0: int, h0: int, t: int)
    requires 0 < t < w0 && h0 >= 0
    ensures ScaledHeight(w0, h0, t).Some?
    ensures var h := ScaledHeight(w0, h0, t).value;
      0 <= h <= h0 && 2 * Abs(h * w0 - h0 * t) <= w0
  {
    MulMonotone(t, w0, h0);
    assert t * h0 == h0 * t && w0 * h0 == h0 * w0;
    RoundHalfEvenWithin(h0 * t, w0, h0);
  }

  /** At width exactly `w0` the scale is 1 and the height is `h0`. */
  lemma ScaledHeightAtSameWidth(w0: int, h0: int)
    requires w0 > 0
    ensures ScaledHeight(w0, h0, w0) == Some(h0)
  {
    RoundHalfEvenExact(h0, w0);
  }

  // ---------------------------------------------------------------------
  // The height computed in saveImage
  // ---------------------------------------------------------------------

  /** C# `int` division `a / b`, which truncates toward zero. */
  function TruncDiv(a: int, b: int): (r: int)
    requires b != 0
    ensures Abs(r) * Abs(b) <= Abs(a) < (Abs(r) + 1) * Abs(b)
    ensures r == 0 || ((r > 0) <==> ((a > 0) == (b > 0)))
  {
    var q := Abs(a) / Abs(b);
    DivBounds(Abs(a), Abs(b));
    if (a >= 0) == (b > 0) then q else -q
  }

  /** Lines 166-167 of `saveImage` as written: `divisor = w0 / width` and
      `height = h0 / divisor`, both in `int` (the `Math.Round` of an integer
      changes nothing). `None` is the uncaught `DivideByZeroException`. */
  function SaveImageHeight(w0: nat, h0: nat, width: int): (h: Option<int>)
    ensures h.None? <==> width == 0 || w0 < Abs(width)
    ensures h.Some? && width > 0 ==> h.value == h0 / (w0 / width)
    ensures h.Some? && width < 0 ==> h.value == -(h0 / (w0 / -width))
    ensures h.Some? && width > 0 ==> h.value >= 0 && h.value * (w0 / width) <= h0
  {
    if width == 0 then None
    else
      var divisor := TruncDiv(w0, width);
      if divisor == 0 then None
      else
        TruncDivOfNat(w0, width);
        TruncDivOfNat(h0, divisor);
        if divisor > 0 then DivBounds(h0, divisor); Some(TruncDiv(h0, divisor))
        else Some(TruncDiv(h0, divisor))
  }

  /** Truncating division of a non-negative dividend, by the sign of the divisor. */
  lemma TruncDivOfNat(a: nat, b: int)
    requires b != 0
    ensures b > 0 ==> TruncDiv(a, b) == a / b
    ensures b < 0 ==> TruncDiv(a, b) == -(a / -b)
    ensures TruncDiv(a, b) == 0 <==> a < Abs(b)
  {
    var q := a / Abs(b);
    DivBounds(a, Abs(b));
    assert TruncDiv(a, b) == if b > 0 then q else -q;
    if q >= 1 {
      MulMonotone(1, q, Abs(b));
    }
  }

  /** The truncated divisor never makes the height smaller than the exact
      ratio's integer part: the as-written height errs only upwards. */
  lemma SaveImageHeightNotBelowRatio(w0: nat, h0: nat, width: int)
    requires 0 < width <= w0
    ensures SaveImageHeight(w0, h0, width).Some?
    ensures SaveImageHeight(w0, h0, width).value >= h0 * width / w0
  {
    var divisor := w0 / width;
    DivBounds(w0, width);
    assert divisor >= 1;
    var k := h0 * width / w0;
    DivBounds(h0 * width, w0);
    // k * divisor * width <= k * w0 <= h0 * width, so k * divisor <= h0
    MulMonotone(divisor * width, w0, k);
    assert (k * divisor) * width <= h0 * width;
    if k * divisor > h0 {
      MulMonotone(h0 + 1, k * divisor, width);
      assert false;
    }
    DivBounds(h0, divisor);
    if h0 / divisor < k {
      MulMonotone(h0 / divisor + 1, k, divisor);
      assert false;
    }
    assert SaveImageHeight(w0, h0, width) == Some(h0 / divisor);
  }

  /** A 1999 x 1000 image shrunk to width 1000: `Run` asks for height 500,
      `saveImage` keeps height 1000 because `1999 / 1000` truncates to 1. */
  lemma SaveImageHeightDrifts()
    ensures SaveImageHeight(1999, 1000, 1000) == Some(1000)
    ensures ScaledHeight(1999, 1000, 1000) == Some(500)
  {
    RoundHalfEvenUnique(1000 * 1000, 1999, 500);
  }
}
