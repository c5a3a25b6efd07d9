/** Arithmetic on sequences of reals: Python's `sum`, `max`, `min`, the
    arithmetic mean and `round(x, 2)`. Floating-point precision is not
    modelled; every value is an exact real. */
module Numbers {

  /** Python's `sum(xs)`. */
  function Sum(xs: seq<real>): real {
    if |xs| == 0 then 0.0 else Sum(xs[..|xs| - 1]) + xs[|xs| - 1]
  }

  /** The sum of a concatenation is the sum of the parts. */
  lemma {:induction false} SumAppend(a: seq<real>, b: seq<real>)
    ensures Sum(a + b) == Sum(a) + Sum(b)
    decreases |b|
  {
    if |b| == 0 {
      assert a + b == a;
    } else {
      SumAppend(a, b[..|b| - 1]);
      assert (a + b)[..|a + b| - 1] == a + b[..|b| - 1];
    }
  }

  /** The arithmetic mean, `sum(xs) / len(xs)` (and `statistics.mean`). */
  function Mean(xs: seq<real>): real
    requires |xs| > 0
  {
    Sum(xs) / |xs| as real
  }

  /** Every element bounded above by `hi` bounds the sum by `|xs| * hi`; the
      same from below. */
  lemma {:induction false} SumBounds(xs: seq<real>, lo: real, hi: real)
    requires forall i :: 0 <= i < |xs| ==> lo <= xs[i] <= hi
    ensures |xs| as real * lo <= Sum(xs) <= |xs| as real * hi
  {
    if |xs| > 0 {
      SumBounds(xs[..|xs| - 1], lo, hi);
    }
  }

  /** All elements are non-negative, so is the sum. */
  lemma {:induction false} SumNonNegative(xs: seq<real>)
    requires forall i :: 0 <= i < |xs| ==> 0.0 <= xs[i]
    ensures 0.0 <= Sum(xs)
  {
    if |xs| > 0 {
      SumNonNegative(xs[..|xs| - 1]);
    }
  }

  /** Python's `max(xs)`. */
  function Max(xs: seq<real>): (m: real)
    requires |xs| > 0
    ensures forall i :: 0 <= i < |xs| ==> xs[i] <= m
    ensures exists i :: 0 <= i < |xs| && xs[i] == m
  {
    if |xs| == 1 then xs[0]
    else
      var m := Max(xs[..|xs| - 1]);
      assert forall i :: 0 <= i < |xs| - 1 ==> xs[..|xs| - 1][i] == xs[i];
      if xs[|xs| - 1] > m then xs[|xs| - 1] else m
  }

  /** Python's `min(xs)`. */
  function Min(xs: seq<real>): (m: real)
    requires |xs| > 0
    ensures forall i :: 0 <= i < |xs| ==> m <= xs[i]
    ensures exists i :: 0 <= i < |xs| && xs[i] == m
  {
    if |xs| == 1 then xs[0]
    else
      var m := Min(xs[..|xs| - 1]);
      assert forall i :: 0 <= i < |xs| - 1 ==> xs[..|xs| - 1][i] == xs[i];
      if xs[|xs| - 1] < m then xs[|xs| - 1] else m
  }

  /** The mean lies between the smallest and the largest element. */
  lemma {:induction false} MeanWithinRange(xs: seq<real>)
    requires |xs| > 0
    ensures Min(xs) <= Mean(xs) <= Max(xs)
  {
    var n, lo, hi, s := |xs| as real, Min(xs), Max(xs), Sum(xs);
    SumBounds(xs, lo, hi);
    DivideBounds(n, lo, s, hi);
  }

  /** n * lo <= s <= n * hi gives lo <= s / n <= hi. */
  lemma DivideBounds(n: real, lo: real, s: real, hi: real)
    requires n > 0.0 && n * lo <= s <= n * hi
    ensures lo <= s / n <= hi
  {
    assert s / n * n == s;
  }

  /** Whether the real `x` is a whole number (Python's `float.is_integer()`). */
  predicate IsWhole(x: real) {
    x.Floor as real == x
  }

  predicate IsEven(n: int) {
    n % 2 == 0
  }

  /** Round to the nearest integer, ties to the even neighbour: the rule of
      Python 3's `round`. */
  function RoundHalfEven(x: real): (n: int)
    ensures (n as real) - 0.5 <= x <= (n as real) + 0.5
    ensures (n as real) - 0.5 < x < (n as real) + 0.5 || IsEven(n)
  {
    var f := x.Floor;
    var frac := x - f as real;
    if frac < 0.5 then f
    else if frac > 0.5 then f + 1
    else if f % 2 == 0 then f
    else f + 1
  }

  /** `round(x, 2)` on exact reals: a multiple of 1/100 within half a hundredth of x. */
  function Round2(x: real): (r: real)
    ensures r - 0.005 <= x <= r + 0.005
    ensures IsWhole(r * 100.0)
  {
    var n := RoundHalfEven(x * 100.0);
    Hundredths(n, x);
    n as real / 100.0
  }

  /** A whole number of hundredths within half a hundredth of `x`. */
  lemma Hundredths(n: int, x: real)
    requires (n as real) - 0.5 <= x * 100.0 <= (n as real) + 0.5
    ensures n as real / 100.0 - 0.005 <= x <= n as real / 100.0 + 0.005
    ensures IsWhole(n as real / 100.0 * 100.0)
  {
    assert (n as real / 100.0) * 100.0 == n as real;
  }
}
