/** The arithmetic of the two update scripts on exact rational numbers:
    Python's built-in `round` (round half to even), rounding to two decimals,
    and the sum and mean of a list of samples. */
module Numeric {

  /** Python's `round(x)`: the nearest integer, and on a tie the even one. */
  function RoundHalfEven(x: real): (r: int)
    ensures -0.5 <= x - r as real <= 0.5
    ensures (x - r as real == 0.5 || x - r as real == -0.5) ==> r % 2 == 0
  {
    var f := x.Floor;
    var frac := x - f as real;
    if frac < 0.5 then f
    else if frac > 0.5 then f + 1
    else if f % 2 == 0 then f
    else f + 1
  }

  /** The two properties above determine the rounded value: any integer that
      is within one half of `x`, and even on a tie, is `RoundHalfEven(x)`. */
  lemma RoundHalfEvenUnique(x: real, k: int)
    requires -0.5 <= x - k as real <= 0.5
    requires (x - k as real == 0.5 || x - k as real == -0.5) ==> k % 2 == 0
    ensures k == RoundHalfEven(x)
  {
  }

  /** An integer value between two integer bounds rounds inside them. */
  lemma RoundWithinBounds(x: real, lo: int, hi: int)
    requires lo as real <= x <= hi as real
    ensures lo <= RoundHalfEven(x) <= hi
  {
  }

  /** Python's `round(x, 2)`: the nearest multiple of one hundredth, ties to
      the even hundredth. */
  function Round2(x: real): (r: real)
    ensures -0.005 <= r - x <= 0.005
    ensures (r * 100.0).Floor as real == r * 100.0
    ensures (r - x == 0.005 || r - x == -0.005) ==> (r * 100.0).Floor % 2 == 0
  {
    var k := RoundHalfEven(x * 100.0);
    Hundredths(k, x);
    k as real / 100.0
  }

  /** `k` hundredths, scaled back by one hundred, are `k`; their distance to
      `x` is a hundredth of the distance from `k` to `x * 100`. */
  lemma Hundredths(k: int, x: real)
    ensures (k as real / 100.0) * 100.0 == k as real
    ensures ((k as real / 100.0) * 100.0).Floor == k
    ensures k as real / 100.0 - x == (k as real - x * 100.0) / 100.0
  {
  }

  /** The three properties above determine the rounded value: a multiple of
      one hundredth within half a hundredth of `x`, even on a tie, is
      `Round2(x)`. */
  lemma Round2Unique(x: real, r: real)
    requires -0.005 <= r - x <= 0.005
    requires (r * 100.0).Floor as real == r * 100.0
    requires (r - x == 0.005 || r - x == -0.005) ==> (r * 100.0).Floor % 2 == 0
    ensures r == Round2(x)
  {
    var k := (r * 100.0).Floor;
    assert k as real - x * 100.0 == (r - x) * 100.0;
    RoundHalfEvenUnique(x * 100.0, k);
  }

  /** `sum(s)`, adding from the left. */
  function Sum(s: seq<real>): real {
    if s == [] then 0.0 else s[0] + Sum(s[1..])
  }

  lemma {:induction false} SumConcat(a: seq<real>, b: seq<real>)
    ensures Sum(a + b) == Sum(a) + Sum(b)
  {
    if a == [] {
      assert a + b == b;
    } else {
      assert (a + b)[1..] == a[1..] + b;
      SumConcat(a[1..], b);
    }
  }

  /** `sum` accumulates from the left: each sample is added to the total of
      the samples before it, which is the order `Sum` is defined in. */
  lemma SumAppend(s: seq<real>, x: real)
    ensures Sum(s + [x]) == Sum(s) + x
  {
    SumConcat(s, [x]);
    assert Sum([x]) == x + Sum([x][1..]);
  }

  /** Samples that all lie in `[lo, hi]` sum to between `|s| * lo` and `|s| * hi`. */
  lemma {:induction false} SumBounds(s: seq<real>, lo: real, hi: real)
    requires forall i :: 0 <= i < |s| ==> lo <= s[i] <= hi
    ensures |s| as real * lo <= Sum(s) <= |s| as real * hi
  {
    if s != [] {
      SumBounds(s[1..], lo, hi);
      assert |s| as real * lo == lo + (|s| - 1) as real * lo;
      assert |s| as real * hi == hi + (|s| - 1) as real * hi;
    }
  }

  /** `sum(s) / len(s)` for a non-empty list. */
  function Mean(s: seq<real>): (r: real)
    requires s != []
    ensures r * |s| as real == Sum(s)
  {
    Sum(s) / |s| as real
  }

  /** The mean of samples in `[lo, hi]` lies in `[lo, hi]`. */
  lemma MeanBounds(s: seq<real>, lo: real, hi: real)
    requires s != []
    requires forall i :: 0 <= i < |s| ==> lo <= s[i] <= hi
    ensures lo <= Mean(s) <= hi
  {
    SumBounds(s, lo, hi);
    var n := |s| as real;
    QuotientBounds(Sum(s), n, lo, hi);
  }

  lemma QuotientBounds(x: real, n: real, lo: real, hi: real)
    requires n > 0.0 && n * lo <= x <= n * hi
    ensures lo <= x / n <= hi
  {
  }
}
