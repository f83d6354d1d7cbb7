/**
 * Sums, extremes and means of price lists. Python computes `int(sum / len)`
 * in floating point; here the quotient is exact and `int()` is modelled as
 * truncation toward zero.
 */
module Stats {

  function Sum(s: seq<int>): int {
    if s == [] then 0 else s[0] + Sum(s[1..])
  }

  lemma {:induction false} SumConcat(a: seq<int>, b: seq<int>)
    ensures Sum(a + b) == Sum(a) + Sum(b)
  {
    if a == [] {
      assert a + b == b;
    } else {
      assert (a + b)[0] == a[0];
      assert (a + b)[1..] == a[1..] + b;
      SumConcat(a[1..], b);
    }
  }

  /** Python's `min` of a non-empty list. */
  function Min(s: seq<int>): (m: int)
    requires s != []
    ensures m in s
    ensures forall x :: x in s ==> m <= x
  {
    if |s| == 1 then s[0]
    else
      var rest := Min(s[1..]);
      assert s == [s[0]] + s[1..];
      if s[0] <= rest then s[0] else rest
  }

  /** Python's `max` of a non-empty list. */
  function Max(s: seq<int>): (m: int)
    requires s != []
    ensures m in s
    ensures forall x :: x in s ==> x <= m
  {
    if |s| == 1 then s[0]
    else
      var rest := Max(s[1..]);
      assert s == [s[0]] + s[1..];
      if s[0] >= rest then s[0] else rest
  }

  /** The exact quotient truncated toward zero. */
  function TruncDiv(a: int, b: int): int
    requires b > 0
  {
    if a >= 0 then a / b else -((-a) / b)
  }

  /**
   * Truncation toward zero: for `a >= 0` the largest `q >= 0` with
   * `q * b <= a`, for `a < 0` the smallest `q <= 0` with `a <= q * b`.
   */
  lemma TruncDivBounds(a: int, b: int)
    requires b > 0
    ensures a >= 0 ==> 0 <= TruncDiv(a, b) && TruncDiv(a, b) * b <= a < TruncDiv(a, b) * b + b
    ensures a < 0 ==> TruncDiv(a, b) <= 0 && TruncDiv(a, b) * b - b < a <= TruncDiv(a, b) * b
  {
    if a >= 0 {
      DivFloor(a, b);
    } else {
      DivFloor(-a, b);
      var m := (-a) / b;
      assert (-m) * b == -(m * b);
    }
  }

  lemma DivFloor(n: nat, d: int)
    requires d > 0
    ensures 0 <= n / d && (n / d) * d <= n < (n / d) * d + d
  {
    var q, r := n / d, n % d;
    assert n == q * d + r && 0 <= r < d;
    if q < 0 {
      assert q * d <= -d by { MulNegative(q, d); }
    }
  }

  lemma MulNegative(q: int, d: int)
    requires q < 0 && d > 0
    ensures q * d <= -d
  {
    var k: nat := -q - 1;
    assert q * d == -(k * d) - d;
    assert k * d >= 0;
  }

  /** The mean of a non-empty list, truncated toward zero. */
  function TruncatedMean(s: seq<int>): int
    requires s != []
  {
    TruncDiv(Sum(s), |s|)
  }

  lemma {:induction false} SumBounds(s: seq<int>, lo: int, hi: int)
    requires forall x :: x in s ==> lo <= x <= hi
    ensures |s| * lo <= Sum(s) <= |s| * hi
  {
    if s != [] {
      forall x | x in s[1..] ensures lo <= x <= hi {
        assert x in s;
      }
      SumBounds(s[1..], lo, hi);
      assert s[0] in s;
      assert |s| * lo == lo + (|s| - 1) * lo;
      assert |s| * hi == hi + (|s| - 1) * hi;
    }
  }

  lemma MulStrict(x: int, y: int, n: int)
    requires x < y && n > 0
    ensures x * n + n <= y * n
  {
    var d: nat := y - x - 1;
    var m: nat := n;
    assert d * m >= 0;
    assert y * n == x * n + (d + 1) * n;
    assert (d + 1) * n == d * m + n;
  }

  /** Cancelling a positive factor: `x * n < y * n + n` gives `x <= y`. */
  lemma MulCancel(x: int, y: int, n: int)
    requires n > 0 && x * n < y * n + n
    ensures x <= y
  {
    if x > y {
      MulStrict(y, x, n);
    }
  }

  /** The truncated mean lies between any lower and upper bound of the list. */
  lemma MeanBetween(s: seq<int>, lo: int, hi: int)
    requires s != []
    requires forall x :: x in s ==> lo <= x <= hi
    ensures lo <= TruncatedMean(s) <= hi
  {
    var n, q, total := |s|, TruncatedMean(s), Sum(s);
    TruncDivBounds(total, n);
    SumBounds(s, lo, hi);
    assert n * hi == hi * n && n * lo == lo * n;
    if total >= 0 {
      MulCancel(q, hi, n);
      MulCancel(lo, q, n);
    } else {
      MulCancel(q, hi, n);
      MulCancel(lo, q, n);
    }
  }

  /** The truncated mean lies between the smallest and the largest value. */
  lemma MeanWithinRange(s: seq<int>)
    requires s != []
    ensures Min(s) <= TruncatedMean(s) <= Max(s)
  {
    MeanBetween(s, Min(s), Max(s));
  }

  /** Comparing a quotient with a constant by cross-multiplying. */
  lemma QuotientCompare(x: int, d: int, k: int)
    requires d != 0
    ensures d > 0 ==> (x as real / d as real > k as real <==> x > k * d)
    ensures d > 0 ==> (x as real / d as real < k as real <==> x < k * d)
    ensures d < 0 ==> (x as real / d as real > k as real <==> x < k * d)
    ensures d < 0 ==> (x as real / d as real < k as real <==> x > k * d)
  {
    var q := x as real / d as real;
    assert q * d as real == x as real;
    assert (k * d) as real == k as real * d as real;
  }

  /** Truncation gives zero exactly for quotients strictly between -1 and 1. */
  lemma TruncDivZero(a: int, b: int)
    requires b > 0
    ensures TruncDiv(a, b) == 0 <==> -b < a < b
  {
    var q := TruncDiv(a, b);
    TruncDivBounds(a, b);
    if a >= b {
      MulCancel(1, q, b);
    } else if a <= -b {
      MulCancel(q, -1, b);
    }
  }
}
