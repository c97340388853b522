/** The two column statistics the cleaning stages use, over exact reals:
    the quantile with linear interpolation (pandas' default) and the mean.
    Both skip missing values; on a column with no value they are NaN,
    modelled as `None`. */
module Statistics {
  import opened DataFrame

  predicate Sorted(xs: seq<real>) {
    forall i, j :: 0 <= i < j < |xs| ==> xs[i] <= xs[j]
  }

  function Insert(x: real, xs: seq<real>): (r: seq<real>)
    requires Sorted(xs)
    ensures Sorted(r)
    ensures multiset(r) == multiset(xs) + multiset{x}
    ensures forall y :: y in r <==> y == x || y in xs
  {
    if xs == [] then [x]
    else if x <= xs[0] then [x] + xs
    else
      var rest := Insert(x, xs[1..]);
      assert xs == [xs[0]] + xs[1..];
      forall k | 0 <= k < |rest| ensures xs[0] <= rest[k] {
        assert rest[k] in rest;
      }
      [xs[0]] + rest
  }

  /** The values in ascending order. */
  function Sort(xs: seq<real>): (r: seq<real>)
    ensures Sorted(r)
    ensures multiset(r) == multiset(xs)
    ensures |r| == |xs|
  {
    if xs == [] then []
    else
      assert xs == [xs[0]] + xs[1..];
      Insert(xs[0], Sort(xs[1..]))
  }

  lemma {:induction false} SortOfSorted(xs: seq<real>)
    requires Sorted(xs)
    ensures Sort(xs) == xs
  {
    if xs != [] {
      SortOfSorted(xs[1..]);
      assert xs == [xs[0]] + xs[1..];
    }
  }

  lemma ProductNonNegative(x: real, y: real)
    requires 0.0 <= x && 0.0 <= y
    ensures 0.0 <= x * y
  {
  }

  lemma ScaleMonotone(m: real, p: real, q: real)
    requires 0.0 <= m && p <= q
    ensures m * p <= m * q
  {
    ProductNonNegative(m, q - p);
  }

  /** Dividing both sides of x * n <= y * n by a positive n. */
  lemma ProductOrder(x: real, y: real, n: real)
    requires n > 0.0
    ensures x * n <= y * n ==> x <= y
  {
    if x > y {
      ProductNonNegative(x - y, n);
      assert (x - y) * n > 0.0;
    }
  }

  /** The fractional position (n-1)q of the q-quantile lies on the sequence. */
  lemma PositionInRange(n: nat, q: real)
    requires n > 0 && 0.0 <= q <= 1.0
    ensures 0.0 <= (n - 1) as real * q <= (n - 1) as real
  {
    var m := (n - 1) as real;
    ProductNonNegative(m, q);
    ProductNonNegative(m, 1.0 - q);
  }

  /** The q-quantile of sorted values by linear interpolation: the value at
      fractional position (n-1)q, interpolated between its two neighbours. */
  function Quantile(xs: seq<real>, q: real): (v: real)
    requires Sorted(xs) && |xs| > 0 && 0.0 <= q <= 1.0
    ensures xs[0] <= v <= xs[|xs| - 1]
  {
    ValueAt(xs, Position(|xs|, q))
  }

  /** The fractional position (n-1)q of the q-quantile among n sorted values. */
  function Position(n: nat, q: real): (h: real)
    requires n > 0 && 0.0 <= q <= 1.0
    ensures 0.0 <= h <= (n - 1) as real
  {
    PositionInRange(n, q);
    (n - 1) as real * q
  }

  lemma PositionMonotone(n: nat, p: real, q: real)
    requires n > 0 && 0.0 <= p <= q <= 1.0
    ensures Position(n, p) <= Position(n, q)
  {
    ScaleMonotone((n - 1) as real, p, q);
  }

  /** The value at fractional position h of sorted values. */
  function ValueAt(xs: seq<real>, h: real): (v: real)
    requires Sorted(xs) && 0.0 <= h <= (|xs| - 1) as real
    ensures xs[0] <= xs[h.Floor] <= v <= xs[Above(|xs|, h)] <= xs[|xs| - 1]
  {
    Interpolate(xs[h.Floor], xs[Above(|xs|, h)], h - h.Floor as real)
  }

  /** The index after position h, clipped to the last one. */
  function Above(n: nat, h: real): (k: nat)
    requires 0.0 <= h <= (n - 1) as real
    ensures h.Floor <= k < n
  {
    if h.Floor + 1 < n then h.Floor + 1 else h.Floor
  }

  function Interpolate(a: real, b: real, g: real): (v: real)
    requires a <= b && 0.0 <= g < 1.0
    ensures a <= v <= b
  {
    ProductNonNegative(b - a, g);
    ProductNonNegative(b - a, 1.0 - g);
    a + (b - a) * g
  }

  lemma ValueAtMonotone(xs: seq<real>, h: real, h': real)
    requires Sorted(xs) && 0.0 <= h <= h' <= (|xs| - 1) as real
    ensures ValueAt(xs, h) <= ValueAt(xs, h')
  {
    if h.Floor == h'.Floor {
      var a, b := xs[h.Floor], xs[Above(|xs|, h)];
      ProductNonNegative(b - a, (h' - h'.Floor as real) - (h - h.Floor as real));
    } else {
      assert Above(|xs|, h) <= h'.Floor;
    }
  }

  /** A larger q never gives a smaller quantile; in particular Q1 <= Q3. */
  lemma QuantileMonotone(xs: seq<real>, p: real, q: real)
    requires Sorted(xs) && |xs| > 0 && 0.0 <= p <= q <= 1.0
    ensures Quantile(xs, p) <= Quantile(xs, q)
  {
    PositionMonotone(|xs|, p, q);
    ValueAtMonotone(xs, Position(|xs|, p), Position(|xs|, q));
  }

  function Sum(xs: seq<real>): real {
    if xs == [] then 0.0 else Sum(xs[..|xs| - 1]) + xs[|xs| - 1]
  }

  /** The arithmetic mean; `None` (NaN) exactly when there is no value. */
  function Mean(xs: seq<real>): (m: Option<real>)
    ensures m.Some? <==> |xs| > 0
  {
    if |xs| == 0 then None else Some(Sum(xs) / |xs| as real)
  }

  lemma {:induction false} SumBetween(xs: seq<real>, lo: real, hi: real)
    requires forall i :: 0 <= i < |xs| ==> lo <= xs[i] <= hi
    ensures |xs| as real * lo <= Sum(xs) <= |xs| as real * hi
  {
    if xs != [] {
      SumBetween(xs[..|xs| - 1], lo, hi);
    }
  }

  function Min(xs: seq<real>): (m: real)
    requires |xs| > 0
    ensures m in xs && forall i :: 0 <= i < |xs| ==> m <= xs[i]
  {
    if |xs| == 1 then xs[0]
    else
      var m := Min(xs[..|xs| - 1]);
      assert xs == xs[..|xs| - 1] + [xs[|xs| - 1]];
      if xs[|xs| - 1] < m then xs[|xs| - 1] else m
  }

  function Max(xs: seq<real>): (m: real)
    requires |xs| > 0
    ensures m in xs && forall i :: 0 <= i < |xs| ==> xs[i] <= m
  {
    if |xs| == 1 then xs[0]
    else
      var m := Max(xs[..|xs| - 1]);
      assert xs == xs[..|xs| - 1] + [xs[|xs| - 1]];
      if xs[|xs| - 1] > m then xs[|xs| - 1] else m
  }

  /** The mean of values that all lie in [lo, hi] lies in [lo, hi]. */
  lemma MeanBetween(xs: seq<real>, lo: real, hi: real)
    requires |xs| > 0
    requires forall i :: 0 <= i < |xs| ==> lo <= xs[i] <= hi
    ensures lo <= Mean(xs).value <= hi
  {
    SumBetween(xs, lo, hi);
    var n := |xs| as real;
    var m := Sum(xs) / n;
    assert m * n == Sum(xs);
    ProductOrder(lo, m, n);
    ProductOrder(m, hi, n);
  }
}
