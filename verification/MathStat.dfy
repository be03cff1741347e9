/** The running statistics of include/pj/math.h (the integer branch), and what they are worth. */
module MathStat {
  import opened Algebra
  import opened ISqrt

  /** C division and remainder: the quotient is cut towards zero. */
  function TDiv(a: int, b: int): int
    requires b > 0
  {
    if a >= 0 then a / b else -(-a / b)
  }

  function TMod(a: int, b: int): int
    requires b > 0
  {
    a - b * TDiv(a, b)
  }

  datatype Stat = Stat(n: int, max: int, min: int, last: int, mean: int, meanRes: int, m2: int)

  const Zero := Stat(0, 0, 0, 0, 0, 0, 0)

  /** The mean and its residue after a sample that differs from the mean by `delta`; n counts the sample. */
  function NewMean(mean: int, res: int, delta: int, n: int): (r: (int, int))
    requires n > 0
  {
    var m, t := mean + TDiv(delta, n), res + TMod(delta, n);
    if t >= n then (m + 1, t - n) else if t <= -n then (m - 1, t + n) else (m, t)
  }

  /** The state after one more sample. */
  function After(s: Stat, val: int): Stat
    requires s.n >= 0
  {
    var n, delta := s.n + 1, val - s.mean;
    var (mean, res) := NewMean(s.mean, s.meanRes, delta, n);
    Stat(n,
         if s.n == 0 || s.max < val then val else s.max,
         if s.n == 0 || s.min > val then val else s.min,
         val, mean, res, s.m2 + delta * (val - mean))
  }

  /** The state after the samples `xs`. */
  function Run(xs: seq<int>): (s: Stat)
    ensures s.n == |xs|
  {
    if xs == [] then Zero else After(Run(xs[..|xs| - 1]), xs[|xs| - 1])
  }

  /** The structure and its functions, field by field as the source updates them. */
  class MathStat {
    var n: int
    var max: int
    var min: int
    var last: int
    var mean: int
    var meanRes: int
    var m2: int

    function Value(): Stat
      reads this
    {
      Stat(n, max, min, last, mean, meanRes, m2)
    }

    constructor ()
      ensures Value() == Zero
    {
      n, max, min, last, mean, meanRes, m2 := 0, 0, 0, 0, 0, 0, 0;
    }

    method Update(val: int)
      requires n >= 0
      modifies this
      ensures Value() == After(old(Value()), val)
    {
      last := val;
      n := n + 1;
      if n - 1 != 0 {
        if min > val { min := val; }
        if max < val { max := val; }
      } else {
        min := val;
        max := val;
      }
      var delta := val - mean;
      mean := mean + TDiv(delta, n);
      meanRes := meanRes + TMod(delta, n);
      if meanRes >= n {
        mean := mean + 1;
        meanRes := meanRes - n;
      } else if meanRes <= -n {
        mean := mean - 1;
        meanRes := meanRes + n;
      }
      m2 := m2 + delta * (val - mean);
    }

    method SetStddev(dev: u32)
      requires n >= 0
      modifies this
      ensures Value() == WithStddev(old(Value()), dev)
    {
      if n == 0 { n := 1; }
      m2 := dev * dev % TWO32 * n % TWO32;
    }

    method GetStddev() returns (dev: u32)
      requires n >= 0
      ensures dev == Stddev(Value())
    {
      if n == 0 { return 0; }
      dev := Isqrt(TDiv(m2, n) % TWO32);
    }

    /** The setter and then the getter: the structure as a store for one deviation. */
    method StoreAndRead(dev: u32) returns (back: u32)
      requires 0 <= n < 0x8000_0000
      modifies this
      ensures back == dev <==> dev * dev * (if old(n) == 0 then 1 else old(n)) < TWO32
      ensures Value() == WithStddev(old(Value()), dev)
    {
      hide WithStddev, Stddev;
      StddevRoundTrip(Value(), dev);
      StoredCount(Value(), dev);
      SetStddev(dev);
      back := GetStddev();
    }
  }

  function Stddev(s: Stat): nat
    requires s.n >= 0
  {
    if s.n == 0 then 0 else Root(TDiv(s.m2, s.n) % TWO32)
  }

  lemma StoredCount(s: Stat, dev: u32)
    requires s.n >= 0
    ensures WithStddev(s, dev).n > 0
  {
  }

  /** `dev*dev*n` is computed in 32-bit unsigned arithmetic. */
  function WithStddev(s: Stat, dev: u32): Stat
    requires s.n >= 0
  {
    var n := if s.n == 0 then 1 else s.n;
    s.(n := n, m2 := dev * dev % TWO32 * n % TWO32)
  }

  // ---------------------------------------------------------------------------------------------
  // Mean, minimum, maximum
  // ---------------------------------------------------------------------------------------------

  ghost function Sum(xs: seq<int>): int {
    if xs == [] then 0 else Sum(xs[..|xs| - 1]) + xs[|xs| - 1]
  }

  lemma TDivBounds(a: int, b: int)
    requires b > 0
    ensures a >= 0 ==> 0 <= TMod(a, b) < b && 0 <= TDiv(a, b) && TDiv(a, b) + TMod(a, b) <= a
    ensures a <= 0 ==> -b < TMod(a, b) <= 0 && TDiv(a, b) <= 0 && a <= TDiv(a, b) + TMod(a, b)
  {
    if a >= 0 { QuotientBounds(a, b); } else { QuotientBounds(-a, b); }
    assert a < 0 ==> b * -(-a / b) == -(b * (-a / b));
  }

  /** What the state before the n-th sample satisfies. */
  predicate Residual(mean: int, res: int, n: int) {
    if n == 1 then mean == 0 && res == 0 else -(n - 1) < res < n - 1
  }

  /** n*mean + residue does not care how the quotient and the carry are split. */
  lemma NewMeanConserves(mean: int, res: int, delta: int, n: int)
    requires n > 0
    ensures var (m, r) := NewMean(mean, res, delta, n); n * m + r == n * mean + res + delta
  {
    hide TDiv;
    var q := TDiv(delta, n);
    assert n * (mean + q) == n * mean + n * q;
    assert n * (mean + q + 1) == n * mean + n * q + n;
    assert n * (mean + q - 1) == n * mean + n * q - n;
  }

  /** The residue stays below n and the new mean does not pass the sample. */
  lemma NewMeanSide(mean: int, res: int, delta: int, n: int)
    requires n > 0 && Residual(mean, res, n)
    ensures var (m, r) := NewMean(mean, res, delta, n);
            -n < r < n && (delta >= 0 ==> m <= mean + delta) && (delta <= 0 ==> m >= mean + delta)
  {
    hide TDiv, TMod;
    TDivBounds(delta, n);
  }

  /** One sample moves n*mean + residue by exactly its value, and the new mean does not pass the sample. */
  lemma MeanStep(mean: int, res: int, val: int, k: int, n: int)
    requires n == k + 1 && k >= 0 && Residual(mean, res, n)
    ensures var (m, r) := NewMean(mean, res, val - mean, n);
            && n * m + r == k * mean + res + val
            && -n < r < n
            && (val >= mean ==> m <= val) && (val <= mean ==> m >= val)
            && 0 <= (val - mean) * (val - m)
  {
    hide NewMean, Residual;
    NewMeanConserves(mean, res, val - mean, n);
    NewMeanSide(mean, res, val - mean, n);
    assert n * mean == k * mean + mean;
    SignProduct(val - mean, val - NewMean(mean, res, val - mean, n).0);
  }

  /** The quotient q and the remainder r of a division that cuts towards zero. */
  predicate Divides(delta: int, n: int, q: int, r: int)
    requires n > 0
  {
    delta == q * n + r && (if delta >= 0 then 0 <= r < n else -n < r <= 0)
  }

  lemma TDivIff(delta: int, n: int, q: int, r: int)
    requires n > 0
    ensures Divides(delta, n, q, r) <==> TDiv(delta, n) == q && TMod(delta, n) == r
  {
    TDivBounds(delta, n);
    var q', r' := TDiv(delta, n), TMod(delta, n);
    assert delta == q' * n + r' by { assert n * q' == q' * n; }
    if Divides(delta, n, q, r) { SameQuotient(n, q, r, q', r'); }
  }

  lemma SameQuotient(n: int, q: int, r: int, q': int, r': int)
    requires n > 0 && q * n + r == q' * n + r' && -n < r - r' < n
    ensures q == q' && r == r'
  {
    assert (q - q') * n == r' - r;
    if q > q' { MulMonoInt(1, q - q', n); }
    if q < q' { MulMonoInt(q - q', -1, n); }
  }

  /**
   Which mean is stored: with delta == q*n + r cut towards zero, the mean moves by exactly q if and only if
   the old residue plus r stays strictly between -n and n, by one more at n or above, by one less at -n or below.
   */
  lemma CarryIff(mean: int, res: int, delta: int, n: int, q: int, r: int)
    requires n > 0 && Divides(delta, n, q, r)
    ensures var (m, t) := NewMean(mean, res, delta, n);
            && (m == mean + q <==> -n < res + r < n)
            && (m == mean + q + 1 <==> n <= res + r)
            && (m == mean + q - 1 <==> res + r <= -n)
            && t == res + r - n * (m - mean - q)
  {
    hide TDiv, TMod, Divides;
    TDivIff(delta, n, q, r);
  }

  /** Without a division: a sample this close to the mean does not move it. */
  lemma MeanStays(mean: int, res: int, delta: int, n: int)
    requires n > 0 && -n < delta < n && -n < res + delta < n
    ensures NewMean(mean, res, delta, n) == (mean, res + delta)
  {
    CarryIff(mean, res, delta, n, 0, delta);
  }

  /** The same of a sample behind a run: mean, residue and m2 move as the quotient says. */
  lemma RunMoves(xs: seq<int>, x: int, q: int, r: int)
    requires Divides(x - Run(xs).mean, |xs| + 1, q, r)
    ensures var p, s, n := Run(xs), Run(xs + [x]), |xs| + 1;
            && s.n == n && s.last == x
            && (s.mean == p.mean + q <==> -n < p.meanRes + r < n)
            && (s.mean == p.mean + q + 1 <==> n <= p.meanRes + r)
            && (s.mean == p.mean + q - 1 <==> p.meanRes + r <= -n)
            && s.meanRes == p.meanRes + r - n * (s.mean - p.mean - q)
            && s.m2 == p.m2 + (x - p.mean) * (x - s.mean)
  {
    hide Run, After, Divides;
    RunStep(xs, x);
    AfterMoves(Run(xs), x, q, r);
  }

  lemma RunStep(xs: seq<int>, x: int)
    ensures Run(xs + [x]) == After(Run(xs), x)
  {
    hide After;
    assert (xs + [x])[..|xs|] == xs;
  }

  lemma AfterMoves(p: Stat, x: int, q: int, r: int)
    requires p.n >= 0 && Divides(x - p.mean, p.n + 1, q, r)
    ensures var s, n := After(p, x), p.n + 1;
            && s.n == n && s.last == x
            && (s.mean == p.mean + q <==> -n < p.meanRes + r < n)
            && (s.mean == p.mean + q + 1 <==> n <= p.meanRes + r)
            && (s.mean == p.mean + q - 1 <==> p.meanRes + r <= -n)
            && s.meanRes == p.meanRes + r - n * (s.mean - p.mean - q)
            && s.m2 == p.m2 + (x - p.mean) * (x - s.mean)
  {
    hide NewMean, Divides;
    CarryIff(p.mean, p.meanRes, x - p.mean, p.n + 1, q, r);
  }

  /** Two samples 10 and 11. */
  lemma TenEleven()
    ensures Run([10, 11]) == Stat(2, 11, 10, 11, 10, 1, 1)
  {
    hide NewMean;
    assert [] + [10] == [10] && [10] + [11] == [10, 11];
    assert [10][..0] == [] && [10, 11][..1] == [10];
    CarryIff(0, 0, 10, 1, 10, 0);
    CarryIff(10, 0, 1, 2, 0, 1);
  }

  /** Least and greatest sample. */
  ghost predicate Spans(xs: seq<int>, lo: int, hi: int) {
    && lo in xs && hi in xs
    && forall x <- xs :: lo <= x <= hi
  }

  lemma {:induction false} SumBounds(xs: seq<int>, lo: int, hi: int)
    requires forall x <- xs :: lo <= x <= hi
    ensures |xs| * lo <= Sum(xs) <= |xs| * hi
  {
    if xs != [] {
      var k := |xs| - 1;
      assert xs[k] in xs && forall x <- xs[..k] :: x in xs;
      SumBounds(xs[..k], lo, hi);
      BoundStep(k, |xs|, lo, hi, Sum(xs[..k]), xs[k]);
    }
  }

  lemma BoundStep(k: int, n: int, lo: int, hi: int, sum: int, x: int)
    requires n == k + 1 && k * lo <= sum <= k * hi && lo <= x <= hi
    ensures n * lo <= sum + x <= n * hi
  {
    assert n * lo == k * lo + lo && n * hi == k * hi + hi;
  }

  /** A truncated mean whose residue is below n lies between the extremes. */
  lemma MeanBetween(n: int, mean: int, res: int, sum: int, lo: int, hi: int)
    requires n > 0 && n * mean + res == sum && -n < res < n && n * lo <= sum <= n * hi
    ensures lo <= mean <= hi
  {
    assert n * (mean - lo + 1) == n * mean - n * lo + n > 0;
    assert n * (hi - mean + 1) == n * hi - n * mean + n > 0;
    SignOf(n, mean - lo + 1);
    SignOf(n, hi - mean + 1);
  }

  /** Over any run the mean and its residue account for the whole sum, and the extremes are exact. */
  lemma {:induction false} RunConserves(xs: seq<int>)
    ensures var s := Run(xs);
            && s.n * s.mean + s.meanRes == Sum(xs)
            && Residual(s.mean, s.meanRes, s.n + 1)
            && (xs != [] ==>
                  && -s.n < s.meanRes < s.n
                  && Spans(xs, s.min, s.max) && s.last == xs[|xs| - 1]
                  && s.min <= s.mean <= s.max)
  {
    if xs != [] {
      var k := |xs| - 1;
      var before, x := xs[..k], xs[k];
      RunConserves(before);
      assert xs == before + [x];
      RunConservesStep(before, x);
    }
  }

  lemma RunConservesStep(before: seq<int>, x: int)
    requires var p := Run(before);
             && p.n * p.mean + p.meanRes == Sum(before) && Residual(p.mean, p.meanRes, p.n + 1)
             && (before != [] ==> Spans(before, p.min, p.max))
    ensures var xs, s := before + [x], Run(before + [x]);
            && s.n * s.mean + s.meanRes == Sum(xs) && -s.n < s.meanRes < s.n
            && Spans(xs, s.min, s.max) && s.last == x && s.min <= s.mean <= s.max
  {
    hide NewMean, Spans;
    var xs := before + [x];
    assert xs[..|before|] == before;
    var p, s := Run(before), Run(xs);
    MeanStep(p.mean, p.meanRes, x, p.n, s.n);
    Extremes(before, x, p, s.min, s.max);
    SpannedSum(xs, s.min, s.max);
    MeanBetween(s.n, s.mean, s.meanRes, Sum(xs), s.min, s.max);
  }

  lemma RunMean(xs: seq<int>)
    ensures var s := Run(xs); s.n * s.mean + s.meanRes == Sum(xs)
  {
    RunConserves(xs);
  }

  lemma SpannedSum(xs: seq<int>, lo: int, hi: int)
    requires Spans(xs, lo, hi)
    ensures |xs| * lo <= Sum(xs) <= |xs| * hi
  {
    SumBounds(xs, lo, hi);
  }

  lemma Extremes(before: seq<int>, x: int, p: Stat, lo: int, hi: int)
    requires before != [] ==> Spans(before, p.min, p.max)
    requires lo == if before == [] || p.min > x then x else p.min
    requires hi == if before == [] || p.max < x then x else p.max
    ensures Spans(before + [x], lo, hi)
  {
    var xs := before + [x];
    assert xs[|before|] == x;
    assert forall y <- before :: y in xs;
    assert forall y <- xs :: y == x || y in before;
  }

  /** What an update adds to m2. */
  function Increment(mean: int, mean': int, val: int): int {
    (val - mean) * (val - mean')
  }

  predicate Int32(v: int) {
    -0x8000_0000 <= v < 0x8000_0000
  }

  /** Nothing the update from p to s computes overflows: the differences, the quotient, the residue, m2 and n. */
  ghost predicate StepFits(p: Stat, s: Stat, val: int)
    requires s.n > 0
  {
    var delta := val - p.mean;
    && Int32(s.n) && Int32(delta) && Int32(p.mean + TDiv(delta, s.n)) && Int32(p.meanRes + TMod(delta, s.n))
    && Int32(s.mean) && Int32(s.meanRes) && Int32(val - s.mean) && Int32(Increment(p.mean, s.mean, val))
    && 0 <= s.m2 < 0x8000_0000_0000_0000
  }

  /**
   Samples of moderate size and spread never overflow the 32-bit arithmetic of an update, nor the 64 bits of m2.
   */
  lemma UpdateFits(xs: seq<int>, val: int, lo: int, hi: int)
    requires forall x <- xs + [val] :: lo <= x <= hi
    requires -0x4000_0000 <= lo && hi < 0x4000_0000 && hi - lo <= 46340 && |xs| < 0x4000_0000
    ensures StepFits(Run(xs), Run(xs + [val]), val)
  {
    hide Bounded, StepFits, Run;
    var all := xs + [val];
    assert all[|xs|] == val && val in all && forall x <- xs :: x in all;
    MeanBounded(all, lo, hi);
    MeanBounded(xs, lo, hi);
    assert xs == [] ==> all == [val];
    assert lo <= val <= hi;
    M2Grows(xs, val);
    M2Bounded(all, lo, hi);
    FitsBetween(xs, all, val, lo, hi);
  }

  /** Each sample adds less than 2^31. */
  lemma {:induction false} M2Bounded(xs: seq<int>, lo: int, hi: int)
    requires forall x <- xs :: lo <= x <= hi
    requires -0x4000_0000 <= lo && hi < 0x4000_0000 && hi - lo <= 46340 && |xs| <= 0x4000_0000
    ensures Run(xs).m2 <= |xs| * 0x8000_0000
    decreases |xs|
  {
    if xs != [] {
      hide Bounded, Increment, NewMean;
      var k := |xs| - 1;
      var before, x := xs[..k], xs[k];
      assert x in xs && forall y <- before :: y in xs;
      assert before == [] ==> xs == [x];
      M2Bounded(before, lo, hi);
      MeanBounded(xs, lo, hi);
      MeanBounded(before, lo, hi);
      StepIncrement(before, xs, x, lo, hi);
      M2Step(before, x, xs);
    }
  }

  lemma M2Step(before: seq<int>, x: int, xs: seq<int>)
    requires xs == before + [x]
    ensures Run(xs).m2 == Run(before).m2 + Increment(Run(before).mean, Run(xs).mean, x)
  {
    hide NewMean;
    assert xs[..|before|] == before;
  }

  ghost predicate Bounded(xs: seq<int>, lo: int, hi: int) {
    if xs == [] then Run(xs) == Zero else lo <= Run(xs).mean <= hi && -|xs| < Run(xs).meanRes < |xs|
  }

  lemma MeanBounded(xs: seq<int>, lo: int, hi: int)
    requires forall x <- xs :: lo <= x <= hi
    ensures Bounded(xs, lo, hi)
  {
    RunConserves(xs);
  }

  lemma StepIncrement(xs: seq<int>, all: seq<int>, val: int, lo: int, hi: int)
    requires -0x4000_0000 <= lo <= val <= hi < 0x4000_0000 && hi - lo <= 46340
    requires Bounded(xs, lo, hi) && Bounded(all, lo, hi) && all != [] && (xs == [] ==> all == [val])
    ensures Int32(Increment(Run(xs).mean, Run(all).mean, val))
  {
    hide Run, SquaredDeviationsN, Increment;
    var p, s := Run(xs), Run(all);
    if xs == [] {
      FirstSample(val);
      NoIncrement(val);
    } else {
      IncrementFits(p.mean, s.mean, val);
    }
  }

  lemma FitsBetween(xs: seq<int>, all: seq<int>, val: int, lo: int, hi: int)
    requires -0x4000_0000 <= lo <= val <= hi < 0x4000_0000 && hi - lo <= 46340 && |all| == |xs| + 1 <= 0x4000_0000
    requires Bounded(xs, lo, hi) && Bounded(all, lo, hi) && (xs == [] ==> all == [val])
    requires 0 <= Run(all).m2 <= |all| * 0x8000_0000
    ensures StepFits(Run(xs), Run(all), val)
  {
    hide NewMean, TDiv, TMod, Run, SquaredDeviationsN, Increment;
    var p, s := Run(xs), Run(all);
    StepIncrement(xs, all, val, lo, hi);
    if xs == [] { FirstSample(val); }
    QuotientFits(p.mean, p.meanRes, val - p.mean, s.n);
  }

  lemma QuotientFits(mean: int, res: int, delta: int, n: int)
    requires 0 < n <= 0x4000_0000 && Near(res, n) && Near(mean, 0x4000_0000)
    requires Near(delta, 46340) || (mean == 0 && Near(delta, 0x4000_0000))
    ensures Int32(mean + TDiv(delta, n)) && Int32(res + TMod(delta, n))
  {
    hide TDiv, TMod;
    TDivBounds(delta, n);
  }

  lemma IncrementFits(mean: int, mean': int, val: int)
    requires Near(val - mean, 46340) && Near(val - mean', 46340)
    ensures Int32(Increment(mean, mean', val))
  {
    NearProduct(val - mean, val - mean', 46340, 46340);
  }

  lemma NoIncrement(val: int)
    ensures Increment(0, val, val) == 0
  {
  }

  // ---------------------------------------------------------------------------------------------
  // Deviation
  // ---------------------------------------------------------------------------------------------

  function Square(a: int): int { a * a }

  /** n times the sum of squared deviations, from the number, the sum of squares and the sum. */
  function Spread(n: int, squares: int, sum: int): int {
    n * squares - sum * sum
  }

  /** k times the distance of x from the mean of k samples with this sum. */
  function Gap(k: int, x: int, sum: int): int {
    k * x - sum
  }

  function Width(n: int, d: int): int {
    n * (n - 1) * d
  }

  ghost function Squares(xs: seq<int>): int {
    if xs == [] then 0 else Squares(xs[..|xs| - 1]) + Square(xs[|xs| - 1])
  }

  /** The sum of (n*x - sum)^2 over the samples x. */
  ghost function ScaledSquares(xs: seq<int>, n: int, sum: int): int {
    if xs == [] then 0
    else ScaledSquares(xs[..|xs| - 1], n, sum) + Square(Gap(n, xs[|xs| - 1], sum))
  }

  /** n*n times the exact sum of squared deviations from the exact mean sum/n. */
  ghost function SquaredDeviationsN2(xs: seq<int>): int {
    ScaledSquares(xs, |xs|, Sum(xs))
  }

  /** n times the exact sum of squared deviations. */
  ghost function SquaredDeviationsN(xs: seq<int>): int {
    Spread(|xs|, Squares(xs), Sum(xs))
  }

  function Expanded(n: int, sum: int, squares: int, part: int, k: int): int {
    n * n * squares - 2 * n * sum * part + k * (sum * sum)
  }

  lemma ExpandStep(n: int, sum: int, x: int, squares: int, part: int, k: int)
    ensures Expanded(n, sum, squares, part, k) + Square(Gap(n, x, sum))
            == Expanded(n, sum, squares + Square(x), part + x, k + 1)
  {
    assert (n * x - sum) * (n * x - sum) == n * n * (x * x) - 2 * n * sum * x + sum * sum;
  }

  lemma ExpandWhole(n: int, squares: int, sum: int)
    ensures Expanded(n, sum, squares, sum, n) == n * Spread(n, squares, sum)
  {
    assert n * (n * squares - sum * sum) == n * n * squares - n * (sum * sum);
    assert 2 * n * sum * sum == 2 * (n * (sum * sum));
  }

  lemma {:induction false} ScaledSquaresExpand(xs: seq<int>, n: int, sum: int)
    ensures ScaledSquares(xs, n, sum) == Expanded(n, sum, Squares(xs), Sum(xs), |xs|)
  {
    if xs == [] {
      assert n * n * 0 == 0 && 2 * n * sum * 0 == 0 && 0 * (sum * sum) == 0;
    } else {
      hide Expanded, Square, Gap;
      var k := |xs| - 1;
      ScaledSquaresExpand(xs[..k], n, sum);
      ExpandStep(n, sum, xs[k], Squares(xs[..k]), Sum(xs[..k]), k);
    }
  }

  lemma DeviationsScale(xs: seq<int>)
    ensures SquaredDeviationsN2(xs) == |xs| * SquaredDeviationsN(xs)
  {
    hide Expanded, Spread;
    ScaledSquaresExpand(xs, |xs|, Sum(xs));
    ExpandWhole(|xs|, Squares(xs), Sum(xs));
  }

  lemma Appended(before: seq<int>, x: int)
    ensures Sum(before + [x]) == Sum(before) + x
    ensures Squares(before + [x]) == Squares(before) + Square(x)
  {
    assert (before + [x])[..|before|] == before;
  }

  /** Welford's exact recurrence, free of fractions. */
  lemma ExactStep(before: seq<int>, x: int)
    ensures var k := |before|;
            k * SquaredDeviationsN(before + [x])
            == |before + [x]| * SquaredDeviationsN(before) + Square(Gap(k, x, Sum(before)))
  {
    hide Spread, Square, Gap, Sum, Squares;
    Appended(before, x);
    ExactStepAlgebra(|before|, |before + [x]|, Squares(before), Sum(before), x);
  }

  lemma ExactStepAlgebra(k: int, n: int, q: int, t: int, x: int)
    requires n == k + 1
    ensures k * Spread(n, q + Square(x), t + x) == n * Spread(k, q, t) + Square(Gap(k, x, t))
  {
    assert Square(t + x) == t * t + 2 * (t * x) + x * x;
    assert Square(Gap(k, x, t)) == k * k * (x * x) - 2 * k * (t * x) + t * t;
  }

  /** k*n*(u*v): the increment of m2 with both denominators cleared. */
  function Cleared(k: int, n: int, u: int, v: int): int {
    k * n * (u * v)
  }

  lemma ClearedIdentity(k: int, n: int, u: int, v: int, y: int)
    ensures Cleared(k, n, u, v) - Square(y) == n * v * (k * u - y) + y * (n * v - y)
  {
  }

  lemma WidthIs(k: int, n: int, d: int)
    requires n == k + 1
    ensures n * d * k == Width(n, d) && k * d * n == Width(n, d)
  {
  }

  /** How far k*n*u*v is from y*y when k*u and n*v both approximate y. */
  lemma StepError(k: nat, n: nat, u: int, v: int, y: int, r: int, r': int, d: nat)
    requires n == k + 1 && k * u == y + r && n * v == y + r'
    requires Near(r, k) && Near(r', n) && Near(v, d) && Near(y, k * d)
    ensures Near(Cleared(k, n, u, v) - Square(y), 2 * Width(n, d))
  {
    hide Cleared, Square, Width;
    ClearedIdentity(k, n, u, v, y);
    assert k * u - y == r && n * v - y == r';
    NearProduct(n, v, n, d);
    NearProduct(n * v, r, n * d, k);
    NearProduct(y, r', k * d, n);
    WidthIs(k, n, d);
  }

  lemma ErrorIdentity(k: int, n: int, m2: int, u: int, v: int, dev: int)
    ensures k * (n * (m2 + u * v)) == n * (k * m2 - dev) + n * dev + Cleared(k, n, u, v)
  {
  }

  lemma WidthStep(k: int, n: int, d: int)
    requires n == k + 1
    ensures n * (2 * Width(k, d)) + 2 * Width(n, d) == k * (2 * Width(n, d))
  {
  }

  /** From the error after k samples and the error of one step to the error after n = k + 1. */
  lemma ErrorStep(k: nat, n: nat, m2: int, u: int, v: int, dev: int, dev': int, y2: int, d: nat)
    requires k > 0 && n == k + 1 && k * dev' == n * dev + y2
    requires Near(k * m2 - dev, 2 * Width(k, d))
    requires Near(Cleared(k, n, u, v) - y2, 2 * Width(n, d))
    ensures Near(n * (m2 + u * v) - dev', 2 * Width(n, d))
  {
    hide Width, Cleared;
    var e, e' := k * m2 - dev, n * (m2 + u * v) - dev';
    ErrorIdentity(k, n, m2, u, v, dev);
    assert k * e' == k * (n * (m2 + u * v)) - k * dev';
    assert k * e' == n * e + (Cleared(k, n, u, v) - y2);
    NearProduct(n, e, n, 2 * Width(k, d));
    WidthStep(k, n, d);
    NearCancel(k, e', 2 * Width(n, d));
  }

  /** m2 never decreases and never goes negative. */
  lemma {:induction false} M2Grows(xs: seq<int>, val: int)
    ensures 0 <= Run(xs).m2 <= Run(xs + [val]).m2
    decreases |xs|
  {
    var s := Run(xs);
    hide NewMean, Sum, Spans;
    assert (xs + [val])[..|xs|] == xs;
    RunConserves(xs);
    MeanStep(s.mean, s.meanRes, val, s.n, s.n + 1);
    if xs != [] {
      var k := |xs| - 1;
      M2Grows(xs[..k], xs[k]);
      assert xs[..k] + [xs[k]] == xs;
    }
  }

  lemma {:induction false} WelfordBoundN(xs: seq<int>)
    requires xs != []
    ensures var s := Run(xs);
            Near(s.n * s.m2 - SquaredDeviationsN(xs), 2 * Width(s.n, s.max - s.min))
    decreases |xs|
  {
    var k := |xs| - 1;
    var before, x := xs[..k], xs[k];
    assert xs == before + [x];
    if before == [] {
      FirstSample(x);
    } else {
      WelfordBoundN(before);
      WelfordStep(before, x);
    }
  }

  lemma GapNear(k: nat, x: int, sum: int, lo: int, hi: int)
    requires lo <= x <= hi && k * lo <= sum <= k * hi
    ensures Near(Gap(k, x, sum), k * (hi - lo))
  {
    MulMono(0, x - lo, k);
    MulMono(0, hi - x, k);
    assert k * (hi - lo) == k * hi - k * lo;
    assert k * (x - lo) == k * x - k * lo && k * (hi - x) == k * hi - k * x;
  }

  lemma WidthMono(k: nat, d: nat, d': nat)
    requires d <= d' && k > 0
    ensures Width(k, d) <= Width(k, d')
  {
    MulMono(d, d', k * (k - 1));
  }

  lemma WelfordStep(before: seq<int>, x: int)
    requires before != []
    requires var s := Run(before);
             Near(s.n * s.m2 - SquaredDeviationsN(before), 2 * Width(s.n, s.max - s.min))
    ensures var s := Run(before + [x]);
            Near(s.n * s.m2 - SquaredDeviationsN(before + [x]), 2 * Width(s.n, s.max - s.min))
  {
    hide SquaredDeviationsN, NewMean, Width, Gap, Square, Cleared, Sum;
    var xs, k := before + [x], |before|;
    var p, s := Run(before), Run(xs);
    assert xs[..k] == before && xs[k] == x;
    RunConserves(before);
    RunConserves(xs);
    ExactStep(before, x);
    assert p.min in xs && p.max in xs by { assert forall z <- before :: z in xs; }
    var d: nat := s.max - s.min;
    var u, v, y := x - p.mean, x - s.mean, Gap(k, x, Sum(before));
    Residues(before, x);
    SumBounds(before, s.min, s.max);
    GapNear(k, x, Sum(before), s.min, s.max);
    StepError(k, s.n, u, v, y, p.meanRes, s.meanRes, d);
    WidthMono(k, p.max - p.min, d);
    ErrorStep(k, s.n, p.m2, u, v, SquaredDeviationsN(before), SquaredDeviationsN(xs), Square(y), d);
  }

  /** n times the distance of x from the stored mean. */
  function Seen(s: Stat, x: int): int {
    s.n * (x - s.mean)
  }

  /** The means before and after a sample, seen from the sample. */
  lemma Residues(before: seq<int>, x: int)
    ensures var p, s, y := Run(before), Run(before + [x]), Gap(|before|, x, Sum(before));
            Seen(p, x) == y + p.meanRes && Seen(s, x) == y + s.meanRes
  {
    hide Run, Gap, Seen, Sum;
    var xs := before + [x];
    Appended(before, x);
    SeenFrom(before, x);
    SeenFrom(xs, x);
    SameGap(|before|, |xs|, x, Sum(before));
  }

  lemma SeenFrom(xs: seq<int>, x: int)
    ensures var s := Run(xs); Seen(s, x) == Gap(s.n, x, Sum(xs)) + s.meanRes
  {
    hide Run, Sum;
    RunMean(xs);
    SeenAlgebra(Run(xs), x, Sum(xs));
  }

  lemma SeenAlgebra(s: Stat, x: int, sum: int)
    requires s.n * s.mean + s.meanRes == sum
    ensures Seen(s, x) == Gap(s.n, x, sum) + s.meanRes
  {
  }

  lemma SameGap(k: int, n: int, x: int, sum: int)
    requires n == k + 1
    ensures Gap(n, x, sum + x) == Gap(k, x, sum)
  {
  }

  lemma FirstSample(x: int)
    ensures SquaredDeviationsN([x]) == 0 && Run([x]).m2 == 0 && Run([]) == Zero && Run([x]).mean == x
  {
    hide TDiv, TMod;
    var xs := [x];
    assert xs[..0] == [];
    MeanStep(0, 0, x, 0, 1);
    assert Sum(xs) == Sum(xs[..0]) + x == x;
    assert Squares(xs) == Squares(xs[..0]) + x * x == x * x;
  }

  /**
   m2 is within 2*(n-1)*(max-min) of the exact sum of squared deviations from the exact mean; both sides
   are multiplied by n*n, which makes every quantity an integer.
   */
  lemma WelfordBound(xs: seq<int>)
    requires xs != []
    ensures var s := Run(xs);
            var bound := 2 * (s.n - 1) * (s.max - s.min);
            Near(s.n * s.n * s.m2 - SquaredDeviationsN2(xs), s.n * s.n * bound)
  {
    hide SquaredDeviationsN, SquaredDeviationsN2, Run, Width;
    var s := Run(xs);
    var n, dev, d := s.n, SquaredDeviationsN(xs), s.max - s.min;
    WelfordBoundN(xs);
    DeviationsScale(xs);
    NearProduct(n, n * s.m2 - dev, n, 2 * Width(n, d));
    ScaleIdentity(n, s.m2, dev, d);
  }

  lemma ScaleIdentity(n: int, m2: int, dev: int, d: int)
    ensures n * (n * m2 - dev) == n * n * m2 - n * dev
    ensures n * (2 * Width(n, d)) == n * n * (2 * (n - 1) * d)
  {
    assert n * (n * (n - 1) * d) == n * n * ((n - 1) * d);
  }

  /** If no division of the run leaves a residue, m2 is the sum of squared deviations itself. */
  lemma {:induction false} WelfordExact(xs: seq<int>)
    requires xs != [] && forall k :: 0 < k <= |xs| ==> Run(xs[..k]).meanRes == 0
    ensures Run(xs).n * Run(xs).m2 == SquaredDeviationsN(xs)
    decreases |xs|
  {
    var k := |xs| - 1;
    var before, x := xs[..k], xs[k];
    assert xs[..|xs|] == xs && xs == before + [x];
    if before == [] {
      FirstSample(x);
    } else {
      assert before[..k] == before;
      assert forall j :: 0 < j <= k ==> before[..j] == xs[..j];
      WelfordExact(before);
      ExactWithoutResidue(before, x, xs);
    }
  }

  lemma ExactWithoutResidue(before: seq<int>, x: int, xs: seq<int>)
    requires before != [] && xs == before + [x] && Run(before).meanRes == 0 && Run(xs).meanRes == 0
    requires Run(before).n * Run(before).m2 == SquaredDeviationsN(before)
    ensures Run(xs).n * Run(xs).m2 == SquaredDeviationsN(xs)
  {
    hide SquaredDeviationsN, NewMean, Gap, Square, Cleared, Sum, Run;
    var p, s, k := Run(before), Run(xs), |before|;
    var u, v, y := x - p.mean, x - s.mean, Gap(k, x, Sum(before));
    ExactStep(before, x);
    Residues(before, x);
    M2Step(before, x, xs);
    ExactAlgebra(k, s.n, p.m2, u, v, y, SquaredDeviationsN(before), SquaredDeviationsN(xs));
  }

  lemma ExactAlgebra(k: nat, n: nat, m2: int, u: int, v: int, y: int, dev: int, dev': int)
    requires k > 0 && k * u == y && n * v == y && k * m2 == dev && k * dev' == n * dev + Square(y)
    ensures n * (m2 + u * v) == dev'
  {
    hide Cleared, Square;
    ErrorIdentity(k, n, m2, u, v, dev);
    ClearedIdentity(k, n, u, v, y);
    SameFactor(k, n * (m2 + u * v), dev');
  }

  lemma SameFactor(k: nat, a: int, b: int)
    requires k > 0 && k * a == k * b
    ensures a == b
  {
    assert k * (a - b) == 0;
    if a > b { MulMonoInt(1, a - b, k); }
    if a < b { MulMonoInt(1, b - a, k); }
  }

  // ---------------------------------------------------------------------------------------------
  // Reading the standard deviation of samples
  // ---------------------------------------------------------------------------------------------

  /** dev is the root of m2/n, or one more where m2/n is one below a square. */
  ghost predicate ReadsRoot(n: int, m2: int, dev: int) {
    n * (dev * dev) <= m2 + n && m2 < n * ((dev + 1) * (dev + 1))
  }

  /** What is read after samples, if m2/n fits the 32 bits of the cast. */
  lemma StddevOfRun(xs: seq<int>)
    requires xs != [] && Run(xs).m2 < TWO32 * |xs|
    ensures ReadsRoot(|xs|, Run(xs).m2, Stddev(Run(xs)))
  {
    hide Root, Run, ReadsRoot;
    var n, m2 := |xs|, Run(xs).m2;
    var before, x := xs[..n - 1], xs[n - 1];
    assert before + [x] == xs;
    M2Grows(before, x);
    RootReads(n, m2);
  }

  lemma RootReads(n: nat, m2: nat)
    requires 0 < n && m2 < TWO32 * n
    ensures 0 <= m2 / n < TWO32 && ReadsRoot(n, m2, Root(m2 / n % TWO32))
  {
    hide Root, ReadsRoot;
    var i := m2 / n;
    DivBounds(m2, n);
    CancelLess(i, TWO32, n);
    ModSmall(i);
    Regroup(n, i, 0);
    RootReadsAt(n, m2, i);
  }

  lemma RootReadsAt(n: nat, m2: nat, i: nat)
    requires n * i <= m2 < n * i + n
    ensures ReadsRoot(n, m2, Root(i))
  {
    hide Root, ReadsRoot;
    RootBounds(i);
    Regroup(n, i, Root(i));
    MulMono(Root(i) * Root(i), i + 1, n);
    MulMono(i + 1, (Root(i) + 1) * (Root(i) + 1), n);
    ReadsFrom(n, m2, i, Root(i));
  }

  lemma ModSmall(i: nat)
    requires i < TWO32
    ensures i % TWO32 == i
  {
  }

  lemma ReadsFrom(n: nat, m2: nat, i: nat, dev: nat)
    requires n * i <= m2 < n * i + n && n * (dev * dev) <= n * i + n <= n * ((dev + 1) * (dev + 1))
    ensures ReadsRoot(n, m2, dev)
  {
  }

  lemma Regroup(n: nat, i: nat, dev: nat)
    ensures dev * dev * n == n * (dev * dev) && (i + 1) * n == n * i + n
    ensures (dev + 1) * (dev + 1) * n == n * ((dev + 1) * (dev + 1))
  {
  }

  /** What is read against the exact sum of squared deviations; both sides are multiplied by n*n. */
  lemma StddevNearExact(xs: seq<int>)
    requires xs != [] && Run(xs).m2 < TWO32 * |xs|
    ensures var s, dev, n := Run(xs), Stddev(Run(xs)), |xs|;
            var bound := 2 * (n - 1) * (s.max - s.min);
            && n * n * (n * (dev * dev)) <= SquaredDeviationsN2(xs) + n * n * (n + bound)
            && SquaredDeviationsN2(xs) < n * n * (n * ((dev + 1) * (dev + 1)) + bound)
  {
    hide SquaredDeviationsN2, Run, Stddev;
    var s, dev, n := Run(xs), Stddev(Run(xs)), |xs|;
    var bound := 2 * (n - 1) * (s.max - s.min);
    StddevOfRun(xs);
    WelfordBound(xs);
    NearBounds(n, s.m2, SquaredDeviationsN2(xs), bound, n * (dev * dev), n * ((dev + 1) * (dev + 1)));
  }

  lemma NearBounds(n: nat, m2: int, exact: int, bound: int, low: int, high: int)
    requires n > 0 && Near(n * n * m2 - exact, n * n * bound) && low <= m2 + n && m2 < high
    ensures n * n * low <= exact + n * n * (n + bound) && exact < n * n * (high + bound)
  {
    var f := n * n;
    PositiveSquare(n);
    MulMonoInt(low, m2 + n, f);
    MulMonoInt(m2 + 1, high, f);
    assert low * f == f * low && (m2 + n) * f == f * m2 + f * n && f * (n + bound) == f * n + f * bound;
    assert (m2 + 1) * f == f * m2 + f && high * f == f * high && f * (high + bound) == f * high + f * bound;
  }

  /** Samples that overflow nothing are among those. */
  lemma ReadableRun(xs: seq<int>, lo: int, hi: int)
    requires xs != [] && forall x <- xs :: lo <= x <= hi
    requires -0x4000_0000 <= lo && hi < 0x4000_0000 && hi - lo <= 46340 && |xs| <= 0x4000_0000
    ensures Run(xs).m2 < TWO32 * |xs|
  {
    hide Run;
    M2Bounded(xs, lo, hi);
  }

  /** Samples into a fresh structure, and then the deviation. */
  method Observe(stat: MathStat, xs: seq<int>) returns (dev: u32)
    requires stat.Value() == Zero
    modifies stat
    ensures stat.Value() == Run(xs)
    ensures xs == [] ==> dev == 0
    ensures xs != [] && Run(xs).m2 < TWO32 * |xs| ==> ReadsRoot(|xs|, Run(xs).m2, dev)
  {
    hide NewMean, ReadsRoot, Stddev;
    for i := 0 to |xs|
      invariant stat.Value() == Run(xs[..i])
    {
      assert xs[..i + 1][..i] == xs[..i];
      stat.Update(xs[i]);
    }
    assert xs[..|xs|] == xs;
    dev := stat.GetStddev();
    if xs == [] { EmptyReads(); } else if Run(xs).m2 < TWO32 * |xs| { StddevOfRun(xs); }
  }

  lemma EmptyReads()
    ensures Stddev(Zero) == 0
  {
  }

  // ---------------------------------------------------------------------------------------------
  // Storing a standard deviation
  // ---------------------------------------------------------------------------------------------

  /** A stored deviation is read back unchanged exactly when its square times n fits 32 bits. */
  lemma StddevRoundTrip(s: Stat, dev: u32)
    requires 0 <= s.n < 0x8000_0000
    ensures var n := if s.n == 0 then 1 else s.n;
            Stddev(WithStddev(s, dev)) == dev <==> dev * dev * n < TWO32
  {
    hide Root;
    var n := if s.n == 0 then 1 else s.n;
    var stored := dev * dev * n % TWO32;
    ModTwice(dev * dev, n);
    SmallQuotient(stored, n);
    ReadBackIff(dev, dev * dev, n, stored);
  }

  lemma ReadBackIff(dev: u32, square: nat, n: nat, stored: nat)
    requires 0 < n < 0x8000_0000 && square == dev * dev && stored == square * n % TWO32
    ensures 0 <= stored / n && (Root(stored / n) == dev <==> square * n < TWO32)
  {
    hide Root;
    WrapLoses(square * n);
    if square * n < TWO32 {
      DivShift(0, n, square);
      RootOfSquare(dev);
    } else {
      WrappedQuotient(stored, square, n);
      SmallerRoot(dev, stored / n);
    }
  }

  lemma WrapLoses(x: nat)
    ensures if x < TWO32 then x % TWO32 == x else x % TWO32 + TWO32 <= x
  {
  }

  lemma SmallerRoot(dev: nat, i: nat)
    requires i + 2 <= dev * dev
    ensures Root(i) != dev
  {
    hide Root;
    RootBounds(i);
  }

  /** What is stored: the rest of dev*dev*n modulo 2^32, with n at least 1, and nothing else. */
  lemma StoredIs(s: Stat, dev: u32)
    requires s.n >= 0
    ensures var t := WithStddev(s, dev);
            && t == s.(n := t.n, m2 := t.m2) && t.n == (if s.n == 0 then 1 else s.n)
            && 0 <= t.m2 < TWO32 && exists wraps: int :: Wrapped(dev * dev * t.n, t.m2, wraps)
  {
    var n := if s.n == 0 then 1 else s.n;
    ModTwice(dev * dev, n);
    assert Wrapped(dev * dev * n, dev * dev * n % TWO32, dev * dev * n / TWO32);
  }

  predicate Wrapped(exact: int, stored: int, wraps: int) {
    exact == stored + wraps * TWO32
  }

  /** The smallest deviation that an empty structure does not give back; it comes back as 0. */
  lemma LostDeviation()
    ensures Stddev(WithStddev(Zero, 65536)) == 0
    ensures forall dev: u32 :: dev < 65536 ==> Stddev(WithStddev(Zero, dev)) == dev
  {
    hide Root, TDiv;
    RootOfSquare(0);
    ZeroQuotient();
    forall dev: u32 | dev < 65536
      ensures Stddev(WithStddev(Zero, dev)) == dev
    {
      StddevRoundTrip(Zero, dev);
      MulMono(dev, 65535, dev);
    }
  }

  lemma ZeroQuotient()
    ensures 65536 * 65536 % TWO32 == 0 && TDiv(0, 1) == 0
  {
  }

  lemma ModTwice(a: nat, n: nat)
    ensures a % TWO32 * n % TWO32 == a * n % TWO32
  {
    var k := a / TWO32;
    assert a * n == a % TWO32 * n + TWO32 * (k * n);
  }

  lemma SmallQuotient(stored: nat, n: nat)
    requires stored < TWO32 && n > 0
    ensures 0 <= stored / n < TWO32 && stored / n % TWO32 == stored / n
  {
    QuotientBounds(stored, n);
  }

  /** If the product wrapped, what is read back is below the square by at least two. */
  lemma WrappedQuotient(stored: nat, square: nat, n: nat)
    requires stored + TWO32 <= square * n && 0 < n < 0x8000_0000
    ensures 0 <= stored / n && stored / n + 2 <= square
  {
    MulMono(square, 1, n);
    assert (square - 1) * n == square * n - n;
    DivAtMost(stored, n, square - 2);
  }

  lemma RootOfSquare(dev: nat)
    ensures Root(dev * dev) == dev
  {
    hide Root;
    var r := Root(dev * dev);
    RootBounds(dev * dev);
    if dev == 0 {
      GuessZero();
    } else {
      RootMono(dev * dev, dev, dev * dev, r);
      RootMono(r * r, r, dev * dev + 1, dev);
    }
  }
}
