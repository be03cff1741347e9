/** Facts about products and quotients of integers that the solver does not find by itself. */
module Algebra {

  function Pow2(k: nat): (p: nat)
    ensures p >= 1
  {
    if k == 0 then 1 else 2 * Pow2(k - 1)
  }

  lemma DivBounds(i: nat, x: nat)
    requires x > 0
    ensures i / x * x <= i < i / x * x + x
  {
  }

  lemma MulMono(a: nat, b: nat, x: nat)
    ensures a <= b ==> a * x <= b * x
  {
  }

  lemma SquareMono(a: nat, b: nat)
    ensures a <= b ==> a * a <= b * b
  {
    MulMono(a, b, a);
    MulMono(a, b, b);
  }

  lemma PositiveSquare(a: nat)
    ensures a > 0 ==> a * a >= 1
  {
    SquareMono(1, a);
  }

  lemma CancelLess(a: int, b: int, x: nat)
    requires a * x < b * x
    ensures a < b
  {
    MulMonoInt(b, a, x);
  }

  lemma MulMonoInt(a: int, b: int, x: nat)
    ensures a <= b ==> a * x <= b * x
  {
  }

  lemma DivAtLeast(i: nat, x: nat, q: nat)
    requires x > 0 && q * x <= i
    ensures q <= i / x
  {
    DivBounds(i, x);
    MulMono(i / x + 1, q, x);
  }

  lemma DivAtMost(i: nat, x: nat, q: nat)
    requires x > 0 && i < (q + 1) * x
    ensures i / x <= q
  {
    DivBounds(i, x);
    MulMono(q + 1, i / x, x);
  }

  lemma DivShift(a: nat, x: nat, k: nat)
    requires x > 0
    ensures (k * x + a) / x == k + a / x
  {
    DivBounds(a, x);
    assert (k + a / x) * x == k * x + a / x * x;
    DivAtLeast(k * x + a, x, k + a / x);
    DivAtMost(k * x + a, x, k + a / x);
  }

  lemma DivDiv(a: nat, x: nat)
    requires x > 0
    ensures a / x / 2 == a / (2 * x)
  {
    var q := a / (2 * x);
    DivBounds(a, 2 * x);
    assert q * (2 * x) == 2 * q * x;
    DivAtLeast(a, x, 2 * q);
    DivAtMost(a, x, 2 * q + 1);
  }

  lemma Binomial(t: nat, x: nat, d: nat)
    requires x == t + d || t == x + d
    ensures x * x + t * t == t * (2 * x) + d * d
  {
    if x == t + d {
      assert x * x == t * t + 2 * (t * d) + d * d;
      assert t * (2 * x) == 2 * (t * t) + 2 * (t * d);
    } else {
      assert t * t == x * x + 2 * (x * d) + d * d;
      assert t * (2 * x) == 2 * (x * x) + 2 * (x * d);
    }
  }

  lemma QuotientBounds(a: nat, b: nat)
    requires b > 0
    ensures 0 <= a - b * (a / b) < b && 0 <= a / b <= a
    ensures a / b + (a - b * (a / b)) <= a
  {
    DivBounds(a, b);
    MulMono(1, b, a / b);
  }

  lemma SignProduct(a: int, b: int)
    requires (a >= 0 && b >= 0) || (a <= 0 && b <= 0)
    ensures a * b >= 0
  {
  }

  lemma SignOf(n: int, k: int)
    requires n > 0 && n * k > 0
    ensures k > 0
  {
  }

  /** |e| <= w */
  predicate Near(e: int, w: int) {
    -w <= e <= w
  }

  lemma NearProduct(a: int, b: int, x: int, y: int)
    requires Near(a, x) && Near(b, y)
    ensures Near(a * b, x * y)
  {
    var m: nat, n: nat := if a < 0 then -a else a, if b < 0 then -b else b;
    MulMono(m, x, n);
    MulMono(n, y, x);
    assert a * b == m * n || a * b == -(m * n);
  }

  lemma NearCancel(k: int, e: int, w: int)
    requires k > 0 && Near(k * e, k * w)
    ensures Near(e, w)
  {
    assert k * (w - e + 1) == k * w - k * e + k;
    assert k * (w + e + 1) == k * w + k * e + k;
    SignOf(k, w - e + 1);
    SignOf(k, w + e + 1);
  }
}
