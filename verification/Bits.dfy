/** The C operators `&` and `|` on unsigned integers, bit by bit, and the arithmetic they perform on masks. */
module Bits {
  import opened Algebra

  function And(x: nat, y: nat): nat {
    if x == 0 || y == 0 then 0 else (x % 2) * (y % 2) + 2 * And(x / 2, y / 2)
  }

  function Or(x: nat, y: nat): nat {
    if x == 0 then y
    else if y == 0 then x
    else (if x % 2 == 1 || y % 2 == 1 then 1 else 0) + 2 * Or(x / 2, y / 2)
  }

  lemma ModDouble(x: nat, p: nat)
    requires p > 0
    ensures x % (2 * p) == 2 * (x / 2 % p) + x % 2
  {
    var q, r := x / 2 / p, x / 2 % p;
    DivBounds(x / 2, p);
    assert x / 2 == q * p + r;
    assert x == q * (2 * p) + (2 * r + x % 2);
    ModUnique(x, 2 * p, q, 2 * r + x % 2);
  }

  lemma ModUnique(x: nat, m: nat, q: nat, r: nat)
    requires r < m && x == q * m + r
    ensures x % m == r && x / m == q
  {
    DivAtLeast(x, m, q);
    assert (q + 1) * m == q * m + m;
    DivAtMost(x, m, q);
    assert x / m == q;
    assert x % m == x - x / m * m;
  }

  lemma AndOdd(x: nat, m: nat)
    ensures And(x, 2 * m + 1) == x % 2 + 2 * And(x / 2, m)
  {
    assert (2 * m + 1) % 2 == 1 && (2 * m + 1) / 2 == m;
  }

  lemma AndEven(x: nat, m: nat)
    ensures And(x, 2 * m) == 2 * And(x / 2, m)
  {
    assert 2 * m % 2 == 0 && 2 * m / 2 == m;
  }

  /** `x & (2^k - 1)` is the remainder. */
  lemma {:induction false} AndLowMask(x: nat, k: nat)
    ensures And(x, Pow2(k) - 1) == x % Pow2(k)
    decreases k
  {
    if k > 0 {
      hide And;
      var p := Pow2(k - 1);
      AndOdd(x, p - 1);
      AndLowMask(x / 2, k - 1);
      ModDouble(x, p);
    }
  }

  /** `x & ~(2^k - 1)` in words of w bits rounds down. */
  lemma {:induction false} AndHighMask(x: nat, k: nat, w: nat)
    requires k <= w && x < Pow2(w)
    ensures Pow2(k) <= Pow2(w) && And(x, Pow2(w) - Pow2(k)) == x - x % Pow2(k)
    decreases w
  {
    if k == 0 {
      AndLowMask(x, w);
      ModUnique(x, Pow2(w), 0, x);
    } else {
      hide And;
      AndHighMask(x / 2, k - 1, w - 1);
      AndEven(x, Pow2(w - 1) - Pow2(k - 1));
      ModDouble(x, Pow2(k - 1));
    }
  }

  /** `x | (y << k)` is the sum when x has at most k bits. */
  lemma {:induction false} OrShifted(x: nat, y: nat, k: nat)
    requires x < Pow2(k)
    ensures Or(x, y * Pow2(k)) == x + y * Pow2(k)
    decreases k
  {
    if x > 0 && y > 0 {
      var p := Pow2(k - 1);
      assert y * Pow2(k) == 2 * (y * p);
      OrShifted(x / 2, y, k - 1);
    }
  }

  lemma AndUnfold(x: nat, y: nat)
    ensures And(x, y) == x % 2 * (y % 2) + 2 * And(x / 2, y / 2)
    ensures x == 0 || y == 0 ==> And(x, y) == 0
  {
    if x == 0 || y == 0 {
      assert x % 2 * (y % 2) == 0;
    }
  }

  lemma {:induction false} AndAtMost(x: nat, y: nat)
    ensures And(x, y) <= y
  {
    if x > 0 && y > 0 {
      AndAtMost(x / 2, y / 2);
      assert x % 2 * (y % 2) <= y % 2;
    }
  }

  lemma AndTwice(x: nat, m: nat, u: nat, v: nat)
    ensures And(x + 2 * u, m + 2 * v) == x % 2 * (m % 2) + 2 * And(x / 2 + u, m / 2 + v)
  {
    hide And;
    AndUnfold(x + 2 * u, m + 2 * v);
    assert (x + 2 * u) % 2 == x % 2 && (x + 2 * u) / 2 == x / 2 + u;
    assert (m + 2 * v) % 2 == m % 2 && (m + 2 * v) / 2 == m / 2 + v;
  }

  /** `&` works on the low k bits and on the rest separately. */
  lemma {:induction false} AndSplit(x: nat, y: nat, m: nat, n: nat, k: nat)
    requires x < Pow2(k) && m < Pow2(k)
    ensures And(x + y * Pow2(k), m + n * Pow2(k)) == And(x, m) + And(y, n) * Pow2(k)
    decreases k
  {
    hide And;
    if k == 0 {
      AndUnfold(0, 0);
    } else {
      var p, r := Pow2(k - 1), And(y, n);
      AndSplit(x / 2, y, m / 2, n, k - 1);
      AndTwice(x, m, y * p, n * p);
      AndUnfold(x, m);
      Double(y, p);
      Double(n, p);
      Double(r, p);
    }
  }

  lemma Double(a: nat, p: nat)
    ensures a * (2 * p) == 2 * (a * p)
  {
  }

  lemma Pow2Values()
    ensures Pow2(1) == 2 && Pow2(2) == 4 && Pow2(5) == 32 && Pow2(8) == 0x100 && Pow2(16) == 0x1_0000
    ensures Pow2(32) == 0x1_0000_0000
  {
    assert Pow2(4) == 16;
    assert Pow2(8) == 16 * Pow2(4);
    assert Pow2(12) == 16 * Pow2(8);
    assert Pow2(16) == 16 * Pow2(12);
    assert Pow2(20) == 16 * Pow2(16);
    assert Pow2(24) == 16 * Pow2(20);
    assert Pow2(28) == 16 * Pow2(24);
    assert Pow2(32) == 16 * Pow2(28);
  }
}
