/** The integer square root of include/pj/math.h on 32-bit unsigned integers. */
module ISqrt {
  import opened Algebra

  const TWO32: nat := 0x1_0000_0000
  type u32 = x: nat | x < 0x1_0000_0000

  function Add32(a: u32, b: u32): (c: u32)
    ensures a + b < TWO32 ==> c == a + b
  {
    (a + b) % TWO32
  }

  function Shl32(a: u32): u32 { a * 2 % TWO32 }

  predicate IsFloorSqrt(i: nat, r: nat) {
    r * r <= i < (r + 1) * (r + 1)
  }

  // ---------------------------------------------------------------------------------------------
  // The Babylonian step
  // ---------------------------------------------------------------------------------------------

  function Next(i: nat, x: nat): nat
    requires x > 0
  {
    (x + i / x) / 2
  }

  lemma SquareGap(s: int, x: int)
    ensures (2 * s - x) * x <= s * s
  {
    var d := s - x;
    assert (2 * s - x) * x == s * s - d * d;
    SignProduct(d, d);
  }

  /** From anywhere, one step lands at or above the floor root. */
  lemma NextAtLeastRoot(i: nat, x: nat, s: nat)
    requires x > 0 && IsFloorSqrt(i, s)
    ensures s <= Next(i, x)
  {
    if x < 2 * s {
      var q: nat := 2 * s - x;
      SquareGap(s, x);
      DivAtLeast(i, x, q);
    }
  }

  /** Above the root the quotient is at most the root, so a step goes down; one above, it lands on it. */
  lemma NextFromAbove(i: nat, x: nat, s: nat)
    requires s < x && IsFloorSqrt(i, s)
    ensures i / x <= s && s <= Next(i, x) < x
    ensures x == s + 1 ==> Next(i, x) == s
  {
    NextAtLeastRoot(i, x, s);
    MulMono(s + 1, x, s + 1);
    DivAtMost(i, x, s);
  }

  /** From the root a step goes up by at most one. */
  lemma NextFromRoot(i: nat, s: nat)
    requires 0 < s && IsFloorSqrt(i, s)
    ensures s <= Next(i, s) <= s + 1
  {
    NextAtLeastRoot(i, s, s);
    assert (s + 1) * (s + 1) == s * s + 2 * s + 1;
    assert (s + 2 + 1) * s == s * s + 3 * s;
    DivAtMost(i, s, s + 2);
  }

  /** Where the loop stops: the step stayed, or went down by one. */
  predicate Stops(i: nat, x: nat)
    requires x > 0
  {
    (x + Next(i, x)) / 2 == Next(i, x)
  }

  /** What stopping tells about the result. */
  lemma StopBound(i: nat, x: nat)
    requires x > 0 && Stops(i, x)
    ensures var r := Next(i, x); r * r <= i + 1
  {
    var r := Next(i, x);
    assert x == r || x == r + 1;
    DivBounds(i, x);
    if x == r {
      assert r <= i / x;
      assert r * r <= i / x * x;
    } else if r > 0 {
      assert r - 1 <= i / x;
      assert (r - 1) * (r + 1) <= i / x * x by { assert (r - 1) * x <= i / x * x; }
      assert (r - 1) * (r + 1) == r * r - 1;
    }
  }

  ghost function FloorSqrt(i: nat): (s: nat)
    ensures IsFloorSqrt(i, s)
  {
    SomeRoot(i);
    var s: nat :| IsFloorSqrt(i, s);
    s
  }

  lemma {:induction false} SomeRoot(i: nat)
    ensures exists s: nat :: IsFloorSqrt(i, s)
  {
    if i == 0 {
      assert IsFloorSqrt(0, 0);
    } else {
      SomeRoot(i - 1);
      var s: nat :| IsFloorSqrt(i - 1, s);
      assert IsFloorSqrt(i, if (s + 1) * (s + 1) == i then s + 1 else s);
    }
  }

  lemma RootUnique(i: nat, r: nat, s: nat)
    requires IsFloorSqrt(i, r) && IsFloorSqrt(i, s)
    ensures r == s
  {
    RootMono(i, r, i, s);
    RootMono(i, s, i, r);
  }

  lemma RootMono(i: nat, r: nat, j: nat, s: nat)
    requires r * r <= i <= j < (s + 1) * (s + 1)
    ensures r <= s
  {
    MulMono(s + 1, r, r);
    MulMono(s + 1, r, s + 1);
  }

  // ---------------------------------------------------------------------------------------------
  // The two loops
  // ---------------------------------------------------------------------------------------------

  /** Termination measure of the loop once it is at or above the root `s`. */
  function Distance(x: nat, s: nat): nat {
    if x <= s then 1 else if x == s + 1 then 0 else x - s
  }

  lemma DistanceDrops(i: nat, x: nat, s: nat)
    requires 0 < x && s <= x && IsFloorSqrt(i, s) && !Stops(i, x)
    ensures s <= Next(i, x) && Distance(Next(i, x), s) < Distance(x, s)
  {
    if x == s { NextFromRoot(i, s); } else { NextFromAbove(i, x, s); }
  }

  /** The rough guess: one doubling per two bits of input. */
  function GuessFrom(prev: nat, res: nat): nat {
    if prev == 0 then res else GuessFrom(prev / 4, res * 2)
  }

  function Guess(i: nat): nat { GuessFrom(i / 4, 1) }

  lemma QuarterStep(i: nat, q: nat, prev: nat)
    requires prev > 0 && 4 * q * prev <= i < 4 * q * (prev + 1)
    ensures 4 * (4 * q) * (prev / 4) <= i < 4 * (4 * q) * (prev / 4 + 1)
    ensures 4 * q <= i
  {
    MulMono(4 * (prev / 4), prev, 4 * q);
    MulMono(prev + 1, 4 * (prev / 4 + 1), 4 * q);
    MulMono(1, prev, 4 * q);
  }

  lemma {:induction false} GuessFromBounds(i: nat, prev: nat, k: nat)
    requires 4 * (Pow2(k) * Pow2(k)) * prev <= i < 4 * (Pow2(k) * Pow2(k)) * (prev + 1)
    requires Pow2(k) * Pow2(k) <= i
    ensures exists m: nat :: GuessFrom(prev, Pow2(k)) == Pow2(m)
    ensures var g := GuessFrom(prev, Pow2(k)); 0 < g && g * g <= i < 4 * (g * g)
    decreases prev
  {
    if prev > 0 {
      var q := Pow2(k) * Pow2(k);
      assert Pow2(k + 1) * Pow2(k + 1) == 4 * q;
      QuarterStep(i, q, prev);
      GuessFromBounds(i, prev / 4, k + 1);
    }
  }

  /** The guess is a power of two within a factor two below the root. */
  lemma GuessBounds(i: nat)
    requires i > 0
    ensures exists m: nat :: Guess(i) == Pow2(m)
    ensures 0 < Guess(i) && Guess(i) * Guess(i) <= i < 4 * (Guess(i) * Guess(i))
  {
    assert Pow2(0) == 1;
    GuessFromBounds(i, i / 4, 0);
  }

  /** The Babylonian loop entered with `x`; it ends for every input. */
  function Babylonian(i: nat, x: nat): nat
    requires x > 0
    decreases if FloorSqrt(i) <= x then 0 else 1, Distance(x, FloorSqrt(i))
  {
    if Stops(i, x) then Next(i, x)
    else
      StepContinues(i, x);
      Babylonian(i, Next(i, x))
  }

  lemma StepContinues(i: nat, x: nat)
    requires x > 0 && !Stops(i, x)
    ensures Next(i, x) > 0 && FloorSqrt(i) <= Next(i, x)
    ensures FloorSqrt(i) <= x ==> Distance(Next(i, x), FloorSqrt(i)) < Distance(x, FloorSqrt(i))
  {
    var s := FloorSqrt(i);
    NextAtLeastRoot(i, x, s);
    if s <= x { DistanceDrops(i, x, s); }
  }

  function Root(i: nat): nat {
    if i > 0 then
      GuessBounds(i);
      Babylonian(i, Guess(i))
    else
      Babylonian(i, 1)
  }

  /** The loops with their 32-bit arithmetic: nothing wraps, nothing divides by zero. */
  method Isqrt(i: u32) returns (res: u32)
    ensures res == Root(i)
  {
    hide Babylonian, FloorSqrt, Distance, Root, Next, Stops, Add32, InRange, IsFloorSqrt;
    res := InitialGuess(i);
    StartSmall(i);
    var again := true;
    while again
      invariant if again then res > 0 && InRange(i, res) && Babylonian(i, res) == Root(i) else res == Root(i)
      decreases again, if FloorSqrt(i) <= res then 0 else 1, Distance(res, FloorSqrt(i))
    {
      NoWrap(i, res);
      BabylonianStep(i, res);
      var prev := res;
      res := Add32(prev, i / prev) / 2;
      again := Add32(prev, res) / 2 != res;
      if again {
        StepContinues(i, prev);
        NextSmall(i, prev);
      }
    }
  }

  method InitialGuess(i: u32) returns (res: u32)
    ensures res == Guess(i)
  {
    hide GuessFrom, GuessBound;
    res := 1;
    var prev: u32 := i / 4;
    GuessStart(i);
    while prev != 0
      invariant GuessFrom(prev, res) == Guess(i) && GuessBound(i, prev, res)
      decreases prev
    {
      GuessNext(i, prev, res);
      prev := prev / 4;
      res := Shl32(res);
    }
    GuessEnd(res);
  }

  /** Keeps `res` below half a word while there are bits of the input left. */
  predicate GuessBound(i: u32, prev: nat, res: nat) {
    4 * (res * res) * prev <= i
  }

  lemma GuessStart(i: u32)
    ensures GuessFrom(i / 4, 1) == Guess(i) && GuessBound(i, i / 4, 1)
  {
  }

  lemma GuessEnd(res: nat)
    ensures GuessFrom(0, res) == res
  {
  }

  lemma GuessNext(i: u32, prev: nat, res: nat)
    requires prev > 0 && GuessBound(i, prev, res)
    ensures res < 0x1_0000 && Shl32(res) == 2 * res
    ensures GuessBound(i, prev / 4, 2 * res) && GuessFrom(prev, res) == GuessFrom(prev / 4, 2 * res)
  {
    hide GuessFrom, Shl32;
    GuessFromStep(prev, res);
    QuarterBound(i, res * res, prev);
    assert 2 * res * (2 * res) == 4 * (res * res);
    RootMono(res * res, res, i, 0xFFFF);
    SmallShift(res);
  }

  lemma QuarterBound(i: nat, q: nat, prev: nat)
    requires prev > 0 && 4 * q * prev <= i
    ensures 4 * (4 * q) * (prev / 4) <= i && 4 * q <= i
  {
    MulMono(4 * (prev / 4), prev, 4 * q);
    MulMono(1, prev, 4 * q);
  }

  lemma GuessFromStep(prev: nat, res: nat)
    requires prev > 0
    ensures GuessFrom(prev, res) == GuessFrom(prev / 4, 2 * res)
  {
  }

  lemma SmallShift(res: nat)
    requires res < 0x1_0000
    ensures Shl32(res) == 2 * res
  {
  }

  /** The iterate and the quotient both stay far below the word size. */
  predicate InRange(i: nat, x: nat) {
    0 < x <= 0x4_0000 && i / x <= 0x4_0000
  }

  lemma NoWrap(i: u32, x: nat)
    requires InRange(i, x)
    ensures 0 < x <= 0x4_0000 && 0 <= i / x <= 0x4_0000
    ensures Add32(x, i / x) / 2 == Next(i, x) <= 0x4_0000
    ensures Stops(i, x) <==> Add32(x, Next(i, x)) / 2 == Next(i, x)
  {
    hide Add32;
  }

  lemma BabylonianStep(i: nat, x: nat)
    requires x > 0
    ensures Stops(i, x) ==> Babylonian(i, x) == Next(i, x)
    ensures !Stops(i, x) ==> Next(i, x) > 0 && Babylonian(i, x) == Babylonian(i, Next(i, x))
  {
    if !Stops(i, x) { StepContinues(i, x); }
  }

  lemma StartSmall(i: u32)
    ensures Guess(i) > 0 && InRange(i, Guess(i))
    ensures Babylonian(i, Guess(i)) == Root(i)
  {
    hide Babylonian, Pow2, FloorSqrt;
    if i > 0 {
      var g := Guess(i);
      GuessBounds(i);
      RootMono(g * g, g, i, 0xFFFF);
      SmallQuotient(i, g);
    }
  }

  lemma SmallQuotient(i: u32, g: nat)
    requires 0 < g <= 0xFFFF && i < 4 * (g * g)
    ensures 0 <= i / g <= 0x4_0000
  {
    hide *;
    FourSquares(g, 0x4_0001);
    DivAtMost(i, g, 0x4_0000);
  }

  lemma FourSquares(g: nat, c: nat)
    requires 4 * g <= c
    ensures 4 * (g * g) <= c * g
  {
    MulMono(4 * g, c, g);
    assert 4 * g * g == 4 * (g * g);
  }

  lemma NextSmall(i: u32, x: nat)
    requires InRange(i, x) && FloorSqrt(i) <= Next(i, x) && Next(i, x) > 0
    ensures InRange(i, Next(i, x))
  {
    var s, x' := FloorSqrt(i), Next(i, x);
    RootMono(i, s, i, 0xFFFF);
    MulMono(s, x', s + 3);
    assert (s + 3) * s == s * s + 3 * s && (s + 1) * (s + 1) == s * s + 2 * s + 1;
    DivAtMost(i, x', s + 3);
  }

  // ---------------------------------------------------------------------------------------------
  // What the result is
  // ---------------------------------------------------------------------------------------------

  lemma {:induction false} BabylonianResult(i: nat, x: nat)
    requires x > 0
    ensures var r := Babylonian(i, x); r * r <= i + 1 && i < (r + 1) * (r + 1)
    decreases if FloorSqrt(i) <= x then 0 else 1, Distance(x, FloorSqrt(i))
  {
    hide Babylonian, Distance, Stops, Next;
    BabylonianStep(i, x);
    if Stops(i, x) {
      var s := FloorSqrt(i);
      StopBound(i, x);
      NextAtLeastRoot(i, x, s);
      SquareMono(s + 1, Next(i, x) + 1);
    } else {
      StepContinues(i, x);
      BabylonianResult(i, Next(i, x));
    }
  }

  /** The result is the floor root, or one more when that is the exact root of `i + 1`. */
  lemma RootBounds(i: nat)
    ensures var r := Root(i); r * r <= i + 1 && i < (r + 1) * (r + 1)
    ensures IsFloorSqrt(i, Root(i)) || Root(i) * Root(i) == i + 1
  {
    hide Babylonian, Guess, IsFloorSqrt;
    if i > 0 { GuessBounds(i); }
    BabylonianResult(i, if i > 0 then Guess(i) else 1);
    FloorOrNext(i, Root(i));
  }

  lemma FloorOrNext(i: nat, r: nat)
    requires r * r <= i + 1 && i < (r + 1) * (r + 1)
    ensures IsFloorSqrt(i, r) || r * r == i + 1
  {
  }

  /** The number one below the square of t. */
  function Below(t: nat): (i: nat)
    requires t > 0
    ensures i + 1 == t * t
  {
    PositiveSquare(t);
    t * t - 1
  }

  /** How far above t the iterate after `x` is, when i is one below t*t and x is `d` away from t. */
  function Fall(d: nat, x: nat): nat
    requires x > 0
  {
    if d == 0 then 0
    else
      QuotientBounds(Below(d), 2 * x);
      Below(d) / (2 * x)
  }

  /** The iterates that start at t + e come down onto t + 1. */
  predicate Lands(t: nat, e: nat)
    decreases e
  {
    if e <= 1 then e == 1
    else
      Shrinks(t, e);
      Lands(t, Fall(e, t + e))
  }

  lemma FallBelow(d: nat, x: nat, q: nat)
    requires x > 0 && d > 0 && d * d <= q * (2 * x)
    ensures Fall(d, x) < q
  {
    PositiveSquare(d);
    MulMono(q, 0, 2 * x);
    DivAtMost(Below(d), 2 * x, q - 1);
  }

  lemma FallAtLeast(d: nat, x: nat, q: nat)
    requires x > 0 && d > 0 && q * (2 * x) < d * d
    ensures q <= Fall(d, x)
  {
    DivAtLeast(Below(d), 2 * x, q);
  }

  lemma Shrinks(t: nat, e: nat)
    requires e >= 2
    ensures Fall(e, t + e) < e - 1
  {
    hide Fall;
    MulMono(2 * e, 2 * (t + e), e - 1);
    MulMono(2, e, e);
    assert (e - 1) * (2 * e) == 2 * (e * e) - 2 * e;
    assert (e - 1) * (2 * (t + e)) == (2 * (t + e)) * (e - 1);
    FallBelow(e, t + e, e - 1);
  }

  /** The iterate after x, for i one below the square of t. */
  lemma NextDeviation(t: nat, x: nat, d: nat)
    requires t > 0 && x > 0 && d > 0 && (x == t + d || t == x + d)
    ensures Next(Below(t), x) == t + Fall(d, x)
  {
    var i, q := Below(t), Below(d);
    Binomial(t, x, d);
    DivShift(i, x, x);
    DivDiv(x * x + i, x);
    DivShift(q, 2 * x, t);
  }

  /** At t the loop steps down by one and stops. */
  lemma NextAtRoot(t: nat)
    requires t > 1
    ensures Next(Below(t), t) == t - 1
  {
    assert Below(t) == (t - 1) * t + (t - 1);
    DivShift(t - 1, t, t - 1);
  }

  lemma StopsIff(i: nat, x: nat)
    requires x > 0
    ensures Stops(i, x) <==> x == Next(i, x) || x == Next(i, x) + 1
  {
  }

  lemma FallZero(t: nat)
    ensures Fall(1, t + 1) == 0
  {
    hide Fall;
    FallBelow(1, t + 1, 1);
  }

  lemma {:induction false} BabylonianBelowSquare(t: nat, e: nat)
    requires t > 1
    ensures Babylonian(Below(t), t + e) == if Lands(t, e) then t else t - 1
    decreases e
  {
    hide Babylonian, Below, Fall, Next, Stops;
    BabylonianStep(Below(t), t + e);
    StopsIff(Below(t), t + e);
    if e == 0 {
      NextAtRoot(t);
    } else {
      NextDeviation(t, t + e, e);
      if e == 1 {
        FallZero(t);
      } else {
        Shrinks(t, e);
        BabylonianBelowSquare(t, Fall(e, t + e));
      }
    }
  }

  /** `i + 1` is a square, and the iterates from the rough guess come down onto one above its root. */
  ghost predicate Overshoots(i: nat) {
    var t, g := FloorSqrt(i) + 1, Guess(i);
    t * t == i + 1 && 0 < g < t && Lands(t, Fall(t - g, g))
  }

  /** Exactly when the "integer square root" is the floor of the square root. */
  lemma RootExactIff(i: nat)
    ensures IsFloorSqrt(i, Root(i)) <==> !Overshoots(i)
  {
    hide Babylonian, FloorSqrt, Guess, Fall, Next;
    RootBounds(i);
    var r, t := Root(i), FloorSqrt(i) + 1;
    if i == 0 {
      GuessZero();
      RootUnique(0, t - 1, 0);
    } else if t * t == i + 1 {
      BelowRoot(t, i);
      RootBelowSquare(t);
    } else if r * r == i + 1 {
      SquareMono(r, t - 1);
      RootMono(r * r, r, r * r, t);
    }
  }

  lemma BelowRoot(t: nat, i: nat)
    requires t * t == i + 1 && i > 0
    ensures t > 1 && Below(t) == i
  {
    SquareMono(t, 1);
  }

  lemma RootBelowSquare(t: nat)
    requires t > 1
    ensures var g := Guess(Below(t));
            && 0 < g < t <= 2 * g
            && Root(Below(t)) == if Lands(t, Fall(t - g, g)) then t else t - 1
  {
    hide Babylonian, Guess, Fall, Next, Stops, Lands;
    SquareMono(2, t);
    var i, g := Below(t), Guess(Below(t));
    GuessBounds(i);
    assert (t - 1 + 1) * (t - 1 + 1) == t * t;
    RootMono(g * g, g, i, t - 1);
    assert (2 * g + 1) * (2 * g + 1) == 4 * (g * g) + 4 * g + 1;
    RootMono(t * t, t, 4 * (g * g), 2 * g);
    FromGuess(t, g);
  }

  lemma FromGuess(t: nat, g: nat)
    requires t > 1 && 0 < g < t
    ensures Babylonian(Below(t), g) == if Lands(t, Fall(t - g, g)) then t else t - 1
  {
    hide Babylonian, Below, Fall, Next, Stops, Lands;
    NextDeviation(t, g, t - g);
    BabylonianStep(Below(t), g);
    StopsIff(Below(t), g);
    BabylonianBelowSquare(t, Fall(t - g, g));
  }

  lemma GuessZero()
    ensures Guess(0) == 1 && Root(0) == 0
  {
  }

  /** 48 is an input that overshoots: 7 is returned where the floor root is 6. */
  lemma RootOf48()
    ensures Root(48) == 7 && !IsFloorSqrt(48, 7)
  {
    hide Root, Babylonian, FloorSqrt;
    assert Guess(48) == GuessFrom(12, 1) == GuessFrom(3, 2) == GuessFrom(0, 4) == 4;
    assert Fall(3, 4) == 1 && Below(7) == 48;
    RootBelowSquare(7);
  }

  // ---------------------------------------------------------------------------------------------
  // A formula for 32-bit inputs
  // ---------------------------------------------------------------------------------------------

  /** From a distance d at iterate x, the next iterate is one above t. */
  predicate LandsNow(d: nat, x: nat) {
    2 * x < d * d <= 4 * x
  }

  lemma LandsNowIff(d: nat, x: nat)
    requires x > 0
    ensures LandsNow(d, x) <==> Fall(d, x) == 1
  {
    hide Fall;
    if d == 0 {
      FallOfZero(x);
    } else {
      if 1 * (2 * x) < d * d { FallAtLeast(d, x, 1); } else { FallBelow(d, x, 1); }
      if 2 * (2 * x) < d * d { FallAtLeast(d, x, 2); } else { FallBelow(d, x, 2); }
    }
  }

  lemma FallOfZero(x: nat)
    requires x > 0
    ensures Fall(0, x) == 0
  {
  }

  /** One of the first three iterates after the guess g is one above t: no loop is needed to tell. */
  predicate LandsWithinThree(t: nat, g: nat)
    requires 0 < g < t
  {
    var d := t - g;
    var e1 := Fall(d, g);
    var e2 := Fall(e1, t + e1);
    LandsNow(d, g) || LandsNow(e1, t + e1) || LandsNow(e2, t + e2)
  }

  /** The distance shrinks at least by the factor 2*c + 2 when c times it is at most t. */
  lemma FallRatio(t: nat, e: nat, c: nat)
    requires t > 0 && c * e <= t
    ensures (2 * c + 2) * Fall(e, t + e) <= e
  {
    hide Fall;
    if e == 0 {
      FallOfZero(t);
    } else if Fall(e, t + e) > 0 {
      var f, x := Fall(e, t + e), 2 * (t + e);
      if e * e <= f * x { FallBelow(e, t + e, f); }
      MulMono((2 * c + 2) * e, x, f);
      assert (2 * c + 2) * e == 2 * (c * e) + 2 * e;
      assert (2 * c + 2) * f * e == (2 * c + 2) * e * f;
      assert f * x == x * f;
      CancelLess((2 * c + 2) * f, e, e);
    }
  }

  lemma FirstFall(t: nat, g: nat)
    requires 0 < g < t <= 2 * g
    ensures 2 * Fall(t - g, g) <= t
  {
    hide Fall;
    var d, f := t - g, Fall(t - g, g);
    if f > 0 {
      if d * d <= f * (2 * g) { FallBelow(d, g, f); }
      MulMono(d, g, d);
      assert f * (2 * g) == 2 * f * g;
      assert d * g == g * d;
      CancelLess(2 * f, d, g);
    }
  }

  /** For roots of 32-bit numbers the recurrence is over after three steps. */
  lemma LandsWithinThreeIff(t: nat, g: nat)
    requires 0 < g < t <= 2 * g && t <= 0x1_0000
    ensures Lands(t, Fall(t - g, g)) <==> LandsWithinThree(t, g)
  {
    hide Fall, LandsNow, Lands;
    var e1 := Fall(t - g, g);
    var e2 := Fall(e1, t + e1);
    var e3 := Fall(e2, t + e2);
    LandsNowIff(t - g, g);
    LandsNowIff(e1, t + e1);
    LandsNowIff(e2, t + e2);
    FirstFall(t, g);
    FallRatio(t, e1, 2);
    FallRatio(t, e2, 12);
    FallRatio(t, e3, 312);
    FallOfZero(t);
    FallZero(t);
    assert e3 <= 210 && Fall(e3, t + e3) == 0;
    LandsStep(t, e1);
    LandsStep(t, e2);
    LandsStep(t, e3);
    LandsStep(t, 0);
  }

  lemma LandsStep(t: nat, e: nat)
    ensures t + e > 0 ==> (Lands(t, e) <==> if e <= 1 then e == 1 else Lands(t, Fall(e, t + e)))
  {
  }

  /** A formula in i, the root t of i + 1 and the rough guess g. */
  ghost predicate Overshoots32(i: u32) {
    var t, g := FloorSqrt(i) + 1, Guess(i);
    t * t == i + 1 && 0 < g < t && LandsWithinThree(t, g)
  }

  /** For every 32-bit input the formula decides whether the result is the floor root. */
  lemma RootExactIff32(i: u32)
    ensures IsFloorSqrt(i, Root(i)) <==> !Overshoots32(i)
    ensures Overshoots32(i) ==> Root(i) == FloorSqrt(i) + 1
  {
    hide Root, FloorSqrt, Guess, Fall, Lands, LandsWithinThree;
    RootExactIff(i);
    RootBounds(i);
    var t := FloorSqrt(i) + 1;
    if t * t == i + 1 && i > 0 {
      BelowRoot(t, i);
      RootBelowSquare(t);
      RootMono(t * t, t, 0x1_0000_0000, 0x1_0000);
      LandsWithinThreeIff(t, Guess(i));
    } else if i == 0 {
      GuessZero();
      RootUnique(0, t - 1, 0);
    }
  }
}
