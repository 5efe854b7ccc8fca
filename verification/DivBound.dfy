/**
 How many division steps are enough: for every pair of numbers of at most
 2048 bits the steps that crypto/bn/bn_prime.c runs bring x down to zero.
 */
module DivBound {
  import opened Primes
  import opened QuadRing
  import opened LucasTheory
  import opened Montgomery
  import opened CtGcd
  import opened JacobiSymbol
  import opened DivSteps

  // ---- a polygon for each small delta ------------------------------------------------------------

  /** The pair lies between two lines. */
  predicate Band(p: int, q: int, x: int, y: int, w: int) {
    -w <= p * x + q * y <= w
  }

  /*
   For every delta from -3 to 3 a polygon of size w around the pair, so chosen that every
   step leads from the polygon of its delta into the next one, at 50/67 of the size. Each
   is the set of pairs between some bands of the same width. That this is slightly better than
   2^(-19/45) is what makes 45 * 108 steps enough for 2048 bits.
   */

  predicate Minus3(x: int, y: int, w: int) {
    && Band(82, 481, x, y, w) && Band(45, 583, x, y, w)
    && Band(40, 577, x, y, w) && Band(-49, 397, x, y, w)
    && Band(-67, 354, x, y, w) && Band(-82, 219, x, y, w)
  }

  predicate Minus2(x: int, y: int, w: int) {
    && Band(122, 227, x, y, w) && Band(108, 323, x, y, w)
    && Band(66, 399, x, y, w) && Band(60, 399, x, y, w)
    && Band(-40, 324, x, y, w) && Band(-73, 295, x, y, w)
    && Band(-99, 264, x, y, w) && Band(-122, 163, x, y, w)
  }

  predicate Minus1(x: int, y: int, w: int) {
    && Band(181, 77, x, y, w) && Band(160, 160, x, y, w)
    && Band(99, 247, x, y, w) && Band(75, 254, x, y, w)
    && Band(-52, 244, x, y, w) && Band(-108, 219, x, y, w)
    && Band(-147, 195, x, y, w) && Band(-181, 121, x, y, w)
  }

  predicate Zero(x: int, y: int, w: int) {
    && Band(-269, 90, x, y, w) && Band(-265, 68, x, y, w)
    && Band(237, 0, x, y, w) && Band(147, 110, x, y, w)
    && Band(110, 133, x, y, w) && Band(0, 176, x, y, w)
    && Band(-68, 182, x, y, w) && Band(-160, 162, x, y, w)
    && Band(-219, 145, x, y, w)
  }

  predicate Plus1(x: int, y: int, w: int) {
    && Band(-399, 66, x, y, w) && Band(-393, 50, x, y, w)
    && Band(296, 33, x, y, w) && Band(218, 82, x, y, w)
    && Band(163, 99, x, y, w) && Band(40, 122, x, y, w)
    && Band(-225, 122, x, y, w) && Band(-325, 107, x, y, w)
  }

  predicate Plus2(x: int, y: int, w: int) {
    && Band(-586, 44, x, y, w) && Band(323, 61, x, y, w)
    && Band(286, 67, x, y, w) && Band(137, 82, x, y, w)
    && Band(-386, 82, x, y, w) && Band(-508, 73, x, y, w)
  }

  predicate Plus3(x: int, y: int, w: int) {
    && Band(-824, 28, x, y, w) && Band(478, 45, x, y, w)
    && Band(296, 56, x, y, w) && Band(-705, 56, x, y, w)
  }

  // ---- inside the range -----------------------------------------------------------------------------

  lemma EvenMinus3(h: int, y: int, w: int)
    requires Minus3(2 * h, y, w)
    ensures Minus2(67 * h, 67 * y, 50 * w)
  {
  }

  lemma OddMinus3(h: int, y: int, w: int)
    requires Minus3(2 * h - y, y, w)
    ensures Minus2(67 * h, 67 * y, 50 * w)
  {
  }

  lemma EvenMinus2(h: int, y: int, w: int)
    requires Minus2(2 * h, y, w)
    ensures Minus1(67 * h, 67 * y, 50 * w)
  {
  }

  lemma OddMinus2(h: int, y: int, w: int)
    requires Minus2(2 * h - y, y, w)
    ensures Minus1(67 * h, 67 * y, 50 * w)
  {
  }

  lemma EvenMinus1(h: int, y: int, w: int)
    requires Minus1(2 * h, y, w)
    ensures Zero(67 * h, 67 * y, 50 * w)
  {
  }

  lemma OddMinus1(h: int, y: int, w: int)
    requires Minus1(2 * h - y, y, w)
    ensures Zero(67 * h, 67 * y, 50 * w)
  {
  }

  lemma EvenZero(h: int, y: int, w: int)
    requires Zero(2 * h, y, w)
    ensures Plus1(67 * h, 67 * y, 50 * w)
  {
  }

  lemma SwapZero(h: int, y: int, w: int)
    requires Zero(2 * h + y, y, w)
    ensures Zero(67 * h, 67 * (2 * h + y), 50 * w)
  {
  }

  lemma EvenPlus1(h: int, y: int, w: int)
    requires Plus1(2 * h, y, w)
    ensures Plus2(67 * h, 67 * y, 50 * w)
  {
  }

  lemma SwapPlus1(h: int, y: int, w: int)
    requires Plus1(2 * h + y, y, w)
    ensures Minus1(67 * h, 67 * (2 * h + y), 50 * w)
  {
  }

  lemma EvenPlus2(h: int, y: int, w: int)
    requires Plus2(2 * h, y, w)
    ensures Plus3(67 * h, 67 * y, 50 * w)
  {
  }

  lemma SwapPlus2(h: int, y: int, w: int)
    requires Plus2(2 * h + y, y, w)
    ensures Minus2(67 * h, 67 * (2 * h + y), 50 * w)
  {
  }

  // ---- beyond it ----------------------------------------------------------------------------------

  /** Halving x beyond 3 stretches the polygon of 3. */
  lemma StretchPlus3(x: int, y: int, w: int)
    requires Plus3(x, y, w)
    ensures Plus3(536 * x, 536 * y, 550 * w)
  {
  }

  /** A swap from 3 or beyond; e is x on the scale of y. */
  lemma SwapPlus3(x: int, y: int, w: int, e: int, z: int)
    requires Plus3(x, y, w) && 2 * z == e - y && (0 <= e <= x || x <= e <= 0)
    ensures Minus3(67 * z, 67 * x, 50 * w)
  {
  }

  /** A step from beyond -3; e is y on the scale of x. */
  lemma RiseMinus3(x: int, y: int, w: int, e: int, x2: int, y2: int, w2: int)
    requires Minus3(x, y, w) && (0 <= 2 * e <= y || y <= 2 * e <= 0)
    requires 16 * x2 == 67 * (x + e) && 16 * y2 == 67 * y && 11 * w2 == 50 * w
    ensures Minus3(x2, y2, w2)
  {
  }

  // ---- every delta ------------------------------------------------------------------------------------

  /**
   The polygon of any delta. Beyond 3 that of 3 is taken, for 2^k x and y at (11/8)^k of the
   size, and beyond -3 that of -3 for x and 2^k y.
   */
  ghost predicate Near(d: int, x: int, y: int, w: int) {
    if d >= 3 then Plus3(Pow(16, d - 3) * x, Pow(8, d - 3) * y, Pow(11, d - 3) * w)
    else if d <= -3 then Minus3(Pow(8, -3 - d) * x, Pow(16, -3 - d) * y, Pow(11, -3 - d) * w)
    else if d == -2 then Minus2(x, y, w)
    else if d == -1 then Minus1(x, y, w)
    else if d == 0 then Zero(x, y, w)
    else if d == 1 then Plus1(x, y, w)
    else Plus2(x, y, w)
  }

  lemma PowPositive(b: nat, k: nat)
    requires b > 0
    ensures Pow(b, k) > 0
    decreases k
  {
    if k > 0 {
      PowPositive(b, k - 1);
      AtLeast(b, Pow(b, k - 1));
    }
  }

  /** 16^k is 2^k times 8^k. */
  lemma {:induction false} Sixteen(k: nat)
    ensures Pow(16, k) == Pow2(k) * Pow(8, k)
    decreases k
  {
    if k > 0 {
      Sixteen(k - 1);
      var a, b := Pow2(k - 1), Pow(8, k - 1);
      assert 16 * (a * b) == 2 * a * (8 * b);
    }
  }

  /** A step at or beyond 3 that halves x. */
  lemma HalveBeyond(d: int, h: int, y: int, w: int)
    requires d >= 3 && Near(d, 2 * h, y, w)
    ensures Near(d + 1, 67 * h, 67 * y, 50 * w)
  {
    hide Pow, Plus3, Minus3;
    var k := d - 3;
    var a, b, c := Pow(16, k), Pow(8, k), Pow(11, k);
    PowNext(16, k);
    PowNext(8, k);
    PowNext(11, k);
    StretchPlus3(a * (2 * h), b * y, c * w);
    assert 16 * a * (67 * h) == 536 * (a * (2 * h)) by { Twice(a, h); }
    Shuffle(8, b, 67, y);
    Shuffle(11, c, 50, w);
  }

  lemma Twice(a: int, h: int)
    ensures 16 * a * (67 * h) == 536 * (a * (2 * h))
  {
    var t := a * h;
    assert 16 * a * (67 * h) == 1072 * t && a * (2 * h) == 2 * t;
  }

  lemma Shuffle(m: int, a: int, n: int, x: int)
    ensures m * a * (n * x) == m * n * (a * x)
  {
    assert a * (n * x) == n * (a * x);
    Times3(m, a, n * x);
    Times3(m, n, a * x);
  }

  /** A swap at or beyond 3. */
  lemma SwapBeyond(d: int, h: int, y: int, w: int)
    requires d >= 3 && Near(d, 2 * h + y, y, w)
    ensures Near(-d, 67 * h, 67 * (2 * h + y), 50 * w)
  {
    hide Pow, Plus3, Minus3, Pow2;
    var k, x := d - 3, 2 * h + y;
    var a, b, c := Pow(16, k), Pow(8, k), Pow(11, k);
    Sixteen(k);
    PowPositive(8, k);
    Between(Pow2(k), b, x);
    SwapPlus3(a * x, b * y, c * w, b * x, b * h) by { HalfOf(b, h, y); }
    Swapped(67, b, h);
    Swapped(67, a, x);
    Swapped(50, c, w);
  }

  lemma HalfOf(b: int, h: int, y: int)
    ensures 2 * (b * h) == b * (2 * h + y) - b * y
  {
    Distribute(b, 2 * h, y);
    assert b * (2 * h) == 2 * (b * h);
  }

  lemma Swapped(m: int, a: int, x: int)
    ensures m * (a * x) == a * (m * x)
  {
  }

  lemma Between(p: nat, b: nat, x: int)
    requires p >= 1
    ensures 0 <= b * x <= p * b * x || p * b * x <= b * x <= 0
  {
    var t := b * x;
    Times3(p, b, x);
    if x >= 0 {
      assert t >= 0 && p * t == t + (p - 1) * t && (p - 1) * t >= 0;
    } else {
      assert b * x == -(b * -x);
      assert t <= 0 && p * t == t + (p - 1) * t && (p - 1) * t == -((p - 1) * -t);
    }
  }

  /** A step from beyond -3. */
  lemma RiseBeyond(d: int, x: int, h: int, y: int, w: int, odd: bool)
    requires d < -3 && Near(d, x, y, w) && 2 * h == if odd then x + y else x
    ensures Near(d + 1, 67 * h, 67 * y, 50 * w)
  {
    hide Pow, Plus3, Minus3, Pow2;
    var k := -4 - d;
    var a, b, c := Pow(8, k), Pow(16, k), Pow(11, k);
    PowNext(8, k);
    PowNext(16, k);
    PowNext(11, k);
    Sixteen(k);
    PowPositive(8, k);
    var e := if odd then 8 * a * y else 0;
    HalfBelow(Pow2(k), a, y);
    RiseHalf(a, x, h, y, odd);
    Shuffle(1, 67, a, h);
    Shuffle(1, 67, b, y);
    RiseMinus3(8 * a * x, 16 * b * y, 11 * c * w, e, a * (67 * h), b * (67 * y), c * (50 * w)) by {
      RiseScale(a, b, c, h, y, w, x, e, odd);
    }
  }

  lemma HalfBelow(p: nat, a: nat, y: int)
    requires p >= 1
    ensures 0 <= 2 * (8 * a * y) <= 16 * (p * a) * y || 16 * (p * a) * y <= 2 * (8 * a * y) <= 0
  {
    Between(p, a, y);
    Times3(8, a, y);
    Times3(16, p * a, y);
  }

  lemma RiseHalf(a: int, x: int, h: int, y: int, odd: bool)
    requires 2 * h == if odd then x + y else x
    ensures 16 * (a * h) == 8 * a * x + if odd then 8 * a * y else 0
  {
    Times3(8, a, x);
    Times3(8, a, y);
    Distribute(a, x, y);
    assert a * (2 * h) == 2 * (a * h);
  }

  lemma RiseScale(a: int, b: int, c: int, h: int, y: int, w: int, x: int, e: int, odd: bool)
    requires 16 * (a * h) == 8 * a * x + e
    ensures 16 * (a * (67 * h)) == 67 * (8 * a * x + e)
    ensures 16 * (b * (67 * y)) == 67 * (16 * b * y)
    ensures 11 * (c * (50 * w)) == 50 * (11 * c * w)
  {
    Swapped(67, a, h);
    Swapped(67, b, y);
    Swapped(50, c, w);
    Times3(16, b, y);
    Times3(11, c, w);
  }

  lemma NearThree(x: int, y: int, w: int)
    ensures Near(3, x, y, w) <==> Plus3(x, y, w)
    ensures Near(-3, x, y, w) <==> Minus3(x, y, w)
  {
    hide Plus3, Minus3;
    assert Pow(16, 0) == 1 && Pow(8, 0) == 1 && Pow(11, 0) == 1;
  }

  /** Every step leads from the polygon of its delta into the next one, at 50/67 of the size. */
  lemma StepNear(d: int, x: int, y: int, w: int, h: int, odd: bool)
    requires Near(d, x, y, w)
    requires 2 * h == if !odd then x else if d >= 0 then x - y else x + y
    ensures if odd && d >= 0 then Near(-d, 67 * h, 67 * x, 50 * w) else Near(d + 1, 67 * h, 67 * y, 50 * w)
  {
    hide Minus3, Minus2, Minus1, Zero, Plus1, Plus2, Plus3, Pow;
    if d < -3 {
      RiseBeyond(d, x, h, y, w, odd);
    } else if d >= 3 {
      if odd { SwapBeyond(d, h, y, w); } else { HalveBeyond(d, h, y, w); }
    } else {
      NearThree(x, y, w);
      NearThree(67 * h, 67 * y, 50 * w);
      if d == -3 {
        if odd { OddMinus3(h, y, w); } else { EvenMinus3(h, y, w); }
      } else if d == -2 {
        if odd { OddMinus2(h, y, w); } else { EvenMinus2(h, y, w); }
      } else if d == -1 {
        if odd { OddMinus1(h, y, w); } else { EvenMinus1(h, y, w); }
      } else if d == 0 {
        if odd { SwapZero(h, y, w); } else { EvenZero(h, y, w); }
      } else if d == 1 {
        if odd { SwapPlus1(h, y, w); } else { EvenPlus1(h, y, w); }
      } else {
        if odd { SwapPlus2(h, y, w); } else { EvenPlus2(h, y, w); }
      }
    }
  }

  // ---- any number of steps ---------------------------------------------------------------------------

  /** After k steps the pair lies in the polygon of its delta, at (50/67)^k of the size. */
  lemma {:induction false} StepsNear(s: Pair, w: nat, k: nat)
    requires Odd(s.y) && Near(s.delta, s.x, s.y, w)
    ensures var t, u := Steps(s, k), Pow(67, k);
            Near(t.delta, u * t.x, u * t.y, Pow(50, k) * w)
    decreases k
  {
    hide Near, Step, Odd;
    if k == 0 {
      assert Pow(67, 0) == 1 && Pow(50, 0) == 1;
    } else {
      hide Pow;
      StepsNear(s, w, k - 1);
      StepsOdd(s, k - 1);
      var t, u, v := Steps(s, k - 1), Pow(67, k - 1), Pow(50, k - 1);
      PowNext(67, k - 1);
      PowNext(50, k - 1);
      OneNear(t, u, v * w);
      var r := Step(t);
      Times3(67, u, r.x);
      Times3(67, u, r.y);
      Times3(50, v, w);
    }
  }

  lemma OneNear(t: Pair, u: int, w: int)
    requires Odd(t.y) && Near(t.delta, u * t.x, u * t.y, w)
    ensures var r := Step(t); Near(r.delta, 67 * (u * r.x), 67 * (u * r.y), 50 * w)
  {
    hide Near, Step, Odd;
    StepExact(t);
    StepY(t);
    StepDelta(t);
    var r := Step(t);
    ScaledHalf(u, t.x, t.y, r.x, if t.Swaps() then -1 else if Odd(t.x) then 1 else 0);
    StepNear(t.delta, u * t.x, u * t.y, w, u * r.x, Odd(t.x));
  }

  lemma StepDelta(t: Pair)
    ensures Step(t).delta == if t.Swaps() then -t.delta else t.delta + 1
  {
  }

  lemma ScaledHalf(u: int, x: int, y: int, h: int, c: int)
    requires -1 <= c <= 1 && 2 * h == x + c * y
    ensures 2 * (u * h) == u * x + c * (u * y)
  {
    assert u * (2 * h) == 2 * (u * h);
    Distribute(u, x, c * y);
    Swapped(c, u, y);
  }

  // ---- the end -----------------------------------------------------------------------------------------

  /** A pair that is not zero keeps its polygon from being small. */
  lemma NearBig(d: int, x: int, y: int, w: int)
    requires Near(d, x, y, w)
    ensures d >= 0 ==> 100 * Abs(x) <= w
    ensures d < 0 ==> 100 * Abs(y) <= w
  {
    hide Pow, Minus3, Plus3;
    if d >= 3 {
      BeyondPlus(d, x, y, w);
    } else if d <= -3 {
      BeyondMinus(d, x, y, w);
    }
  }

  lemma BeyondPlus(d: int, x: int, y: int, w: int)
    requires d >= 3 && Near(d, x, y, w)
    ensures 100 * Abs(x) <= w
  {
    hide Pow;
    var k := d - 3;
    TooLarge(Pow(16, k), x, Pow(11, k), w, k) by { PlusBig(Pow(16, k) * x, Pow(8, k) * y, Pow(11, k) * w); }
  }

  lemma BeyondMinus(d: int, x: int, y: int, w: int)
    requires d <= -3 && Near(d, x, y, w)
    ensures 100 * Abs(y) <= w
  {
    hide Pow;
    var k := -3 - d;
    TooLarge(Pow(16, k), y, Pow(11, k), w, k) by { MinusBig(Pow(8, k) * x, Pow(16, k) * y, Pow(11, k) * w); }
  }

  lemma PlusBig(x: int, y: int, w: int)
    requires Plus3(x, y, w)
    ensures -w <= 100 * x <= w
  {
  }

  lemma MinusBig(x: int, y: int, w: int)
    requires Minus3(x, y, w)
    ensures -w <= 100 * y <= w
  {
  }

  lemma TooLarge(a: int, x: int, c: int, w: int, k: nat)
    requires a == Pow(16, k) && c == Pow(11, k) && -(c * w) <= 100 * (a * x) <= c * w
    ensures 100 * Abs(x) <= w
  {
    hide Pow;
    PowPositive(11, k);
    PowMono(11, 16, k);
    var n := Abs(x);
    assert a * n == a * x || a * n == -(a * x);
    MulLe(c, a, n);
    assert c * (100 * n) == 100 * (c * n);
    if 100 * n > w {
      Distribute(c, 100 * n, w);
      AtLeast(c, 100 * n - w);
    }
  }

  lemma {:induction false} PowMono(a: nat, b: nat, k: nat)
    requires a <= b
    ensures 0 <= Pow(a, k) <= Pow(b, k)
    decreases k
  {
    if k > 0 {
      PowMono(a, b, k - 1);
      MulLe(Pow(a, k - 1), Pow(b, k - 1), a);
      MulLe(a, b, Pow(b, k - 1));
    }
  }

  lemma StartNear(x: int, y: int, m: nat)
    requires Abs(x) <= m && Abs(y) <= m
    ensures Near(0, x, y, 364 * m)
  {
  }

  // ---- enough steps ------------------------------------------------------------------------------------

  lemma Ninth()
    ensures Pow(67, 9) == 27206534396294947 && Pow(50, 9) == 1953125000000000
  {
    assert Pow(67, 1) == 67 && Pow(67, 3) == 300763;
    assert Pow(50, 1) == 50 && Pow(50, 3) == 125000;
    PowPow(67, 3, 3);
    PowPow(50, 3, 3);
    Cube(300763);
    Cube(125000);
  }

  lemma Cube(a: int)
    ensures Pow(a, 3) == a * a * a
  {
    assert Pow(a, 1) == a && Pow(a, 2) == a * a;
  }

  lemma Fifth(a: int)
    ensures Pow(a, 5) == a * a * a * (a * a)
  {
    hide Pow;
    Cube(a);
    PowAdd(a, 3, 2);
    PowSquare(a, 1);
    First(a);
  }

  lemma First(a: int)
    ensures Pow(a, 1) == a
  {
  }

  lemma Nineteen()
    ensures Pow2(19) == 0x8_0000
  {
    assert Pow2(9) == 512 && Pow2(10) == 1024;
    Pow2Add(9, 10);
  }

  /** In forty-five steps nineteen bits are gained. */
  lemma FortyFive()
    ensures Pow2(19) * Pow(50, 45) <= Pow(67, 45)
  {
    hide Pow, Pow2;
    Nineteen();
    Ninth();
    PowPow(67, 9, 5);
    PowPow(50, 9, 5);
    Fifth(27206534396294947);
    Fifth(1953125000000000);
  }

  lemma {:induction false} Pow2Many(a: nat, n: nat)
    ensures Pow(Pow2(a), n) == Pow2(a * n)
    decreases n
  {
    if n > 0 {
      Pow2Many(a, n - 1);
      Pow2Add(a, a * (n - 1));
      assert a + a * (n - 1) == a * n;
    }
  }

  lemma Growth(n: nat)
    ensures Pow2(19 * n) * Pow(50, 45 * n) <= Pow(67, 45 * n)
  {
    hide Pow, Pow2;
    FortyFive();
    PowPositive(50, 45);
    PowPositive(67, 45);
    var a, b, c := Pow2(19), Pow(50, 45), Pow(67, 45);
    PositiveTimes(a, b);
    PowMono(a * b, c, n);
    PowTimes(a, b, n);
    Pow2Many(19, n);
    PowPow(50, 45, n);
    PowPow(67, 45, n);
  }

  lemma PositiveTimes(a: nat, b: nat)
    ensures a * b >= 0
  {
  }

  /** A pair of numbers of at most bits bits is at x = 0 after 45 n steps, if 19 n is four more than bits. */
  lemma ReachesZero(s: Pair, bits: nat, n: nat)
    requires Odd(s.y) && s.delta == 0 && Abs(s.x) <= Pow2(bits) && Abs(s.y) <= Pow2(bits) && 19 * n >= bits + 4
    ensures Steps(s, 45 * n).x == 0
  {
    hide Near, Steps, Step, Pow, Pow2, Odd;
    var m, k := Pow2(bits), 45 * n;
    var t, u, v := Steps(s, k), Pow(67, k), Pow(50, k);
    StartNear(s.x, s.y, m);
    StepsNear(s, 364 * m, k);
    NearBig(t.delta, u * t.x, u * t.y, v * (364 * m));
    PowPositive(67, k);
    PowPositive(50, k);
    StepsOdd(s, k);
    NotZeroOdd(t.y);
    if t.x != 0 {
      AtLeastScale(u, t.x);
      AtLeastScale(u, t.y);
      Growth(n);
      MoreBits(bits, 19 * n);
      Crowded(u, v, m, Pow2(19 * n));
      assert false;
    }
  }

  lemma AtLeastScale(u: nat, x: int)
    requires x != 0
    ensures Abs(u * x) >= u
  {
    if x > 0 {
      AtLeast(u, x);
    } else {
      AtLeast(u, -x);
      assert u * x == -(u * -x);
    }
  }

  lemma MoreBits(bits: nat, n: nat)
    requires n >= bits + 4
    ensures Pow2(n) >= 16 * Pow2(bits) && Pow2(bits) > 0
  {
    assert Pow2(4) == 16;
    hide Pow2;
    Pow2Add(4, bits);
    Pow2Add(bits + 4, n - bits - 4);
    MulLe(1, Pow2(n - bits - 4), Pow2(bits + 4));
  }

  lemma Crowded(u: nat, v: nat, m: nat, p: nat)
    requires v > 0 && m > 0 && p >= 16 * m && p * v <= u
    ensures 100 * u > v * (364 * m)
  {
    MulLe(16 * m, p, v);
    var t := m * v;
    assert t > 0 by { AtLeast(m, v); }
    assert 16 * m * v == 16 * t && v * (364 * m) == 364 * t;
  }

  // ---- where the steps end -------------------------------------------------------------------------------

  /** What divides both numbers after a step divides both before it. */
  lemma StepDividesBack(d: nat, s: Pair)
    requires d > 0 && Odd(s.y) && Div(d, Step(s).x) && Div(d, Step(s).y)
    ensures Div(d, s.x) && Div(d, s.y)
  {
    hide Div, Step, Odd;
    StepExact(s);
    StepY(s);
    var r := Step(s);
    DivMul(d, r.x, 2);
    DivAdd(d, r.x * 2, r.y);
    DivAdd(d, r.y, r.x * 2);
  }

  lemma {:induction false} StepsDivideBack(d: nat, s: Pair, k: nat)
    requires d > 0 && Odd(s.y) && Div(d, Steps(s, k).x) && Div(d, Steps(s, k).y)
    ensures Div(d, s.x) && Div(d, s.y)
    decreases k
  {
    if k > 0 {
      hide Odd, Div, Step;
      StepsOdd(s, k - 1);
      StepDividesBack(d, Steps(s, k - 1));
      StepsDivideBack(d, s, k - 1);
    }
  }

  /** Coprime numbers of at most bits bits end at 1 or -1. */
  lemma CoprimeEnds(s: Pair, bits: nat, n: nat)
    requires Odd(s.y) && s.y > 0 && s.delta == 0 && Abs(s.x) <= Pow2(bits) && s.y <= Pow2(bits) && 19 * n >= bits + 4
    requires Coprime(s.x, s.y)
    ensures Abs(Steps(s, 45 * n).y) == 1
  {
    hide Steps, Step, Pow2, Odd, Coprime;
    ReachesZero(s, bits, n);
    var t := Steps(s, 45 * n);
    StepsOdd(s, 45 * n);
    NotZeroOdd(t.y);
    var d := Abs(t.y);
    OwnDivisor(t.y);
    ZeroDivides(d);
    StepsDivideBack(d, s, 45 * n);
    CommonIsOne(d, s.x, s.y);
  }

  lemma OwnDivisor(y: int)
    requires y != 0
    ensures Div(Abs(y), y)
  {
    DivBy(Abs(y), if y < 0 then -1 else 1);
  }

  lemma ZeroDivides(d: nat)
    requires d > 0
    ensures Div(d, 0)
  {
  }

  lemma CommonIsOne(d: nat, x: int, y: nat)
    requires d > 0 && y > 0 && Div(d, x) && Div(d, y) && Coprime(x, y)
    ensures d == 1
  {
    var t: int :| Cong(x * t, 1, y);
    hide Div;
    DivTrans(d, y, x * t - 1);
    DivMul(d, x, t);
    DivAdd(d, x * t, x * t - 1);
    DivTooBig(d, 1);
  }
}
