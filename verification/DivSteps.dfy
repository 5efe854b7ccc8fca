/**
 The division steps under the constant-time Jacobi symbol of
 crypto/bn/bn_prime.c: batches of sixty steps on the low bits stand for sixty
 steps on the whole numbers, and the bits collected on the way are the symbol.
 */
module DivSteps {
  import opened Primes
  import opened QuadRing
  import opened LucasTheory
  import opened Montgomery
  import opened CtGcd
  import opened JacobiSymbol

  predicate Odd(x: int) {
    x % 2 == 1
  }

  datatype Pair = Pair(x: int, y: int, delta: int) {
    predicate Swaps() {
      delta >= 0 && Odd(x)
    }
  }

  /** One division step on whole numbers. */
  function Step(s: Pair): (t: Pair) {
    if s.Swaps() then Pair((s.x - s.y) / 2, s.x, -s.delta)
    else if Odd(s.x) then Pair((s.x + s.y) / 2, s.y, 1 + s.delta)
    else Pair(s.x / 2, s.y, 1 + s.delta)
  }

  function Steps(s: Pair, k: nat): Pair {
    if k == 0 then s else Step(Steps(s, k - 1))
  }

  lemma HalfOfSum(x: int, y: int)
    requires Odd(x) && Odd(y)
    ensures 2 * ((x + y) / 2) == x + y && 2 * ((x - y) / 2) == x - y
  {
    var a, b := x / 2, y / 2;
    assert x == 2 * a + 1 && y == 2 * b + 1;
    assert x + y == 2 * (a + b + 1) && x - y == 2 * (a - b);
  }

  /** y stays odd, and the division by two is exact. */
  lemma StepExact(s: Pair)
    requires Odd(s.y)
    ensures var t := Step(s);
            && Odd(t.y)
            && 2 * t.x == s.x + (if s.Swaps() then -s.y else if Odd(s.x) then s.y else 0)
  {
    if Odd(s.x) { HalfOfSum(s.x, s.y); } else { EvenHalf(s.x); }
  }

  lemma EvenHalf(x: int)
    requires !Odd(x)
    ensures 2 * (x / 2) == x
  {
  }

  lemma {:induction false} StepsOdd(s: Pair, k: nat)
    requires Odd(s.y)
    ensures Odd(Steps(s, k).y)
    decreases k
  {
    if k > 0 {
      hide Odd, Step;
      StepsOdd(s, k - 1);
      StepExact(Steps(s, k - 1));
    }
  }

  // ---- low bits --------------------------------------------------------------------------

  /** The two pairs take the same decisions as far as n low bits tell. */
  predicate SameLow(s: Pair, t: Pair, n: nat) {
    s.delta == t.delta && Cong(s.x, t.x, Pow2(n)) && Cong(s.y, t.y, Pow2(n))
  }

  lemma LowerBits(x: int, y: int, n: nat)
    requires Cong(x, y, Pow2(n + 1))
    ensures Cong(x, y, Pow2(n))
  {
    var k := Witness(Pow2(n + 1), x - y);
    DivBy(Pow2(n), 2 * k);
    assert Pow2(n + 1) == 2 * Pow2(n);
    assert Pow2(n) * (2 * k) == 2 * Pow2(n) * k;
  }

  lemma HalfBits(x: int, y: int, n: nat)
    requires Cong(2 * x, 2 * y, Pow2(n + 1))
    ensures Cong(x, y, Pow2(n))
  {
    var k := Witness(Pow2(n + 1), 2 * x - 2 * y);
    assert Pow2(n + 1) == 2 * Pow2(n);
    assert 2 * (x - y) == 2 * (Pow2(n) * k);
    DivBy(Pow2(n), k);
  }

  lemma SameParity(x: int, y: int, n: nat)
    requires Cong(x, y, Pow2(n + 1))
    ensures Odd(x) == Odd(y)
  {
    var k := Witness(Pow2(n + 1), x - y);
    assert Pow2(n + 1) == 2 * Pow2(n);
    var h := Pow2(n) * k;
    assert x == y + 2 * h;
    hide Pow2;
    Shifted(y, h, 2);
  }

  /** A step loses one low bit. */
  lemma StepLow(s: Pair, t: Pair, n: nat)
    requires Odd(s.y) && Odd(t.y) && SameLow(s, t, n + 1)
    ensures SameLow(Step(s), Step(t), n) && s.Swaps() == t.Swaps() && Odd(s.x) == Odd(t.x)
    ensures Cong(Step(s).y, Step(t).y, Pow2(n + 1))
  {
    SameParity(s.x, t.x, n);
    StepExact(s);
    StepExact(t);
    var m := Pow2(n + 1);
    hide Odd, Pow2, Cong;
    LowerBits(s.x, t.x, n);
    LowerBits(s.y, t.y, n);
    CongAdd(s.x, t.x, s.y, t.y, m);
    HalfBits(Step(s).x, Step(t).x, n);
  }

  lemma {:induction false} StepsLow(s: Pair, t: Pair, n: nat, k: nat)
    requires Odd(s.y) && Odd(t.y) && k <= n && SameLow(s, t, n)
    ensures SameLow(Steps(s, k), Steps(t, k), n - k)
    decreases k
  {
    if k > 0 {
      hide Odd, Step, SameLow;
      StepsLow(s, t, n, k - 1);
      StepsOdd(s, k - 1);
      StepsOdd(t, k - 1);
      StepLow(Steps(s, k - 1), Steps(t, k - 1), n - k);
    }
  }

  // ---- the matrix of a batch ---------------------------------------------------------------

  datatype Matrix = Matrix(a: int, b: int, c: int, d: int)

  function MatrixStep(m: Matrix, swap: bool, odd: bool): Matrix {
    if swap then Matrix(m.a - m.c, m.b - m.d, 2 * m.a, 2 * m.b)
    else if odd then Matrix(m.a + m.c, m.b + m.d, 2 * m.c, 2 * m.d)
    else Matrix(m.a, m.b, 2 * m.c, 2 * m.d)
  }

  /** The matrix, applied to the start, gives the current pair scaled by 2^k. */
  ghost predicate Applies(m: Matrix, s: Pair, t: Pair, k: nat) {
    && m.a * s.x + m.b * s.y == Pow2(k) * t.x
    && m.c * s.x + m.d * s.y == Pow2(k) * t.y
  }

  lemma AppliesStep(m: Matrix, s: Pair, t: Pair, k: nat)
    requires Odd(t.y) && Applies(m, s, t, k)
    ensures Applies(MatrixStep(m, t.Swaps(), Odd(t.x)), s, Step(t), k + 1)
  {
    hide Odd, Pow2, Step;
    StepExact(t);
    StepY(t);
    Pow2Next(k);
    var p, u := Pow2(k), Step(t);
    if t.Swaps() {
      RowSum(m.a, m.b, m.c, m.d, s.x, s.y, p, t.x, t.y, u.x, -1);
      RowTwice(m.a, m.b, s.x, s.y, p, t.x);
    } else {
      RowSum(m.a, m.b, m.c, m.d, s.x, s.y, p, t.x, t.y, u.x, if Odd(t.x) then 1 else 0);
      RowTwice(m.c, m.d, s.x, s.y, p, t.y);
    }
  }

  lemma Pow2Next(k: nat)
    ensures Pow2(k + 1) == 2 * Pow2(k)
  {
  }

  lemma RowSum(a: int, b: int, c: int, d: int, x: int, y: int, p: int, tx: int, ty: int, ux: int, sign: int)
    requires a * x + b * y == p * tx && c * x + d * y == p * ty
    requires 2 * ux == tx + sign * ty && -1 <= sign <= 1
    ensures (a + sign * c) * x + (b + sign * d) * y == 2 * p * ux
  {
    SumTimes(a, sign * c, x);
    SumTimes(b, sign * d, y);
    Times3(sign, c, x);
    Times3(sign, d, y);
    Distribute(sign, c * x, d * y);
    Distribute(p, tx, sign * ty);
    assert p * (sign * ty) == sign * (p * ty);
    assert 2 * p * ux == p * (2 * ux);
  }

  lemma RowTwice(a: int, b: int, x: int, y: int, p: int, tx: int)
    requires a * x + b * y == p * tx
    ensures 2 * a * x + 2 * b * y == 2 * p * tx
  {
    Times3(2, a, x);
    Times3(2, b, y);
    Times3(2, p, tx);
  }

  lemma StepY(t: Pair)
    ensures Step(t).y == if t.Swaps() then t.x else t.y
  {
  }

  function Abs(x: int): nat {
    if x < 0 then -x else x
  }

  /** The entries fit in k + 1 bits each. */
  predicate Small(m: Matrix, k: nat) {
    Abs(m.a) + Abs(m.b) <= Pow2(k) && Abs(m.c) + Abs(m.d) <= Pow2(k)
  }

  lemma SmallStep(m: Matrix, swap: bool, odd: bool, k: nat)
    requires Small(m, k)
    ensures Small(MatrixStep(m, swap, odd), k + 1)
  {
    assert Pow2(k + 1) == 2 * Pow2(k);
  }

  lemma StepBound(s: Pair, bound: nat)
    requires Odd(s.y) && Abs(s.x) <= bound && Abs(s.y) <= bound
    ensures Abs(Step(s).x) <= bound && Abs(Step(s).y) <= bound
  {
    StepExact(s);
    StepY(s);
  }

  /** The low and the whole numbers decide alike at step i of a batch. */
  lemma BatchStep(low: Pair, s: Pair, n: nat, i: nat)
    requires Odd(low.y) && Odd(s.y) && i < n && SameLow(low, s, n)
    ensures var l, t := Steps(low, i), Steps(s, i);
            && Odd(l.y) && Odd(t.y) && l.Swaps() == t.Swaps() && Odd(l.x) == Odd(t.x) && l.delta == t.delta
            && Cong(l.y, t.y, Pow2(n - i)) && Cong(Step(l).y, Step(t).y, Pow2(n - i))
  {
    hide Odd, Step, Cong, Pow2;
    StepsLow(low, s, n, i);
    StepsOdd(low, i);
    StepsOdd(s, i);
    StepLow(Steps(low, i), Steps(s, i), n - i - 1);
  }

  // ---- the symbol bits --------------------------------------------------------------------

  function Bit(x: int, k: nat): bool {
    x / Pow2(k) % 2 == 1
  }

  /** Whether a step from y to y' flips the symbol, signs left aside. */
  predicate Flips(y: int, y': int) {
    (Bit(y, 1) && Bit(y', 1)) != Bit(y', 2)
  }

  /** A step adds two for a flip, and one when the sign it tracks changes. */
  function SymbolBits(u: nat, flips: bool, negative: bool): (v: nat)
    ensures v < 4
  {
    var u1 := u + if flips then 2 else 0;
    var u2 := u1 + if (u1 % 2 == 1) != negative then 1 else 0;
    u2 % 4
  }

  /** The bits after k steps on whole numbers that track the sign of y. */
  function Track(s: Pair, t: nat, k: nat): (v: nat)
    requires t < 4
    ensures v < 4
  {
    if k == 0 then t
    else
      var before, after := Steps(s, k - 1).y, Steps(s, k).y;
      SymbolBits(Track(s, t, k - 1), Flips(before, after), after < 0)
  }

  /** What the bits say, once a negative y is accounted for. */
  function BitsValue(t: nat): int {
    1 - (t + t % 2) % 4
  }

  /** The low bit is the sign of y. */
  predicate TracksSign(t: nat, y: int) {
    t < 4 && (t % 2 == 1 <==> y < 0)
  }

  ghost function SymbolOf(s: Pair): int
    requires Odd(s.y)
  {
    OddAbs(s.y);
    Jacobi(s.x, Abs(s.y))
  }

  lemma OddAbs(y: int)
    requires Odd(y)
    ensures Odd(Abs(y))
  {
    var k := y / 2;
    assert y == 2 * k + 1;
    if y < 0 {
      assert -y == 2 * (-k - 1) + 1;
      Mod2(-y, -k - 1, 1);
    }
  }

  lemma Residue8(y: int)
    requires Odd(y)
    ensures y % 8 == 1 || y % 8 == 3 || y % 8 == 5 || y % 8 == 7
    ensures Bit(y, 1) <==> y % 8 == 3 || y % 8 == 7
    ensures Bit(y, 2) <==> y % 8 == 5 || y % 8 == 7
    ensures Abs(y) % 8 == if y < 0 then 8 - y % 8 else y % 8
    ensures Abs(y) % 4 == 3 <==> Abs(y) % 8 == 3 || Abs(y) % 8 == 7
  {
    var q, r := y / 8, y % 8;
    assert y == 8 * q + r && 0 <= r < 8;
    assert Pow2(1) == 2 && Pow2(2) == 4;
    OddRest(y, q, r);
    SplitHalf(y, q, r);
    if y < 0 {
      RestOf8(-y, -q - 1, 8 - r);
    } else {
      RestOf8(y, q, r);
    }
  }

  lemma OddRest(y: int, q: int, r: int)
    requires y % 2 == 1 && y == 8 * q + r && 0 <= r < 8
    ensures r == 1 || r == 3 || r == 5 || r == 7
  {
    Shifted(r, 4 * q, 2);
  }

  lemma SplitHalf(y: int, q: int, r: int)
    requires y == 8 * q + r && (r == 1 || r == 3 || r == 5 || r == 7)
    ensures y / 2 % 2 == 1 <==> r == 3 || r == 7
    ensures y / 4 % 2 == 1 <==> r == 5 || r == 7
  {
    assert y / 2 == 4 * q + r / 2;
    assert y / 4 == 2 * q + r / 4;
  }

  lemma RestOf8(x: nat, q: int, r: nat)
    requires x == 8 * q + r && (r == 1 || r == 3 || r == 5 || r == 7)
    ensures x % 8 == r && (x % 4 == 3 <==> r == 3 || r == 7)
  {
    if r < 4 { Mod4(x, 2 * q, r); } else { Mod4(x, 2 * q + 1, r - 4); }
  }

  lemma HalfCong(x: int, x': int, y: int, k: int)
    requires Odd(y) && 2 * x' == x + k * y
    ensures Cong(x, 2 * x', Abs(y))
  {
    var n := Abs(y);
    var c := if y < 0 then k else -k;
    DivBy(n, c);
    assert x - 2 * x' == n * c;
  }

  /** A step that keeps y takes out the symbol of 2. */
  lemma KeepSymbol(x: int, x': int, y: int, k: int)
    requires Odd(y) && 2 * x' == x + k * y
    ensures Odd(Abs(y)) && Jacobi(x, Abs(y)) == (if Flips(y, y) then -1 else 1) * Jacobi(x', Abs(y))
  {
    hide Jacobi, Cong, Bit;
    OddAbs(y);
    HalfCong(x, x', y, k);
    JacobiCong(x, 2 * x', Abs(y));
    JacobiTwo(x', Abs(y));
    Residue8(y);
  }

  /** -1 for n that is 3 modulo 4. */
  function MinusSign(n: nat): int {
    if n % 4 == 3 then -1 else 1
  }

  lemma JacobiAbs(x: int, n: nat)
    requires Odd(n)
    ensures Jacobi(x, n) == (if x < 0 then MinusSign(n) else 1) * Jacobi(Abs(x), n)
  {
    hide Jacobi, Alt;
    if x < 0 {
      JacobiNeg(Abs(x), n);
      HalfParity(n);
    }
  }

  /** A step that exchanges the numbers: reciprocity, the symbols of -1 and 2, and the signs. */
  lemma SwapSymbol(x: int, x': int, y: int)
    requires Odd(x) && Odd(y) && 2 * x' == x - y
    ensures Odd(Abs(x)) && Odd(Abs(y))
    ensures Jacobi(x, Abs(y))
         == (if Flips(y, x) then -1 else 1) * (if y >= 0 && x < 0 then -1 else 1) * Jacobi(x', Abs(x))
  {
    hide Jacobi, Cong, Bit;
    OddAbs(x);
    OddAbs(y);
    var m, n := Abs(x), Abs(y);
    JacobiAbs(x, n);
    JacobiSwap(m, n);
    JacobiAbs(y, m);
    assert 2 * -x' == y + -1 * x;
    HalfCong(y, -x', x, -1);
    JacobiCong(y, 2 * -x', m);
    JacobiTwo(-x', m);
    JacobiNeg(x', m);
    HalfParity(m);
    Residue8(x);
    Residue8(y);
    SwapSigns(x, y, m, n);
    var j := Jacobi(x', m);
    FactorsOnce(if x < 0 then MinusSign(n) else 1, FlipSign(m, n), if y < 0 then MinusSign(m) else 1,
                TwoSign(m), MinusSign(m), Jacobi(n, m), Jacobi(y, m), j);
  }

  lemma FactorsOnce(a: int, f: int, b: int, t: int, e: int, jn: int, jy: int, j: int)
    requires (b == 1 || b == -1) && jy == b * jn && jy == t * (e * j)
    ensures a * (f * jn) == a * f * b * t * e * j
  {
    assert jn == b * jy;
    assert a * (f * (b * (t * (e * j)))) == a * f * b * t * e * j;
  }

  lemma SwapSigns(x: int, y: int, m: nat, n: nat)
    requires Odd(x) && Odd(y) && m == Abs(x) && n == Abs(y)
    ensures (if x < 0 then MinusSign(n) else 1) * FlipSign(m, n) * (if y < 0 then MinusSign(m) else 1)
            * TwoSign(m) * MinusSign(m)
         == (if Flips(y, x) then -1 else 1) * (if y >= 0 && x < 0 then -1 else 1)
  {
    Residue8(x);
    Residue8(y);
    hide Bit, Odd;
  }

  lemma BitsCases(t: nat, flips: bool, before: int, after: int)
    requires TracksSign(t, before)
    ensures var v := SymbolBits(t, flips, after < 0);
            && TracksSign(v, after)
            && BitsValue(v) == BitsValue(t) * (if flips then -1 else 1) * (if before >= 0 && after < 0 then -1 else 1)
  {
    hide SymbolBits, BitsValue;
    BitsNext(t, flips, after < 0);
    BitsAre(t);
    BitsAre(SymbolBits(t, flips, after < 0));
  }

  lemma BitsAre(t: nat)
    requires t < 4
    ensures BitsValue(t) == if t == 0 || t == 3 then 1 else -1
  {
  }

  /** One step keeps the product of what the bits say and the symbol of the pair. */
  lemma StepSymbol(s: Pair, t: nat)
    requires Odd(s.y) && TracksSign(t, s.y)
    ensures var r := Step(s);
            var v := SymbolBits(t, Flips(s.y, r.y), r.y < 0);
            Odd(r.y) && TracksSign(v, r.y) && BitsValue(t) * SymbolOf(s) == BitsValue(v) * SymbolOf(r)
  {
    hide Jacobi, Bit, Step, SymbolBits, BitsValue, Flips, Odd;
    StepExact(s);
    StepY(s);
    var r := Step(s);
    BitsCases(t, Flips(s.y, r.y), s.y, r.y);
    if s.Swaps() {
      SwapSymbol(s.x, r.x, s.y);
    } else {
      KeepSymbol(s.x, r.x, s.y, if Odd(s.x) then 1 else 0);
    }
    var f, g := if Flips(s.y, r.y) then -1 else 1, if s.y >= 0 && r.y < 0 then -1 else 1;
    SignsCancel(BitsValue(t), f, g, SymbolOf(r));
  }

  lemma SignsCancel(b: int, f: int, g: int, j: int)
    requires (f == 1 || f == -1) && (g == 1 || g == -1)
    ensures b * (f * g * j) == b * f * g * j && b * (f * j) == b * f * j
  {
  }

  /** Over any number of steps. */
  lemma {:induction false} TrackSymbol(s: Pair, t: nat, k: nat)
    requires Odd(s.y) && TracksSign(t, s.y)
    ensures var r, v := Steps(s, k), Track(s, t, k);
            Odd(r.y) && TracksSign(v, r.y) && BitsValue(t) * SymbolOf(s) == BitsValue(v) * SymbolOf(r)
    decreases k
  {
    hide SymbolOf, BitsValue, Step, SymbolBits, Flips, Odd;
    if k > 0 {
      TrackSymbol(s, t, k - 1);
      StepSymbol(Steps(s, k - 1), Track(s, t, k - 1));
    }
  }

  lemma {:induction false} TrackAdd(s: Pair, t: nat, j: nat, k: nat)
    requires t < 4
    ensures Track(Steps(s, j), Track(s, t, j), k) == Track(s, t, j + k)
    decreases k
  {
    hide SymbolBits, Flips, Step;
    if k > 0 {
      TrackAdd(s, t, j, k - 1);
      StepsAdd(s, j, k - 1);
      StepsAdd(s, j, k);
    }
  }

  // ---- the sign inside a batch --------------------------------------------------------------

  /** The entries of the first column give back the y the batch began with. */
  ghost predicate Recovers(m: Matrix, t: Pair, y0: int) {
    m.a * t.y - m.c * t.x == y0
  }

  lemma RecoversStep(m: Matrix, t: Pair, y0: int)
    requires Odd(t.y) && Recovers(m, t, y0)
    ensures Recovers(MatrixStep(m, t.Swaps(), Odd(t.x)), Step(t), y0)
  {
    hide Odd, Step;
    StepExact(t);
    StepY(t);
    var u := Step(t);
    Times3(2, m.a, u.x);
    Times3(2, m.c, u.x);
    if t.Swaps() {
      assert 2 * m.a * u.x == m.a * (2 * u.x);
      Distribute(m.a, t.x, t.y);
      SumTimes(m.a, -m.c, t.x);
    } else if Odd(t.x) {
      assert 2 * m.c * u.x == m.c * (2 * u.x);
      Distribute(m.c, t.x, t.y);
      SumTimes(m.a, m.c, t.y);
    } else {
      assert 2 * m.c * u.x == m.c * (2 * u.x);
    }
  }

  /** Whether the sign of c, the true sign and the sign at the start differ an odd number of times. */
  predicate Behind(y0: int, c: int, y: int) {
    ((y0 < 0) != (c < 0)) != (y < 0)
  }

  lemma SignOfProduct(a: int, y: int)
    ensures a > 0 && y > 0 ==> a * y > 0
    ensures a < 0 && y < 0 ==> a * y > 0
    ensures a > 0 && y < 0 ==> a * y < 0
    ensures a < 0 && y > 0 ==> a * y < 0
    ensures a == 0 ==> a * y == 0
  {
    if a < 0 { assert a * y == -(-a * y); }
  }

  /** The true sign is never more than one change ahead of the sign of c, and never behind. */
  lemma SignsInterlace(a: int, c: int, x: int, y: int, y0: int)
    requires a * y - c * x == y0 && x != 0 && y != 0 && y0 != 0
    ensures (c < 0) != (a < 0) && (y < 0) == (x < 0) ==> Behind(y0, c, y)
    ensures (c < 0) == (a < 0) && (y < 0) != (x < 0) ==> !Behind(y0, c, y)
  {
    SignOfProduct(a, y);
    SignOfProduct(c, x);
  }

  /** The bits collected with the sign of c, corrected by the true sign, are the bits of the whole numbers. */
  ghost predicate Corrected(t0: nat, u: nat, y0: int, c: int, y: int, t: nat) {
    && (u % 2 == 1 <==> c < 0)
    && t == (t0 + u + if Behind(y0, c, y) then 1 else 0) % 4
  }

  lemma CorrectedStep(t0: nat, u: nat, y0: int, m: Matrix, s: Pair, t: nat, flips: bool)
    requires Odd(s.y) && Odd(y0) && t0 < 4 && u < 4 && TracksSign(t, s.y)
    requires Recovers(m, s, y0) && Corrected(t0, u, y0, m.c, s.y, t)
    ensures var c, r := MatrixStep(m, s.Swaps(), Odd(s.x)).c, Step(s);
            Corrected(t0, SymbolBits(u, flips, c < 0), y0, c, r.y, SymbolBits(t, flips, r.y < 0))
  {
    StepY(s);
    if s.Swaps() {
      NotZeroOdd(s.x);
      NotZeroOdd(s.y);
      NotZeroOdd(y0);
      SignsInterlace(m.a, m.c, s.x, s.y, y0);
      CorrectedCases(t0, u, y0, m.c, 2 * m.a, s.y, s.x, t, flips);
    } else {
      CorrectedCases(t0, u, y0, m.c, 2 * m.c, s.y, s.y, t, flips);
    }
  }

  lemma NotZeroOdd(x: int)
    requires Odd(x)
    ensures x != 0
  {
  }

  lemma CorrectedCases(t0: nat, u: nat, y0: int, c: int, c': int, y: int, y': int, t: nat, flips: bool)
    requires t0 < 4 && u < 4 && TracksSign(t, y) && Corrected(t0, u, y0, c, y, t)
    requires (c < 0) != (c' < 0) && (y < 0) == (y' < 0) ==> Behind(y0, c, y)
    requires (c < 0) == (c' < 0) && (y < 0) != (y' < 0) ==> !Behind(y0, c, y)
    ensures Corrected(t0, SymbolBits(u, flips, c' < 0), y0, c', y', SymbolBits(t, flips, y' < 0))
  {
    var f := if flips then 2 else 0;
    var du, dt := if (c < 0) != (c' < 0) then 1 else 0, if (y < 0) != (y' < 0) then 1 else 0;
    var e, e' := if Behind(y0, c, y) then 1 else 0, if Behind(y0, c', y') then 1 else 0;
    assert e' + du == e + dt;
    BitsNext(u, flips, c' < 0);
    BitsNext(t, flips, y' < 0);
    SameMod4(t0 + u + e, f + dt, t0 + e', u + f + du);
  }

  lemma BitsNext(u: nat, flips: bool, negative: bool)
    requires u < 4
    ensures var v := SymbolBits(u, flips, negative);
            && v == (u + (if flips then 2 else 0) + (if (u % 2 == 1) != negative then 1 else 0)) % 4
            && (v % 2 == 1 <==> negative)
  {
    assert u == 0 || u == 1 || u == 2 || u == 3;
  }

  lemma SameMod4(a: nat, f: nat, b: nat, v: nat)
    requires a + f == b + v
    ensures (a % 4 + f) % 4 == (b + v % 4) % 4
  {
    Shifted(a % 4 + f, a / 4, 4);
    Shifted(b + v % 4, v / 4, 4);
  }

  lemma CorrectedStart(t0: nat, y: int)
    requires TracksSign(t0, y)
    ensures Corrected(t0, 0, y, 0, y, t0)
  {
  }

  /** The sign of y after a batch counts towards the symbol. */
  function WithSign(t: nat, y: int): (v: nat)
    ensures v < 4
  {
    (t + if (t % 2 == 1) != (y < 0) then 1 else 0) % 4
  }

  lemma CorrectedEnd(t0: nat, u: nat, y0: int, c: int, y: int, t: nat)
    requires TracksSign(t0, y0) && u < 4 && Corrected(t0, u, y0, c, y, t)
    ensures WithSign((t0 + u) % 4, y) == t
  {
    assert t0 == 0 || t0 == 1 || t0 == 2 || t0 == 3;
    assert u == 0 || u == 1 || u == 2 || u == 3;
  }

  lemma SameBits(y: int, y': int, n: nat)
    requires n >= 3 && Cong(y, y', Pow2(n))
    ensures Bit(y, 1) == Bit(y', 1) && Bit(y, 2) == Bit(y', 2)
  {
    hide Pow2;
    var k := Witness(Pow2(n), y - y');
    var p := Pow2(n - 3);
    Pow2Add(3, n - 3);
    SmallPowers();
    Times3(8, p, k);
    BitsAway(y', p * k);
  }

  lemma SmallPowers()
    ensures Pow2(1) == 2 && Pow2(2) == 4 && Pow2(3) == 8
  {
  }

  lemma BitsAway(y: int, h: int)
    ensures (y + 8 * h) / 2 % 2 == y / 2 % 2 && (y + 8 * h) / 4 % 2 == y / 4 % 2
  {
    var a, b := y / 2, y / 4;
    assert (y + 8 * h) / 2 == a + 2 * (2 * h);
    assert (y + 8 * h) / 4 == b + 2 * h;
    Shifted(a, 2 * h, 2);
    Shifted(b, h, 2);
  }

  /** The values of a step on n low bits take n + 1 bits and a sign: 64 bits for batches of sixty. */
  ghost predicate InRange(x: int, n: nat) {
    Abs(x) < Pow2(n + 1)
  }

  /**
   batch_matrix on the batch + 2 low bits of s: every value stays in range, the matrix is
   the one of as many steps on the whole numbers, and the collected bits, once corrected
   by the sign of the new y, are those of the steps on the whole numbers.
   */
  method BatchMatrix(x0: int, y0: int, delta0: int, batch: nat, ghost s: Pair, ghost t0: nat)
    returns (m: Matrix, delta: int, u: nat)
    requires Odd(s.y) && Odd(y0) && Abs(x0) < Pow2(batch + 2) && Abs(y0) < Pow2(batch + 2)
    requires SameLow(Pair(x0, y0, delta0), s, batch + 2)
    requires TracksSign(t0, s.y)
    ensures delta == Steps(s, batch).delta && u < 4
    ensures Applies(m, s, Steps(s, batch), batch) && Small(m, batch)
    ensures WithSign((t0 + u) % 4, Steps(s, batch).y) == Track(s, t0, batch)
  {
    hide Odd, Step, Cong, Pow2, SameLow, Applies, Small, SymbolBits, Abs, MatrixStep, Recovers, Corrected,
         Flips, Track, WithSign;
    ghost var low := Pair(x0, y0, delta0);
    var x, y := x0, y0;
    delta, u, m := delta0, 0, Matrix(1, 0, 0, 1);
    MatrixStart(s);
    SameDelta(low, s, batch + 2);
    TrackStart(s, t0);
    for i := 0 to batch
      invariant Pair(x, y, delta) == Steps(low, i) && Odd(y) && u < 4
      invariant delta == Steps(s, i).delta
      invariant Applies(m, s, Steps(s, i), i) && Small(m, i)
      invariant Abs(x) < Pow2(batch + 2) && Abs(y) < Pow2(batch + 2)
      invariant Recovers(m, Steps(s, i), s.y)
      invariant Corrected(t0, u, s.y, m.c, Steps(s, i).y, Track(s, t0, i))
    {
      ghost var here, whole := Pair(x, y, delta), Steps(s, i);
      BatchStep(low, s, batch + 2, i);
      BatchSymbol(m, here, whole, s, t0, u, batch + 2 - i, i);
      AppliesStep(m, s, whole, i);
      RecoversStep(m, whole, s.y);
      StepsNext(s, i);
      StepsNext(low, i);
      var odd := Odd(x);
      var swap := delta >= 0 && odd;
      SmallStep(m, swap, odd, i);
      StepRange(here, batch + 2);
      NextDelta(here, whole);
      var before := y;
      var operand := if swap then -y else if odd then y else 0;
      NextPair(here, operand);
      delta := if swap then -delta else 1 + delta;
      y := if swap then x else y;
      x := (x + operand) / 2;
      m := MatrixStep(m, swap, odd);
      u := SymbolBits(u, Flips(before, y), m.c < 0);
    }
    CorrectedEnd(t0, u, s.y, m.c, Steps(s, batch).y, Track(s, t0, batch));
  }

  lemma TrackStart(s: Pair, t: nat)
    requires TracksSign(t, s.y)
    ensures Recovers(Matrix(1, 0, 0, 1), Steps(s, 0), s.y)
    ensures Corrected(t, 0, s.y, 0, Steps(s, 0).y, Track(s, t, 0))
  {
    CorrectedStart(t, s.y);
  }

  /** The bits of step i, collected on the low numbers, correct those of the whole numbers. */
  lemma BatchSymbol(m: Matrix, l: Pair, t: Pair, s: Pair, t0: nat, u: nat, n: nat, i: nat)
    requires n >= 3 && u < 4 && Odd(s.y) && TracksSign(t0, s.y)
    requires t == Steps(s, i) && l.Swaps() == t.Swaps() && Odd(l.x) == Odd(t.x)
    requires Cong(l.y, t.y, Pow2(n)) && Cong(Step(l).y, Step(t).y, Pow2(n))
    requires Recovers(m, t, s.y) && Corrected(t0, u, s.y, m.c, t.y, Track(s, t0, i))
    ensures var c := MatrixStep(m, l.Swaps(), Odd(l.x)).c;
            Corrected(t0, SymbolBits(u, Flips(l.y, Step(l).y), c < 0), s.y, c, Step(t).y, Track(s, t0, i + 1))
  {
    hide Odd, Step, Cong, Pow2, Recovers, Corrected, SymbolBits, Bit, BitsValue, SymbolOf, MatrixStep;
    SameBits(l.y, t.y, n);
    SameBits(Step(l).y, Step(t).y, n);
    TrackSymbol(s, t0, i);
    CorrectedStep(t0, u, s.y, m, t, Track(s, t0, i), Flips(t.y, Step(t).y));
    TrackNext(s, t0, i);
  }

  lemma TrackNext(s: Pair, t: nat, i: nat)
    requires t < 4
    ensures var here, next := Steps(s, i), Step(Steps(s, i));
            Track(s, t, i + 1) == SymbolBits(Track(s, t, i), Flips(here.y, next.y), next.y < 0)
  {
    hide Step, SymbolBits, Flips;
    StepsNext(s, i);
  }

  lemma StepsNext(s: Pair, i: nat)
    ensures Steps(s, i + 1) == Step(Steps(s, i))
  {
  }

  lemma MatrixStart(s: Pair)
    ensures Applies(Matrix(1, 0, 0, 1), s, Steps(s, 0), 0) && Small(Matrix(1, 0, 0, 1), 0)
  {
    assert Pow2(0) == 1;
  }

  lemma SameDelta(s: Pair, t: Pair, n: nat)
    requires SameLow(s, t, n)
    ensures s.delta == t.delta
  {
    hide Cong, Pow2;
  }

  lemma NextDelta(s: Pair, t: Pair)
    requires s.delta == t.delta && Odd(s.x) == Odd(t.x)
    ensures Step(s).delta == Step(t).delta
  {
    hide Odd;
  }

  lemma NextPair(s: Pair, operand: int)
    requires operand == if s.Swaps() then -s.y else if Odd(s.x) then s.y else 0
    ensures Step(s) == Pair((s.x + operand) / 2, if s.Swaps() then s.x else s.y,
                            if s.Swaps() then -s.delta else 1 + s.delta)
  {
    hide Odd;
  }

  lemma StepRange(s: Pair, n: nat)
    requires Odd(s.y) && Abs(s.x) < Pow2(n) && Abs(s.y) < Pow2(n)
    ensures Abs(Step(s).x) < Pow2(n) && Abs(Step(s).y) < Pow2(n) && Odd(Step(s).y)
    ensures InRange(s.x + s.y, n) && InRange(s.x - s.y, n)
  {
    hide Pow2, Step, Odd;
    Pow2Next(n);
    StepBound(s, Pow2(n) - 1);
    StepExact(s);
  }

  // ---- the symbol -----------------------------------------------------------------------------

  lemma {:induction false} StepsAdd(s: Pair, j: nat, k: nat)
    ensures Steps(Steps(s, j), k) == Steps(s, j + k)
    decreases k
  {
    if k > 0 { StepsAdd(s, j, k - 1); }
  }

  lemma {:induction false} StepsBound(s: Pair, k: nat, bound: nat)
    requires Odd(s.y) && Abs(s.x) <= bound && Abs(s.y) <= bound
    ensures Abs(Steps(s, k).x) <= bound && Abs(Steps(s, k).y) <= bound
    decreases k
  {
    if k > 0 {
      hide Odd, Step, Abs;
      StepsBound(s, k - 1, bound);
      StepsOdd(s, k - 1);
      StepBound(Steps(s, k - 1), bound);
    }
  }

  /** A row of the matrix applied to bounded numbers takes as many bits more as the batch has steps. */
  lemma RowFits(a: int, b: int, x: int, y: int, batch: nat, bound: nat)
    requires Abs(a) + Abs(b) <= Pow2(batch) && Abs(x) <= bound && Abs(y) <= bound
    ensures Abs(a * x + b * y) <= Pow2(batch) * bound
  {
    hide Pow2;
    AbsTimes(a, x);
    AbsTimes(b, y);
    MulLe(Abs(x), bound, Abs(a));
    MulLe(Abs(y), bound, Abs(b));
    SumTimes(Abs(a), Abs(b), bound);
    MulLe(Abs(a) + Abs(b), Pow2(batch), bound);
  }

  lemma AbsTimes(a: int, x: int)
    ensures Abs(a * x) == Abs(x) * Abs(a) == Abs(a) * Abs(x)
  {
    if a >= 0 && x >= 0 {
    } else if a >= 0 {
      assert a * x == -(a * -x);
    } else if x >= 0 {
      assert a * x == -(-a * x);
    } else {
      assert a * x == -a * -x;
    }
  }

  /** Registers with more bits to spare than the batch has steps hold its products, sign included. */
  lemma ProductsFit(m: Matrix, batch: nat, x: int, y: int, bits: nat, work: nat)
    requires Small(m, batch) && Abs(x) <= Pow2(bits) && Abs(y) <= Pow2(bits) && batch + bits < work
    ensures 2 * Abs(m.a * x + m.b * y) <= Pow2(work) && 2 * Abs(m.c * x + m.d * y) <= Pow2(work)
  {
    hide Pow2, Abs;
    RowFits(m.a, m.b, x, y, batch, Pow2(bits));
    RowFits(m.c, m.d, x, y, batch, Pow2(bits));
    PowerRoom(batch, bits, work);
  }

  lemma PowerRoom(batch: nat, bits: nat, work: nat)
    requires batch + bits < work
    ensures 2 * (Pow2(batch) * Pow2(bits)) <= Pow2(work)
  {
    hide Pow2;
    var n, k := batch + bits, work - batch - bits;
    Pow2Add(batch, bits);
    Pow2Add(k, n);
    Pow2Next(k - 1);
    MulLe(2, Pow2(k), Pow2(n));
  }

  /**
   A batch applied to the whole numbers: the products fit the registers, the shift is
   exact, the numbers do not grow, and the bits are those of the steps.
   */
  method Batch(x: int, y: int, delta: int, batch: nat, ghost t: nat, ghost bits: nat, ghost work: nat)
    returns (nx: int, ny: int, next: int, u: nat)
    requires Odd(y) && Abs(x) <= Pow2(bits) && Abs(y) <= Pow2(bits) && batch + bits < work && TracksSign(t, y)
    ensures var s := Pair(x, y, delta);
            Pair(nx, ny, next) == Steps(s, batch) && WithSign((t + u) % 4, ny) == Track(s, t, batch)
    ensures Odd(ny) && u < 4 && Abs(nx) <= Pow2(bits) && Abs(ny) <= Pow2(bits)
  {
    hide Odd, Step, Cong, Pow2, Abs, WithSign, Track, Flips, SymbolBits, TracksSign;
    ghost var s := Pair(x, y, delta);
    var p := Pow2(batch + 2);
    LowPart(x, y, delta, batch + 2);
    var m, d, v := BatchMatrix(x % p, y % p, delta, batch, s, t);
    ProductsFit(m, batch, x, y, bits, work);
    StepsOdd(s, batch);
    StepsBound(s, batch, Pow2(bits));
    var q := Pow2(batch);
    ghost var e := Steps(s, batch);
    DivBy(q, e.x);
    DivBy(q, e.y);
    var ax, cy := m.a * x + m.b * y, m.c * x + m.d * y;
    assert 2 * Abs(ax) <= Pow2(work) && 2 * Abs(cy) <= Pow2(work);
    nx, ny, next, u := ax / q, cy / q, d, v;
  }

  lemma LowPart(x: int, y: int, delta: int, n: nat)
    requires Odd(y) && n > 0
    ensures var p := Pow2(n);
            && Abs(x % p) < p && Abs(y % p) < p && Odd(y % p)
            && SameLow(Pair(x % p, y % p, delta), Pair(x, y, delta), n)
  {
    hide Odd, Pow2, Cong;
    var p := Pow2(n);
    CongMod(x, p);
    CongMod(y, p);
    SameParity(y % p, y, n - 1);
  }

  /** y never moves once x is zero. */
  lemma {:induction false} ZeroStays(s: Pair, k: nat)
    requires s.x == 0
    ensures Steps(s, k).x == 0 && Steps(s, k).y == s.y
    decreases k
  {
    if k > 0 {
      hide Step;
      ZeroStays(s, k - 1);
      StepOfZero(Steps(s, k - 1));
    }
  }

  lemma StepOfZero(s: Pair)
    requires s.x == 0
    ensures Step(s) == Pair(0, s.y, 1 + s.delta)
  {
  }

  /** What the bits of any number of steps that end at 1 or -1 say. */
  lemma EndSymbol(s: Pair, k: nat)
    requires Odd(s.y) && s.y > 0 && Abs(Steps(s, k).y) == 1
    ensures BitsValue(Track(s, 0, k)) == Jacobi(s.x, s.y)
    ensures Jacobi(s.x, s.y) != 0
  {
    hide Jacobi, Step, Steps, Track, Odd, BitsValue;
    TrackSymbol(s, 0, k);
    JacobiOne(Steps(s, k).x);
    BitsAre(Track(s, 0, k));
    BitsAre(0);
  }
}
