/**
 The library's own Kronecker symbol, crypto/bn/bn_kron.c, which
 test_prime_tests.c compares the constant-time routine with.
 */
module BnKron {
  import opened Primes
  import opened QuadRing
  import opened LucasTheory
  import opened Montgomery
  import opened CtGcd
  import opened JacobiSymbol
  import opened DivSteps
  import DivBound
  import opened JacobiRoutine

  /** The shift loop: the trailing zero bits of n, and what is left. */
  method StripTwos(n: nat) returns (i: nat, m: nat)
    requires n > 0
    ensures n == Pow2(i) * m && Odd(m)
  {
    i, m := 0, n;
    while m % 2 == 0
      invariant m > 0 && n == Pow2(i) * m
      decreases m
    {
      assert Pow2(i + 1) * (m / 2) == Pow2(i) * m by {
        var h := m / 2;
        assert m == 2 * h && Pow2(i) * (2 * h) == 2 * Pow2(i) * h;
      }
      i, m := i + 1, m / 2;
    }
  }

  /** The sign of i twos. */
  function TwosSign(i: nat, n: nat): int {
    if i % 2 == 1 then TwoSign(n) else 1
  }

  lemma {:induction false} JacobiTwos(i: nat, m: int, n: nat)
    requires n % 2 == 1
    ensures Jacobi(Pow2(i) * m, n) == TwosSign(i, n) * Jacobi(m, n)
    decreases i
  {
    hide Jacobi, TwoSign;
    if i == 0 {
      assert Pow2(0) * m == m;
    } else {
      JacobiTwos(i - 1, m, n);
      var p := Pow2(i - 1);
      assert Pow2(i) * m == 2 * (p * m) by { Times3(2, p, m); }
      JacobiTwo(p * m, n);
      TwoSquared(i, n);
      Times3(TwoSign(n), TwosSign(i - 1, n), Jacobi(m, n));
    }
  }

  lemma TwoSquared(i: nat, n: nat)
    requires i > 0
    ensures TwosSign(i, n) == TwoSign(n) * TwosSign(i - 1, n)
  {
  }

  function Signed(negative: bool, m: nat): int {
    if negative then 0 - m else m
  }

  /** Taking the twos out of a number of either sign. */
  lemma SignedTwos(a: int, i: nat, m: nat, n: nat)
    requires n % 2 == 1 && Abs(a) == Pow2(i) * m
    ensures Jacobi(a, n) == TwosSign(i, n) * Jacobi(Signed(a < 0, m), n)
  {
    hide Jacobi;
    var s := Signed(a < 0, m);
    assert a == Pow2(i) * s by {
      Distribute(Pow2(i), 0, m);
    }
    JacobiTwos(i, s, n);
  }

  /** The test on bit 1 of both numbers, the bits of a negative one inverted. */
  predicate Flipped(negative: bool, m: nat, n: nat) {
    n % 4 == 3 && (if negative then m % 4 == 1 else m % 4 == 3)
  }

  /** Reciprocity, with the sign of the first number. */
  lemma SignedSwap(negative: bool, m: nat, n: nat)
    requires Odd(m) && Odd(n)
    ensures Jacobi(Signed(negative, m), n) == (if Flipped(negative, m, n) then -1 else 1) * Jacobi(n % m, m)
  {
    hide Jacobi;
    JacobiAbs(Signed(negative, m), n);
    JacobiSwap(m, n);
    CongMod(n, m);
    JacobiCong(n, n % m, m);
    OddFour(m);
    OddFour(n);
  }

  lemma JacobiOfZero(n: nat)
    requires n % 2 == 1
    ensures Jacobi(0, n) == if n == 1 then 1 else 0
  {
    if n == 1 { JacobiOne(0); } else { ZeroNotCoprime(n); }
  }

  /** The loop of BN_kronecker on an odd positive b: it ends with the Jacobi symbol. */
  method JacobiLoop(a0: int, b0: nat) returns (ret: int)
    requires Odd(b0)
    ensures ret == Jacobi(a0, b0)
  {
    hide Jacobi, TwoSign, Flipped, TwosSign;
    var a, b := a0, b0;
    ret := 1;
    while a != 0
      invariant Odd(b) && Jacobi(a0, b0) == ret * Jacobi(a, b)
      decreases Abs(a)
    {
      var i, m := StripTwos(Abs(a));
      SignedTwos(a, i, m, b);
      SignedSwap(a < 0, m, b);
      var two, flip := TwosSign(i, b), if Flipped(a < 0, m, b) then -1 else 1;
      ghost var j := Jacobi(b % m, m);
      Times3(ret, two, flip * j);
      Times3(ret * two, flip, j);
      ret := ret * two;
      ret := ret * flip;
      PartBelow(i, m, Abs(a));
      a, b := b % m, m;
    }
    JacobiOfZero(b);
    ret := if b == 1 then ret else 0;
  }

  lemma PartBelow(i: nat, m: nat, n: nat)
    requires n == Pow2(i) * m
    ensures m <= n
  {
    MulLe(1, Pow2(i), m);
  }

  /** The symbol over any number: the twos of b one by one, each with the symbol of a over 2. */
  ghost function Kron(a: int, b: int): int
    decreases Abs(b)
  {
    if b == 0 then (if Abs(a) == 1 then 1 else 0)
    else if Odd(b) then Kronecker(a, b)
    else if a % 2 == 0 then 0
    else TwoSign(Abs(a)) * Kron(a, b / 2)
  }

  lemma {:induction false} KronTwos(a: int, i: nat, q: int)
    requires Odd(q) && (i > 0 ==> Odd(a))
    ensures Kron(a, Pow2(i) * q) == TwosSign(i, Abs(a)) * Kronecker(a, q)
    decreases i
  {
    hide Kronecker, TwoSign;
    if i == 0 {
      assert Pow2(0) * q == q;
    } else {
      KronTwos(a, i - 1, q);
      EvenPart(i, q);
      TwoSquared(i, Abs(a));
      Times3(TwoSign(Abs(a)), TwosSign(i - 1, Abs(a)), Kronecker(a, q));
    }
  }

  lemma EvenPart(i: nat, q: int)
    requires i > 0 && Odd(q)
    ensures var b := Pow2(i) * q; b != 0 && b % 2 == 0 && b / 2 == Pow2(i - 1) * q
  {
    var h := Pow2(i - 1) * q;
    Times3(2, Pow2(i - 1), q);
    assert Pow2(i) * q == 2 * h;
    if q > 0 { AtLeast(Pow2(i - 1), q); } else { AtLeast(Pow2(i - 1), -q); }
  }

  /** BN_kronecker gives the symbol of every pair of numbers. */
  method BnKronecker(a: int, b: int) returns (ret: int)
    ensures ret == Kron(a, b)
  {
    hide Jacobi, Kronecker, TwosSign, Pow2;
    if b == 0 { return if Abs(a) == 1 then 1 else 0; }
    if a % 2 == 0 && b % 2 == 0 { return 0; }
    var i, m := StripTwos(Abs(b));
    ghost var q := Signed(b < 0, m);
    SignedSplit(b, i, m);
    hide Kron;
    KronTwos(a, i, q);
    var sign := TwosSign(i, Abs(a));
    if b < 0 && a < 0 { sign := -sign; }
    var j := JacobiLoop(a, m);
    ret := sign * j;
    KroneckerSigned(a, b < 0, m);
  }

  lemma SignedSplit(b: int, i: nat, m: nat)
    requires b != 0 && Abs(b) == Pow2(i) * m && Odd(m)
    ensures Odd(Signed(b < 0, m)) && b == Pow2(i) * Signed(b < 0, m) && (i > 0 ==> b % 2 == 0)
  {
    if b < 0 {
      OddNegated(0 - m);
      Distribute(Pow2(i), 0, m);
    }
    if i > 0 { EvenPart(i, Signed(b < 0, m)); }
  }

  lemma KroneckerSigned(a: int, negative: bool, m: nat)
    requires Odd(m) && Odd(Signed(negative, m))
    ensures Kronecker(a, Signed(negative, m)) == (if negative && a < 0 then -1 else 1) * Jacobi(a, m)
  {
    hide Jacobi;
  }

  // ---- what the symbol is ------------------------------------------------------------------------

  /** Over a positive odd number it is the Jacobi symbol, over -1 the sign, and over 0 it tells the units. */
  lemma KroneckerSigns(x: int, y: int)
    requires Odd(y)
    ensures y > 0 ==> Kronecker(x, y) == Jacobi(x, y)
    ensures Odd(-1) && Kronecker(x, -1) == if x < 0 then -1 else 1
    ensures Kron(x, 0) == if x == 1 || x == -1 then 1 else 0
  {
    hide Jacobi;
    JacobiOne(x);
  }

  lemma OddProduct(y: int, z: int)
    requires Odd(y) && Odd(z)
    ensures Odd(y * z)
  {
    var a, b := y / 2, z / 2;
    assert y == 2 * a + 1 && z == 2 * b + 1;
    assert y * z == 2 * (2 * (a * b) + a + b) + 1;
  }

  lemma AbsProduct(y: int, z: int)
    ensures Abs(y * z) == Abs(y) * Abs(z)
    ensures y != 0 && z != 0 ==> (y * z < 0 <==> (y < 0) != (z < 0))
  {
    AbsTimes(y, z);
    SignOfProduct(y, z);
    SignOfProduct(z, y);
  }

  /** It is multiplicative in the second number, signs included. */
  lemma KroneckerModulus(x: int, y: int, z: int)
    requires Odd(y) && Odd(z)
    ensures Odd(y * z) && Kronecker(x, y * z) == Kronecker(x, y) * Kronecker(x, z)
  {
    hide Jacobi;
    OddProduct(y, z);
    OddAbs(y);
    OddAbs(z);
    NotZeroOdd(y);
    NotZeroOdd(z);
    AbsProduct(y, z);
    JacobiModulus(x, Abs(y), Abs(z));
    SignPairs(x < 0 && y < 0, x < 0 && z < 0, Jacobi(x, Abs(y)), Jacobi(x, Abs(z)));
  }

  /** And in the first, if that is not zero. */
  lemma KroneckerTimes(x: int, z: int, y: int)
    requires Odd(y) && x != 0 && z != 0
    ensures Kronecker(x * z, y) == Kronecker(x, y) * Kronecker(z, y)
  {
    hide Jacobi;
    OddAbs(y);
    AbsProduct(x, z);
    JacobiTimes(x, z, Abs(y));
    SignPairs(x < 0 && y < 0, z < 0 && y < 0, Jacobi(x, Abs(y)), Jacobi(z, Abs(y)));
  }

  lemma SignPairs(p: bool, q: bool, i: int, j: int)
    ensures (if p then -1 else 1) * i * ((if q then -1 else 1) * j) == (if p != q then -1 else 1) * (i * j)
  {
  }

  /** The symbol over 2, and how an even second number splits. */
  lemma KronTwo(a: int, b: int)
    requires b != 0
    ensures Kron(a, 2) == if a % 2 == 0 then 0 else if Abs(a) % 8 == 1 || Abs(a) % 8 == 7 then 1 else -1
    ensures Kron(a, 2 * b) == Kron(a, 2) * Kron(a, b)
  {
    hide Kronecker;
    OverOne(a);
    assert 2 * b / 2 == b;
    if a % 2 == 1 { OddRest8(a); }
  }

  lemma OverOne(a: int)
    ensures Odd(1) && Kronecker(a, 1) == 1
  {
    hide Jacobi;
    JacobiOne(a);
  }

  lemma OddRest8(a: int)
    requires a % 2 == 1
    ensures Abs(a) % 8 == 1 || Abs(a) % 8 == 3 || Abs(a) % 8 == 5 || Abs(a) % 8 == 7
  {
    Residue8(a);
  }

  /** No number but 1 divides both. */
  ghost predicate NoCommon(a: int, b: int) {
    forall d: nat :: d > 1 ==> !(Div(d, a) && Div(d, b))
  }

  lemma CoprimeShares(a: int, n: nat)
    requires n > 0 && Coprime(a, n)
    ensures NoCommon(a, n)
  {
    hide Div, Coprime;
    forall d: nat | d > 1
      ensures !(Div(d, a) && Div(d, n))
    {
      if Div(d, a) && Div(d, n) {
        DivBound.CommonIsOne(d, a, n);
        assert false;
      }
    }
  }

  lemma UnitIsNoCommon(a: int, n: nat)
    requires n > 0
    ensures Coprime(a, n) <==> NoCommon(a, n)
  {
    if Coprime(a, n) { CoprimeShares(a, n); }
    if NoCommon(a, n) {
      BezoutIs(Abs(a), n);
      var (g, s, t) := Bezout(Abs(a), n);
      hide Div;
      DivSign(g, a);
      assert g == 1;
      var u := if a < 0 then -s else s;
      assert a * u == Abs(a) * s;
      DivBy(n, -t);
      assert a * u - 1 == n * -t;
      assert Cong(a * u, 1, n);
    }
  }

  /** The symbol is 0 exactly when the numbers have a common divisor. */
  lemma {:induction false} KronIsZero(a: int, b: int)
    ensures Kron(a, b) != 0 <==> NoCommon(a, b)
    decreases Abs(b)
  {
    hide Kronecker, NoCommon, Jacobi;
    if b == 0 {
      OverZero(a);
    } else if Odd(b) {
      OddAbs(b);
      KroneckerIs(a, b);
      NotZeroOdd(b);
      UnitIsNoCommon(a, Abs(b));
      NoCommonSign(a, b);
    } else if a % 2 == 0 {
      TwoCommon(a, b);
    } else {
      KronIsZero(a, b / 2);
      HalfCommon(a, b);
    }
  }

  lemma OverZero(a: int)
    ensures Abs(a) == 1 <==> NoCommon(a, 0)
  {
    if Abs(a) == 1 {
      forall d: nat | d > 1
        ensures !Div(d, a)
      {
        NotOne(d);
        if a == -1 && Div(d, a) { DivMul(d, a, -1); }
      }
    } else {
      var d := if a == 0 then 2 else Abs(a);
      DivBy(d, if a == 0 then 0 else if a < 0 then -1 else 1);
      DivBy(d, 0);
    }
  }

  lemma DivSign(d: nat, b: int)
    requires d > 0
    ensures Div(d, Abs(b)) <==> Div(d, b)
  {
    if b < 0 {
      var n := 0 - b;
      hide Div;
      assert n * -1 == b && b * -1 == n;
      if Div(d, b) { DivMul(d, b, -1); }
      if Div(d, n) { DivMul(d, n, -1); }
    }
  }

  lemma NoCommonSign(a: int, b: int)
    ensures NoCommon(a, Abs(b)) <==> NoCommon(a, b)
  {
    hide Div, Abs;
    forall d: nat | d > 1
      ensures Div(d, Abs(b)) <==> Div(d, b)
    {
      DivSign(d, b);
    }
  }

  lemma TwoCommon(a: int, b: int)
    requires a % 2 == 0 && b % 2 == 0
    ensures !NoCommon(a, b)
  {
    assert Div(2, a) && Div(2, b);
  }

  lemma HalfCommon(a: int, b: int)
    requires a % 2 == 1 && b % 2 == 0
    ensures NoCommon(a, b) <==> NoCommon(a, b / 2)
  {
    forall d: nat | d > 1 && Div(d, a)
      ensures Div(d, b) <==> Div(d, b / 2)
    {
      OddDivisor(d, a);
      hide Div;
      assert b == 2 * (b / 2);
      if Div(d, b) { OddHalf(d, b / 2); }
      if Div(d, b / 2) { DivMul(d, b / 2, 2); }
    }
  }

  lemma OddDivisor(d: nat, a: int)
    requires d > 0 && Div(d, a) && a % 2 == 1
    ensures d % 2 == 1
  {
    var k := Witness(d, a);
    if d % 2 == 0 { EvenTimes(d, k); }
  }

  /**
   The constant-time routine agrees with the library exactly on the odd second numbers that
   fit, if the first one fits or the second is 1 or -1, and where the symbol is 0.
   */
  lemma RoutineAgrees(x: int, y: int)
    ensures Answer(x, y) == Kron(x, y)
       <==> (Odd(y) && Fits(y) && (Fits(x) || Abs(y) == 1)) || Kron(x, y) == 0
  {
    hide Fits, Jacobi;
    if Odd(y) && !Fits(y) { assert Answer(x, y) == 0; }
  }

  /** The comparison of the two in test_prime_tests.c, on pairs as it draws them. */
  method CompareSymbols(pairs: seq<(int, int)>) returns (same: bool)
    requires forall i :: 0 <= i < |pairs| ==> Odd(pairs[i].1) && Fits(pairs[i].0) && Fits(pairs[i].1)
    ensures same
  {
    hide Fits, Kronecker;
    same := true;
    for i := 0 to |pairs|
      invariant same
    {
      var (x, y) := pairs[i];
      var reference := BnKronecker(x, y);
      var constantTime := JacobiBy(x, y);
      RoutineAgrees(x, y);
      if reference != constantTime { same := false; }
    }
  }
}
