/**
 Divisibility, congruences and primes: what the primality tests of
 crypto/bn/bn_prime.c rest on.
 */
module Primes {

  // ---- divisibility -------------------------------------------------------------------

  predicate Div(n: nat, x: int)
    requires n > 0
  {
    x % n == 0
  }

  lemma Quotient(n: nat, k: int, q: int, r: int)
    requires n > 0 && n * k == n * q + r && 0 <= r < n
    ensures r == 0 && q == k
  {
    var t := k - q;
    assert n * t == r by { Distribute(n, k, q); }
    if t >= 1 { AtLeast(n, t); }
    if t <= -1 { AtLeast(n, -t); }
    assert t == 0;
  }

  lemma Distribute(n: int, j: int, k: int)
    ensures n * (j + k) == n * j + n * k && n * (j - k) == n * j - n * k
  {
  }

  lemma AtLeast(n: nat, t: int)
    requires t >= 1
    ensures n * t >= n && n * -t == -(n * t)
  {
    assert n * t == n * (t - 1) + n;
    assert n * (t - 1) >= 0;
  }

  lemma MulLe(x: nat, y: nat, p: nat)
    requires x <= y
    ensures x * p <= y * p
  {
    assert y * p == x * p + (y - x) * p;
    assert (y - x) * p >= 0;
  }

  lemma NotNegative(n: nat, p: nat)
    requires p > 0
    ensures n / p >= 0
  {
    var q := n / p;
    assert n == p * q + n % p;
    if q <= -1 { AtLeast(p, -q); }
  }

  lemma DivBy(n: nat, k: int)
    requires n > 0
    ensures Div(n, n * k) && n * k / n == k
  {
    Quotient(n, k, n * k / n, n * k % n);
  }

  lemma Witness(n: nat, x: int) returns (k: int)
    requires n > 0 && Div(n, x)
    ensures x == n * k
  {
    k := x / n;
  }

  lemma DivAdd(n: nat, x: int, y: int)
    requires n > 0 && Div(n, x) && Div(n, y)
    ensures Div(n, x + y) && Div(n, x - y)
  {
    var j := Witness(n, x);
    var k := Witness(n, y);
    hide Div;
    DivBy(n, j + k);
    DivBy(n, j - k);
    assert n * (j + k) == x + y && n * (j - k) == x - y;
  }

  lemma DivMul(n: nat, x: int, y: int)
    requires n > 0 && Div(n, x)
    ensures Div(n, x * y) && Div(n, y * x)
  {
    var k := Witness(n, x);
    hide Div;
    DivBy(n, k * y);
    assert n * (k * y) == x * y;
  }

  lemma DivTrans(m: nat, n: nat, x: int)
    requires m > 0 && n > 0 && Div(m, n) && Div(n, x)
    ensures Div(m, x)
  {
    var k := Witness(n, x);
    DivMul(m, n, k);
  }

  lemma DivSmall(n: nat, x: int)
    requires n > 0 && Div(n, x) && x < n && -x < n
    ensures x == 0
  {
    var k := Witness(n, x);
    if k >= 1 { AtLeast(n, k); }
    if k <= -1 { AtLeast(n, -k); }
  }

  // ---- congruences --------------------------------------------------------------------

  predicate Cong(a: int, b: int, n: nat)
    requires n > 0
  {
    Div(n, a - b)
  }

  lemma CongRefl(a: int, n: nat)
    requires n > 0
    ensures Cong(a, a, n)
  {
  }

  lemma CongSym(a: int, b: int, n: nat)
    requires n > 0 && Cong(a, b, n)
    ensures Cong(b, a, n)
  {
    DivMul(n, a - b, -1);
  }

  lemma CongTrans(a: int, b: int, c: int, n: nat)
    requires n > 0 && Cong(a, b, n) && Cong(b, c, n)
    ensures Cong(a, c, n)
  {
    DivAdd(n, a - b, b - c);
  }

  lemma CongAdd(a: int, b: int, c: int, d: int, n: nat)
    requires n > 0 && Cong(a, b, n) && Cong(c, d, n)
    ensures Cong(a + c, b + d, n) && Cong(a - c, b - d, n)
  {
    hide Div;
    DivAdd(n, a - b, c - d);
    assert (a + c) - (b + d) == (a - b) + (c - d);
    assert (a - c) - (b - d) == (a - b) - (c - d);
  }

  lemma CongMul(a: int, b: int, c: int, d: int, n: nat)
    requires n > 0 && Cong(a, b, n) && Cong(c, d, n)
    ensures Cong(a * c, b * d, n)
  {
    hide Div;
    DivMul(n, a - b, c);
    DivMul(n, c - d, b);
    DivAdd(n, (a - b) * c, b * (c - d));
    assert a * c - b * d == (a - b) * c + b * (c - d);
  }

  lemma CongMod(a: int, n: nat)
    requires n > 0
    ensures Cong(a, a % n, n) && Cong(a % n, a, n)
  {
    hide Div;
    DivBy(n, a / n);
    assert a - a % n == n * (a / n);
    CongSym(a, a % n, n);
  }

  lemma CongSame(a: int, b: int, n: nat)
    requires n > 0
    ensures Cong(a, b, n) <==> a % n == b % n
  {
    hide Cong;
    CongMod(a, n);
    CongMod(b, n);
    if Cong(a, b, n) {
      CongTrans(a % n, a, b, n);
      CongTrans(a % n, b, b % n, n);
      Residue(a % n, b % n, n);
    }
    if a % n == b % n { CongTrans(a, a % n, b, n); }
  }

  lemma Residue(a: int, b: int, n: nat)
    requires n > 0 && Cong(a, b, n) && 0 <= a < n && 0 <= b < n
    ensures a == b
  {
    DivSmall(n, a - b);
  }

  // ---- powers -------------------------------------------------------------------------

  function Pow(x: int, e: nat): int {
    if e == 0 then 1 else x * Pow(x, e - 1)
  }

  lemma {:induction false} PowAdd(x: int, e: nat, f: nat)
    ensures Pow(x, e + f) == Pow(x, e) * Pow(x, f)
    decreases e
  {
    if e > 0 {
      PowAdd(x, e - 1, f);
      assert x * (Pow(x, e - 1) * Pow(x, f)) == x * Pow(x, e - 1) * Pow(x, f);
    }
  }

  lemma {:induction false} PowOne(e: nat)
    ensures Pow(1, e) == 1
    decreases e
  {
    if e > 0 { PowOne(e - 1); }
  }

  lemma {:induction false} PowCong(a: int, b: int, e: nat, n: nat)
    requires n > 0 && Cong(a, b, n)
    ensures Cong(Pow(a, e), Pow(b, e), n)
    decreases e
  {
    if e == 0 {
      CongRefl(1, n);
    } else {
      PowCong(a, b, e - 1, n);
      CongMul(a, b, Pow(a, e - 1), Pow(b, e - 1), n);
    }
  }

  /** Squares: x^(2 e) both ways. */
  lemma {:induction false} PowSquare(x: int, e: nat)
    ensures Pow(x * x, e) == Pow(x, 2 * e) == Pow(x, e) * Pow(x, e)
    decreases e
  {
    PowAdd(x, e, e);
    if e > 0 {
      PowSquare(x, e - 1);
      assert Pow(x, 2 * e) == x * (x * Pow(x, 2 * (e - 1))) by {
        assert 2 * e - 1 == 2 * (e - 1) + 1;
      }
      assert x * (x * Pow(x, 2 * (e - 1))) == (x * x) * Pow(x, 2 * (e - 1));
    }
  }

  // ---- common divisors ----------------------------------------------------------------

  /** The extended Euclidean algorithm. */
  ghost function Bezout(a: nat, b: nat): (r: (nat, int, int))
    decreases b
  {
    if b == 0 then (a, 1, 0)
    else
      var (g, s, t) := Bezout(b, a % b);
      (g, t, s - a / b * t)
  }

  lemma {:induction false} BezoutIs(a: nat, b: nat)
    requires a > 0 || b > 0
    ensures var (g, s, t) := Bezout(a, b); g > 0 && Div(g, a) && Div(g, b) && g == a * s + b * t
    decreases b
  {
    if b == 0 {
      DivBy(a, 1);
      DivBy(a, 0);
    } else {
      BezoutIs(b, a % b);
      var (g, s, t) := Bezout(b, a % b);
      var q, r := a / b, a % b;
      assert a == b * q + r;
      hide Bezout, Div;
      DivMul(g, b, q);
      DivAdd(g, b * q, r);
      BezoutStep(a, b, q, r, s, t);
    }
  }

  lemma BezoutStep(a: int, b: int, q: int, r: int, s: int, t: int)
    requires a == b * q + r
    ensures a * t + b * (s - q * t) == b * s + r * t
  {
    assert (b * q + r) * t == b * (q * t) + r * t;
    Distribute(b, s, q * t);
  }

  /** g is the greatest common divisor, in the sense of divisibility. */
  ghost predicate IsGcd(g: nat, a: int, b: int) {
    && g > 0 && Div(g, a) && Div(g, b)
    && forall d: nat :: d > 0 && Div(d, a) && Div(d, b) ==> Div(d, g)
  }

  ghost predicate Coprime(a: int, n: nat)
    requires n > 0
  {
    exists t: int :: Cong(a * t, 1, n)
  }

  // ---- primes -------------------------------------------------------------------------

  ghost predicate Prime(p: nat) {
    p > 1 && forall d: nat :: 1 < d < p ==> !Div(d, p)
  }

  /** A number a prime does not divide has an inverse. */
  lemma PrimeInverse(p: nat, a: int) returns (t: int)
    requires Prime(p) && !Div(p, a)
    ensures Cong(a * t, 1, p)
  {
    var r := a % p;
    var (g, s, u) := Bezout(p, r);
    BezoutIs(p, r);
    if g > 1 {
      if g < p { assert false; } else { DivTooBig(g, r); }
    }
    t := u;
    CongMod(a, p);
    hide Div;
    DivBy(p, -s);
    assert r * u - 1 == p * (-s);
    CongRefl(u, p);
    CongMul(a, r, u, u, p);
    CongTrans(a * u, r * u, 1, p);
  }

  lemma DivTooBig(g: nat, r: nat)
    requires g > 0 && Div(g, r) && 0 < r
    ensures g <= r
  {
    if g > r { DivSmall(g, r); }
  }

  /** A prime that divides a product divides a factor. */
  lemma Euclid(p: nat, a: int, b: int)
    requires Prime(p) && Div(p, a * b)
    ensures Div(p, a) || Div(p, b)
  {
    if !Div(p, a) {
      var t := PrimeInverse(p, a);
      hide Prime, Div;
      DivMul(p, a * b, t);
      DivMul(p, a * t - 1, b);
      DivAdd(p, a * b * t, (a * t - 1) * b);
      assert a * b * t - (a * t - 1) * b == b;
    }
  }

  /** Modulo a prime, 1 has two square roots. */
  lemma RootsOfOne(p: nat, x: int)
    requires Prime(p) && Cong(x * x, 1, p)
    ensures Cong(x, 1, p) || Cong(x, -1, p)
  {
    assert x * x - 1 == (x - 1) * (x + 1);
    Euclid(p, x - 1, x + 1);
  }
}
