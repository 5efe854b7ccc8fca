/**
 The two rounds of the fixed-depth Lucas test of crypto/bn/bn_prime.c as
 statements about numbers, and what they say of a prime.
 */
module LucasTheory {
  import opened Primes
  import opened QuadRing

  /** Half of w - 1 or of w + 1, whichever is odd. */
  function Exponent(w: nat): nat {
    w / 2 + if w % 4 == 3 then 0 else 1
  }

  /** The Jacobi symbol the tests look for. */
  function Target(w: nat): int {
    if w % 4 == 3 then 1 else -1
  }

  /** Strong Lucas round: one part of (p + sqrt(d))^e vanishes modulo w. */
  predicate StrongHolds(w: nat, d: int, p: int)
    requires w > 0
  {
    var q := QPow(Quad(p, 1), Exponent(w), d);
    Div(w, q.a) || Div(w, q.b)
  }

  function Delta(p: int, d: int): int {
    p * p - d
  }

  /** Trace round: the trace of (p + sqrt(d))^(2 e) is twice the e-th power of the norm, up to sign. */
  predicate TraceHolds(w: nat, d: int, p: int)
    requires w > 0
  {
    var q, n := QPow(Quad(p, 1), 2 * Exponent(w), d).a, Pow(Delta(p, d), Exponent(w));
    Cong(q, n, w) || Cong(q, -n, w)
  }

  /** Euler's criterion for the symbol the tests want. */
  predicate Euler(w: nat, d: int)
    requires w > 0
  {
    Cong(Pow(d, w / 2), Target(w), w)
  }

  lemma OddHalf(w: nat, x: int)
    requires w % 2 == 1 && Div(w, 2 * x)
    ensures Div(w, x)
  {
    var k := Witness(w, 2 * x);
    OddTimes(w, k);
    assert x == w * (k / 2) by { assert w * (2 * (k / 2)) == 2 * (w * (k / 2)); }
    DivBy(w, k / 2);
  }

  lemma OddTimes(w: int, k: int)
    requires w % 2 == 1
    ensures w * k % 2 == k % 2
  {
    var a, b := w / 2, k / 2;
    assert w * k == (2 * a + 1) * k == 2 * (a * k) + k;
  }

  lemma NotOne(w: nat)
    requires w > 1
    ensures !Div(w, 1) && (w > 2 ==> !Div(w, 2)) && (w > 2 ==> !Div(w, -2))
  {
    if Div(w, 1) { DivSmall(w, 1); }
    if w > 2 && Div(w, 2) { DivSmall(w, 2); }
    if w > 2 && Div(w, -2) { DivSmall(w, -2); }
  }

  lemma OddPrime(w: nat)
    requires Prime(w) && w % 2 == 1
    ensures w >= 3 && Exponent(w) >= 1
    ensures w % 4 == 3 ==> 2 * Exponent(w) == w - 1 && Exponent(w) == w / 2
    ensures w % 4 != 3 ==> 2 * Exponent(w) == w + 1 && Exponent(w) == w / 2 + 1
  {
  }

  /** A number with the wanted symbol is no multiple of w. */
  lemma EulerUnit(w: nat, d: int)
    requires Prime(w) && w % 2 == 1 && Euler(w, d)
    ensures !Div(w, d)
  {
    OddPrime(w);
    if Div(w, d) {
      var h := w / 2;
      DivMul(w, d, Pow(d, h - 1));
      assert Pow(d, h) == d * Pow(d, h - 1);
      hide Prime, Div;
      DivAdd(w, Pow(d, h), Pow(d, h) - Target(w));
      assert Pow(d, h) - (Pow(d, h) - Target(w)) == Target(w);
      NotOne(w);
      if w % 4 != 3 { DivMul(w, -1, -1); }
      assert false;
    }
  }

  /** When the symbol wanted is -1, no p is a square root of d. */
  lemma NoRoot(w: nat, d: int, p: int)
    requires Prime(w) && w % 4 == 1 && Euler(w, d)
    ensures !Div(w, Delta(p, d))
  {
    OddPrime(w);
    if Div(w, Delta(p, d)) {
      var h := w / 2;
      RootHasPower(w, d, p, h);
      EulerUnit(w, d);
      assert !Div(w, p) by {
        if Div(w, p) {
          DivMul(w, p, p);
          DivAdd(w, p * p, Delta(p, d));
        }
      }
      FermatUnit(w, p);
      hide Prime, Div, Pow;
      assert 2 * h == w - 1;
      DivAdd(w, Pow(p, w - 1) - 1, Pow(p, w - 1) - -1);
      NotOne(w);
      assert false;
    }
  }

  lemma RootHasPower(w: nat, d: int, p: int, h: nat)
    requires w > 0 && w == 2 * h + 1 && Div(w, Delta(p, d)) && Cong(Pow(d, h), -1, w)
    ensures Cong(Pow(p, 2 * h), -1, w)
  {
    hide Div, Pow;
    PowCong(p * p, d, h, w);
    PowSquare(p, h);
    CongTrans(Pow(p * p, h), Pow(d, h), -1, w);
  }

  // ---- powers of p + sqrt(d) modulo a prime ---------------------------------------------

  /** The w-th power of p + sqrt(d) keeps or flips the root, as the symbol says. */
  lemma PrimePower(w: nat, d: int, p: int)
    requires Prime(w) && w % 2 == 1 && Euler(w, d)
    ensures QCong(QPow(Quad(p, 1), w, d), Quad(p, Target(w)), w)
  {
    hide Prime, QPow, Pow;
    PrimeBig(w);
    Frobenius(w, p, d);
    assert (w - 1) / 2 == w / 2;
    CongRefl(p, w);
    QTrans(QPow(Quad(p, 1), w, d), Quad(p, Pow(d, w / 2)), Quad(p, Target(w)), w);
  }

  /** Symbol -1: twice the exponent gives the norm. */
  lemma TwiceMinus(w: nat, d: int, p: int)
    requires Prime(w) && w % 4 == 1 && Euler(w, d)
    ensures QCong(QPow(Quad(p, 1), 2 * Exponent(w), d), Quad(Delta(p, d), 0), w)
  {
    OddPrime(w);
    PrimePower(w, d, p);
    var x := Quad(p, 1);
    assert QPow(x, w + 1, d) == Mul(x, QPow(x, w, d), d);
    hide Prime, QPow, QCong;
    QRefl(x, w);
    QMul(x, x, QPow(x, w, d), Quad(p, -1), d, w);
    assert Mul(x, Quad(p, -1), d) == Quad(Delta(p, d), 0);
  }

  /** Symbol 1: twice the exponent gives one, if p is no square root of d. */
  lemma TwicePlus(w: nat, d: int, p: int)
    requires Prime(w) && w % 4 == 3 && Euler(w, d) && !Div(w, Delta(p, d))
    ensures QCong(QPow(Quad(p, 1), 2 * Exponent(w), d), ONE, w)
  {
    OddPrime(w);
    PrimePower(w, d, p);
    var x, y := Quad(p, 1), Quad(p, -1);
    var z := QPow(x, 2 * Exponent(w), d);
    assert QPow(x, w, d) == Mul(x, z, d);
    QRefl(y, w);
    QMul(y, y, Mul(x, z, d), x, d, w);
    hide QPow;
    ConjCancels(p, z, d);
    var n := Delta(p, d);
    assert Cong(n * z.a, n, w) && Cong(n * z.b, 0, w);
    assert n * z.a - n == n * (z.a - 1);
    Euclid(w, n, z.a - 1);
    Euclid(w, n, z.b);
  }

  lemma ConjCancels(p: int, z: Quad, d: int)
    ensures Mul(Quad(p, -1), Mul(Quad(p, 1), z, d), d) == Scale(Delta(p, d), z)
    ensures Mul(Quad(p, -1), Quad(p, 1), d) == Quad(Delta(p, d), 0)
  {
    var x := Mul(Quad(p, 1), z, d);
    assert p * (p * z.a + d * z.b) - d * (p * z.b + z.a) == (p * p - d) * z.a by {
      assert p * (p * z.a + d * z.b) == p * p * z.a + d * (p * z.b);
    }
    assert p * (p * z.b + z.a) - (p * z.a + d * z.b) == (p * p - d) * z.b;
  }

  // ---- rounds on a prime -------------------------------------------------------------------

  lemma HalfVanishes(w: nat, d: int, p: int)
    requires Prime(w) && w % 2 == 1 && Cong(QPow(Quad(p, 1), 2 * Exponent(w), d).b, 0, w)
    ensures StrongHolds(w, d, p)
  {
    var e := Exponent(w);
    var x := QPow(Quad(p, 1), e, d);
    QPowAdd(Quad(p, 1), e, e, d);
    assert e + e == 2 * e;
    hide QPow;
    assert Mul(x, x, d).b == 2 * (x.a * x.b);
    OddHalf(w, x.a * x.b);
    Euclid(w, x.a, x.b);
  }

  /** If p is a square root of d, neither part of the power vanishes. */
  lemma RootFails(w: nat, d: int, p: int)
    requires Prime(w) && w % 4 == 3 && Euler(w, d) && Div(w, Delta(p, d))
    ensures !StrongHolds(w, d, p)
  {
    OddPrime(w);
    EulerUnit(w, d);
    var e := Exponent(w);
    var x := QPow(Quad(p, 1), e, d);
    NormPow(Quad(p, 1), e, d);
    assert Norm(Quad(p, 1), d) == Delta(p, d);
    assert Pow(Delta(p, d), e) == Delta(p, d) * Pow(Delta(p, d), e - 1);
    DivMul(w, Delta(p, d), Pow(Delta(p, d), e - 1));
    if StrongHolds(w, d, p) {
      BothVanish(w, d, x);
      PowerVanishes(w, d, p, e, x);
      PrimePower(w, d, p);
      hide Prime, QPow, Div;
      DivAdd(w, QPow(Quad(p, 1), w, d).b, QPow(Quad(p, 1), w, d).b - 1);
      NotOne(w);
      assert false;
    }
  }

  lemma BothVanish(w: nat, d: int, x: Quad)
    requires Prime(w) && !Div(w, d) && Div(w, Norm(x, d)) && (Div(w, x.a) || Div(w, x.b))
    ensures Div(w, x.a) && Div(w, x.b)
  {
    if Div(w, x.a) {
      DivMul(w, x.a, x.a);
      DivAdd(w, x.a * x.a, Norm(x, d));
      Euclid(w, d, x.b * x.b);
      Euclid(w, x.b, x.b);
    } else {
      DivMul(w, x.b, d * x.b);
      assert x.b * (d * x.b) == d * (x.b * x.b);
      DivAdd(w, Norm(x, d), d * (x.b * x.b));
      Euclid(w, x.a, x.a);
    }
  }

  lemma PowerVanishes(w: nat, d: int, p: int, e: nat, x: Quad)
    requires w == 2 * e + 1 && x == QPow(Quad(p, 1), e, d) && Div(w, x.a) && Div(w, x.b)
    ensures Div(w, QPow(Quad(p, 1), w, d).b)
  {
    QPowAdd(Quad(p, 1), e + 1, e, d);
    var y := QPow(Quad(p, 1), e + 1, d);
    hide QPow, Div;
    DivMul(w, x.a, y.b);
    DivMul(w, x.b, y.a);
    DivAdd(w, y.a * x.b, y.b * x.a);
  }

  /** On a prime the strong round passes exactly when p is not a square root of d. */
  lemma StrongOnPrime(w: nat, d: int, p: int)
    requires Prime(w) && w % 2 == 1 && Euler(w, d)
    ensures StrongHolds(w, d, p) <==> !Div(w, Delta(p, d))
  {
    hide Prime, StrongHolds, QPow, Euler, Cong, Div, Delta, Exponent;
    if w % 4 == 3 {
      if Div(w, Delta(p, d)) {
        RootFails(w, d, p);
      } else {
        TwicePlus(w, d, p);
        HalfVanishes(w, d, p);
      }
    } else {
      OddMod4(w);
      NoRoot(w, d, p);
      TwiceMinus(w, d, p);
      HalfVanishes(w, d, p);
    }
  }

  lemma OddMod4(w: nat)
    requires w % 2 == 1 && w % 4 != 3
    ensures w % 4 == 1
  {
    var b := w / 2;
    assert w == 2 * b + 1;
    var c, s := b / 2, b % 2;
    assert b == 2 * c + s;
    Mod4(w, c, 2 * s + 1);
  }

  lemma Mod2(x: nat, q: nat, r: nat)
    requires x == 2 * q + r && r < 2
    ensures x % 2 == r
  {
  }

  lemma Mod4(x: nat, q: nat, r: nat)
    requires x == 4 * q + r && r < 4
    ensures x % 4 == r
  {
  }

  /** Half of the powers of a unit modulo a prime is 1 or -1. */
  lemma HalfPower(w: nat, n: int)
    requires Prime(w) && w % 2 == 1 && !Div(w, n)
    ensures Cong(Pow(n, w / 2), 1, w) || Cong(Pow(n, w / 2), -1, w)
  {
    FermatUnit(w, n);
    PowSquare(n, w / 2);
    assert 2 * (w / 2) == w - 1;
    hide Prime, Pow;
    RootsOfOne(w, Pow(n, w / 2));
  }

  /** On a prime every trace round with an invertible norm passes. */
  lemma TraceOnPrime(w: nat, d: int, p: int)
    requires Prime(w) && w % 2 == 1 && Euler(w, d) && !Div(w, Delta(p, d))
    ensures TraceHolds(w, d, p)
  {
    hide Prime, QPow, Pow, Euler, Delta, Exponent, Cong, Div;
    OddPrime(w);
    var n, h := Delta(p, d), w / 2;
    HalfPower(w, n);
    var q := QPow(Quad(p, 1), 2 * Exponent(w), d).a;
    if w % 4 == 3 {
      TwicePlus(w, d, p);
      if Cong(Pow(n, h), 1, w) { SameUpTo(q, 1, Pow(n, h), 1, w); } else { SameUpTo(q, 1, Pow(n, h), -1, w); }
    } else {
      OddMod4(w);
      TwiceMinus(w, d, p);
      PowNext(n, h);
      CongRefl(n, w);
      if Cong(Pow(n, h), 1, w) {
        CongMul(n, n, Pow(n, h), 1, w);
        SameUpTo(q, n, n * Pow(n, h), 1, w);
      } else {
        CongMul(n, n, Pow(n, h), -1, w);
        SameUpTo(q, n, n * Pow(n, h), -1, w);
      }
    }
  }

  lemma PowNext(n: int, h: nat)
    ensures Pow(n, h + 1) == n * Pow(n, h)
  {
  }

  lemma {:induction false} PowTimes(a: int, g: int, k: nat)
    ensures Pow(a * g, k) == Pow(a, k) * Pow(g, k)
    decreases k
  {
    if k > 0 {
      hide Pow;
      PowTimes(a, g, k - 1);
      PowNext(a * g, k - 1);
      PowNext(a, k - 1);
      PowNext(g, k - 1);
      FourFactors(a, g, Pow(a, k - 1), Pow(g, k - 1));
    } else {
      assert Pow(a * g, 0) == 1 == Pow(a, 0) == Pow(g, 0);
    }
  }

  lemma FourFactors(a: int, g: int, x: int, y: int)
    ensures a * g * (x * y) == a * x * (g * y)
  {
    assert g * (x * y) == x * (g * y);
    Times3(a, g, x * y);
    Times3(a, x, g * y);
  }

  lemma {:induction false} PowPow(x: int, a: nat, b: nat)
    ensures Pow(Pow(x, a), b) == Pow(x, a * b)
    decreases b
  {
    if b > 0 {
      PowPow(x, a, b - 1);
      PowAdd(x, a, a * (b - 1));
      assert a + a * (b - 1) == a * b;
    }
  }

  lemma SameUpTo(q: int, t: int, x: int, s: int, w: nat)
    requires w > 0 && Cong(q, t, w) && (s == 1 || s == -1) && Cong(x, t * s, w)
    ensures s == 1 ==> Cong(q, x, w)
    ensures s == -1 ==> Cong(q, -x, w)
  {
    hide Cong;
    CongSym(x, t * s, w);
    if s == 1 {
      CongTrans(q, t, x, w);
    } else {
      CongRefl(0, w);
      CongAdd(0, 0, t * s, x, w);
      assert 0 - t * s == t && 0 - x == -x;
      CongTrans(q, t, -x, w);
    }
  }

  // ---- the V sequence -----------------------------------------------------------------------

  /** V(0) = 2, V(1) = c, V(k) = c V(k-1) - V(k-2) */
  function V(c: int, k: nat): int {
    if k == 0 then 2 else if k == 1 then c else c * V(c, k - 1) - V(c, k - 2)
  }

  lemma {:induction false} VAdd(c: int, m: nat, n: nat)
    requires n <= m
    ensures V(c, m + n) == V(c, m) * V(c, n) - V(c, m - n)
    decreases n
  {
    hide V;
    VRecurs(c, m, n);
    if n >= 2 {
      VAdd(c, m, n - 1);
      VAdd(c, m, n - 2);
      VAlgebra(c, V(c, m), V(c, n - 1), V(c, n - 2), V(c, m - n + 1), V(c, m - n));
    }
  }

  lemma VRecurs(c: int, m: nat, n: nat)
    requires n <= m
    ensures n >= 1 ==> V(c, m + n) == c * V(c, m + n - 1) - V(c, m + n - 2)
    ensures n == 0 ==> V(c, n) == 2
    ensures n == 1 ==> V(c, n) == c
    ensures n >= 2 ==> V(c, n) == c * V(c, n - 1) - V(c, n - 2)
    ensures n >= 2 ==> V(c, m - n + 2) == c * V(c, m - n + 1) - V(c, m - n)
  {
  }

  lemma VAlgebra(c: int, vm: int, v1: int, v2: int, r1: int, r0: int)
    ensures c * (vm * v1 - r1) - (vm * v2 - (c * r1 - r0)) == vm * (c * v1 - v2) - r0
  {
    Distribute(c, vm * v1, r1);
    Distribute(vm, c * v1, v2);
    assert c * (vm * v1) == vm * (c * v1);
  }

  /** The two steps of the trace ladder. */
  lemma VSteps(c: int, k: nat)
    ensures V(c, 2 * k) == V(c, k) * V(c, k) - 2
    ensures V(c, 2 * k + 1) == V(c, k) * V(c, k + 1) - c
    ensures V(c, 2 * k + 2) == V(c, k + 1) * V(c, k + 1) - 2
  {
    VAdd(c, k, k);
    VAdd(c, k + 1, k);
    VAdd(c, k + 1, k + 1);
    assert V(c, 0) == 2 && V(c, 1) == c;
    assert k + k == 2 * k && k + 1 + k == 2 * k + 1 && k + 1 + (k + 1) == 2 * k + 2;
    hide V;
    assert V(c, k + 1) * V(c, k) == V(c, k) * V(c, k + 1);
  }

  lemma CayleyHamilton(y: Quad, z: Quad, d: int)
    ensures Mul(y, Mul(y, z, d), d).a == 2 * y.a * Mul(y, z, d).a - Norm(y, d) * z.a
  {
    var ya, yb := y.a, y.b;
    assert ya * (ya * z.a + d * (yb * z.b)) == ya * ya * z.a + d * (ya * yb * z.b);
    assert d * (yb * (ya * z.b + yb * z.a)) == d * (ya * yb * z.b) + d * (yb * yb) * z.a;
    assert 2 * ya * (ya * z.a + d * (yb * z.b)) == 2 * (ya * ya * z.a) + 2 * (d * (ya * yb * z.b));
    assert (ya * ya - d * (yb * yb)) * z.a == ya * ya * z.a - d * (yb * yb) * z.a;
  }

  /** The traces of the even powers follow a recurrence of order two. */
  lemma EvenTrace(p: int, d: int, k: nat)
    requires k >= 2
    ensures var x := Quad(p, 1);
            QPow(x, 2 * k, d).a
            == 2 * (p * p + d) * QPow(x, 2 * (k - 1), d).a
               - Delta(p, d) * Delta(p, d) * QPow(x, 2 * (k - 2), d).a
  {
    var x := Quad(p, 1);
    var y := QPow(x, 2, d);
    QPowAdd(x, 2, 2 * (k - 2), d);
    QPowAdd(x, 2, 2 * (k - 1), d);
    NormPow(x, 2, d);
    assert QPow(x, 1, d) == Mul(x, ONE, d);
    MulOne(x, d);
    assert y == Mul(x, x, d);
    assert Pow(Norm(x, d), 2) == Norm(x, d) * Norm(x, d) by { assert Pow(Norm(x, d), 1) == Norm(x, d); }
    assert 2 + 2 * (k - 2) == 2 * (k - 1) && 2 + 2 * (k - 1) == 2 * k;
    hide QPow, Pow;
    CayleyHamilton(y, QPow(x, 2 * (k - 2), d), d);
  }

  /** The V sequence of the initial value is the trace, scaled by powers of the norm. */
  lemma {:induction false} VIsTrace(w: nat, p: int, d: int, c: int, k: nat)
    requires w > 0 && Cong(c * Delta(p, d), 2 * (p * p + d), w)
    ensures Cong(Pow(Delta(p, d), k) * V(c, k), 2 * QPow(Quad(p, 1), 2 * k, d).a, w)
    decreases k
  {
    hide QPow, Pow, V, Cong, Delta;
    var n, x := Delta(p, d), Quad(p, 1);
    VStart(n, c, p, d);
    if k == 0 {
      CongRefl(2, w);
    } else if k >= 2 {
      VIsTrace(w, p, d, c, k - 1);
      VIsTrace(w, p, d, c, k - 2);
      EvenTrace(p, d, k);
      VScaled(n, c, k);
      var a1, a2 := QPow(x, 2 * (k - 1), d).a, QPow(x, 2 * (k - 2), d).a;
      CongMul(c * n, 2 * (p * p + d), Pow(n, k - 1) * V(c, k - 1), 2 * a1, w);
      CongRefl(n * n, w);
      CongMul(n * n, n * n, Pow(n, k - 2) * V(c, k - 2), 2 * a2, w);
      CongAdd(c * n * (Pow(n, k - 1) * V(c, k - 1)), 2 * (p * p + d) * (2 * a1),
              n * n * (Pow(n, k - 2) * V(c, k - 2)), n * n * (2 * a2), w);
      assert 2 * (p * p + d) * (2 * a1) - n * n * (2 * a2) == 2 * (2 * (p * p + d) * a1 - n * n * a2);
    }
  }

  lemma VStart(n: int, c: int, p: int, d: int)
    ensures Pow(n, 0) * V(c, 0) == 2 && QPow(Quad(p, 1), 0, d).a == 1
    ensures Pow(n, 1) * V(c, 1) == c * n && QPow(Quad(p, 1), 2, d).a == p * p + d
  {
    var x := Quad(p, 1);
    assert Pow(n, 1) == n;
    assert QPow(x, 1, d) == Mul(x, ONE, d);
    MulOne(x, d);
  }

  lemma VScaled(n: int, c: int, k: nat)
    requires k >= 2
    ensures Pow(n, k) * V(c, k)
         == c * n * (Pow(n, k - 1) * V(c, k - 1)) - n * n * (Pow(n, k - 2) * V(c, k - 2))
  {
    var m, v1, v2 := Pow(n, k - 2), V(c, k - 1), V(c, k - 2);
    assert Pow(n, k - 1) == n * m && Pow(n, k) == n * (n * m);
    assert V(c, k) == c * v1 - v2;
    hide Pow, V;
    assert n * (n * m) * (c * v1 - v2) == n * (n * m) * (c * v1) - n * (n * m) * v2;
    assert n * (n * m) * (c * v1) == c * n * (n * m * v1);
    assert n * (n * m) * v2 == n * n * (m * v2);
  }

  lemma {:induction false} PowCancel(n: int, t: int, e: nat, x: int, w: nat)
    requires w > 0 && Cong(n * t, 1, w) && Div(w, Pow(n, e) * x)
    ensures Div(w, x)
    decreases e
  {
    if e == 0 {
      assert Pow(n, 0) * x == x;
    } else {
      var y := Pow(n, e - 1) * x;
      assert Pow(n, e) * x == n * y by { assert n * Pow(n, e - 1) * x == n * (Pow(n, e - 1) * x); }
      Cancel(n, t, y, w);
      PowCancel(n, t, e - 1, x, w);
    }
  }

  lemma Cancel(n: int, t: int, y: int, w: nat)
    requires w > 0 && Cong(n * t, 1, w) && Div(w, n * y)
    ensures Div(w, y)
  {
    hide Div;
    DivMul(w, n * y, t);
    DivMul(w, n * t - 1, y);
    DivAdd(w, n * y * t, (n * t - 1) * y);
    assert n * y * t - (n * t - 1) * y == y;
  }

  /** With an invertible norm, the ladder's answer 2 or -2 is the trace condition. */
  lemma TraceIsTwo(w: nat, p: int, d: int, c: int, t: int)
    requires w % 2 == 1 && Cong(c * Delta(p, d), 2 * (p * p + d), w) && Cong(Delta(p, d) * t, 1, w)
    ensures var v := V(c, Exponent(w));
            Cong(v, 2, w) || Cong(v, -2, w) <==> TraceHolds(w, d, p)
  {
    var e := Exponent(w);
    VIsTrace(w, p, d, c, e);
    var n, q, v := Pow(Delta(p, d), e), QPow(Quad(p, 1), 2 * e, d).a, V(c, e);
    OneSign(w, Delta(p, d), t, e, n, q, v, 1);
    OneSign(w, Delta(p, d), t, e, n, q, v, -1);
    assert n * 1 == n && n * -1 == -n && 2 * 1 == 2 && 2 * -1 == -2;
  }

  lemma OneSign(w: nat, delta: int, t: int, e: nat, n: int, q: int, v: int, s: int)
    requires w % 2 == 1 && n == Pow(delta, e) && Cong(delta * t, 1, w) && Cong(n * v, 2 * q, w)
    ensures Cong(v, 2 * s, w) <==> Cong(q, n * s, w)
  {
    hide Div, Pow;
    if Cong(v, 2 * s, w) {
      DivMul(w, v - 2 * s, n);
      DivAdd(w, (v - 2 * s) * n, n * v - 2 * q);
      assert (v - 2 * s) * n - (n * v - 2 * q) == 2 * (q - n * s);
      OddHalf(w, q - n * s);
    }
    if Cong(q, n * s, w) {
      DivMul(w, q - n * s, 2);
      DivAdd(w, (q - n * s) * 2, n * v - 2 * q);
      assert (q - n * s) * 2 + (n * v - 2 * q) == n * (v - 2 * s);
      PowCancel(delta, t, e, v - 2 * s, w);
    }
  }
}
