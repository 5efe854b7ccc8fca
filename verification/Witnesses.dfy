/**
 Why rounds of the Solovay-Strassen and the Miller-Rabin test tell composites
 from primes: at most half of all bases let an odd composite pass.
 */
module Witnesses {
  import opened Primes
  import opened QuadRing
  import opened LucasTheory
  import opened Montgomery
  import opened CtGcd
  import opened JacobiSymbol
  import JacobiRoutine
  import opened LucasTests
  import opened HybridTest
  import opened MillerRabin

  // ---- few roots modulo a prime -----------------------------------------------------------------

  /** A polynomial, highest coefficient first. */
  function Eval(c: seq<int>, x: int): int {
    if c == [] then 0 else Eval(c[..|c| - 1], x) * x + c[|c| - 1]
  }

  /** The quotient by x - r. */
  function Quot(c: seq<int>, r: int): (q: seq<int>)
    requires c != []
    ensures |q| == |c| - 1 && (|c| > 1 ==> q[0] == c[0])
  {
    var n := |c| - 1;
    if n == 0 then []
    else
      assert n == 1 ==> c[..1][..0] == [] && Eval(c[..1], r) == c[0];
      Quot(c[..n], r) + [Eval(c[..n], r)]
  }

  lemma {:induction false} EvalFactor(c: seq<int>, x: int, r: int)
    requires c != []
    ensures Eval(c, x) - Eval(c, r) == (x - r) * Eval(Quot(c, r), x)
    decreases |c|
  {
    var n := |c| - 1;
    if n == 0 {
      assert c[..0] == [];
    } else {
      var d := c[..n];
      EvalFactor(d, x, r);
      var q := Quot(d, r);
      assert Quot(c, r) == q + [Eval(d, r)] && (q + [Eval(d, r)])[..n - 1] == q;
      FactorStep(Eval(d, x), Eval(d, r), Eval(q, x), x, r);
    }
  }

  lemma FactorStep(dx: int, dr: int, qx: int, x: int, r: int)
    requires dx - dr == (x - r) * qx
    ensures dx * x - dr * r == (x - r) * (qx * x + dr)
  {
    assert (dx - dr) * x == (x - r) * (qx * x);
    assert dx * x - dr * r == (dx - dr) * x + dr * (x - r);
    assert (x - r) * (qx * x + dr) == (x - r) * (qx * x) + (x - r) * dr;
  }

  /** A polynomial with first coefficient 1 does not vanish at as many numbers as it has coefficients. */
  lemma {:induction false} FewRoots(p: nat, c: seq<int>) returns (x: nat)
    requires Prime(p) && c != [] && c[0] == 1 && |c| < p
    ensures 1 <= x <= |c| && !Div(p, Eval(c, x))
    decreases |c|
  {
    hide Prime, Div, Eval, Quot;
    var r := |c|;
    if r == 1 {
      EvalOne(c, 1);
      NotOne(p);
    }
    if !Div(p, Eval(c, r)) {
      x := r;
    } else {
      x := FewRoots(p, Quot(c, r));
      EvalFactor(c, x, r);
      TooClose(p, x, r);
      if Div(p, Eval(c, x)) {
        DivAdd(p, Eval(c, x), Eval(c, r));
        Euclid(p, x - r, Eval(Quot(c, r), x));
        assert false;
      }
    }
  }

  lemma EvalOne(c: seq<int>, x: int)
    requires |c| == 1
    ensures Eval(c, x) == c[0]
  {
    assert c[..0] == [];
  }

  lemma TooClose(p: nat, x: nat, r: nat)
    requires 0 < x < r < p
    ensures !Div(p, x - r)
  {
    if Div(p, x - r) { DivSmall(p, x - r); }
  }

  /** The polynomial x^h. */
  function Mono(h: nat): (c: seq<int>)
    ensures |c| == h + 1 && c[0] == 1
  {
    if h == 0 then [1] else Mono(h - 1) + [0]
  }

  lemma {:induction false} MonoIs(h: nat, x: int)
    ensures Eval(Mono(h), x) == Pow(x, h)
    decreases h
  {
    if h > 0 {
      MonoIs(h - 1, x);
      assert Mono(h)[..h] == Mono(h - 1);
    } else {
      assert Mono(0)[..0] == [];
    }
  }

  /** Modulo every odd prime some number has the symbol -1. */
  lemma NonResidue(p: nat) returns (b: nat)
    requires Prime(p) && p % 2 == 1
    ensures Jacobi(b, p) == -1
  {
    hide Prime, Jacobi, Div, Eval, Pow;
    PrimeBig(p);
    OddPrime(p);
    var h := p / 2;
    assert p == 2 * h + 1;
    var c := Mono(h - 1) + [-1];
    b := FewRoots(p, c);
    PowerLessOneIs(h, b);
    JacobiEuler(b, p);
    BelowNot(b, p);
    UnitOfPrime(p, b);
  }

  lemma PowerLessOneIs(h: nat, x: int)
    requires h > 0
    ensures Eval(Mono(h - 1) + [-1], x) == Pow(x, h) - 1
  {
    hide Mono, Pow;
    MonoIs(h - 1, x);
    PowNext(x, h - 1);
    var c := Mono(h - 1) + [-1];
    assert c[..h] == Mono(h - 1);
  }

  // ---- a unit outside -----------------------------------------------------------------------------

  lemma PrimeFactor(n: nat) returns (p: nat, m: nat)
    requires n > 1
    ensures Prime(p) && n == p * m && 0 < m < n
    decreases n
  {
    if Prime(n) {
      p, m := n, 1;
    } else {
      var d: nat :| 1 < d < n && Div(d, n);
      var e := Witness(d, n);
      var k: nat;
      p, k := PrimeFactor(d);
      hide Prime;
      PositiveFactor(d, e, n);
      Times3(p, k, e);
      m := k * e;
      PositiveProduct(k, e);
      PrimeBig(p);
      SmallerFactor(p, m);
    }
  }

  lemma PositiveFactor(d: nat, e: int, n: nat)
    requires d * e == n > 0
    ensures e > 0
  {
    if e <= 0 { AtLeast(d, 1 - e); }
  }

  lemma PositiveProduct(a: nat, b: nat)
    requires a > 0 && b > 0
    ensures a * b > 0
  {
    AtLeast(a, b);
  }

  lemma SmallerFactor(p: nat, m: nat)
    requires p > 1 && m > 0
    ensures m < p * m
  {
    MulLe(2, p, m);
  }

  lemma {:induction false} OnePlus(m: nat, k: nat, w: nat)
    requires w > 0 && Div(w, m * m)
    ensures Cong(Pow(1 + m, k), 1 + k * m, w)
    decreases k
  {
    if k == 0 {
      CongRefl(1, w);
    } else {
      hide Cong;
      OnePlus(m, k - 1, w);
      var y, z := Pow(1 + m, k - 1), 1 + (k - 1) * m;
      CongRefl(1 + m, w);
      CongMul(1 + m, 1 + m, y, z, w);
      assert (1 + m) * z - (1 + k * m) == m * m * (k - 1) by { SquareTerm(m, k); }
      DivMul(w, m * m, k - 1);
      CongIs((1 + m) * z, 1 + k * m, w);
      CongTrans(Pow(1 + m, k), (1 + m) * z, 1 + k * m, w);
    }
  }

  lemma CongIs(a: int, b: int, w: nat)
    requires w > 0 && Div(w, a - b)
    ensures Cong(a, b, w)
  {
  }

  lemma SquareTerm(m: int, k: int)
    ensures (1 + m) * (1 + (k - 1) * m) == 1 + k * m + m * m * (k - 1)
  {
    assert (1 + m) * (1 + (k - 1) * m) == 1 + (k - 1) * m + m + m * ((k - 1) * m);
    assert m * ((k - 1) * m) == m * m * (k - 1);
    assert k * m == (k - 1) * m + m;
  }

  /** The power to w - 1 of a unit that agrees with its symbol is 1. */
  lemma FermatOfEuler(w: nat, g: int)
    requires w % 2 == 1 && Coprime(g, w) && Cong(Pow(g, w / 2), Jacobi(g, w), w)
    ensures Cong(Pow(g, w - 1), 1, w)
  {
    hide Jacobi, Cong, Pow, Coprime;
    var x, j := Pow(g, w / 2), Jacobi(g, w);
    PowSquare(g, w / 2);
    assert 2 * (w / 2) == w - 1;
    CongMul(x, j, x, j, w);
    assert j * j == 1;
  }

  /** When p divides w = p m twice, 1 + m is a unit that fails. */
  lemma SquareCase(p: nat, m: nat)
    requires p > 1 && m > 0 && Div(p, m) && p * m % 2 == 1
    ensures Coprime(1 + m, p * m) && !Cong(Pow(1 + m, p * m / 2), Jacobi(1 + m, p * m), p * m)
  {
    var w := p * m;
    var k := Witness(p, m);
    hide Div, Jacobi, Pow;
    assert m * m == w * k by { Times3(p, m, k); Times3(m, p, k); }
    DivBy(w, k);
    SquareUnit(m, w);
    if Cong(Pow(1 + m, w / 2), Jacobi(1 + m, w), w) {
      FermatOfEuler(w, 1 + m);
      OnePlus(m, w - 1, w);
      NoMultiple(m, w, Pow(1 + m, w - 1));
      SmallerFactor(p, m);
      assert false;
    }
  }

  lemma SquareUnit(m: nat, w: nat)
    requires w > 0 && Div(w, m * m)
    ensures Coprime(1 + m, w)
  {
    DivMul(w, m * m, -1);
    assert (1 + m) * (1 - m) - 1 == m * m * -1;
    assert Cong((1 + m) * (1 - m), 1, w);
  }

  lemma NoMultiple(m: nat, w: nat, x: int)
    requires w > 0 && m > 0 && Cong(x, 1, w) && Cong(x, 1 + (w - 1) * m, w)
    ensures m >= w
  {
    hide Div;
    DivAdd(w, x - 1, x - (1 + (w - 1) * m));
    assert x - 1 - (x - (1 + (w - 1) * m)) == w * m - m;
    DivBy(w, m);
    DivAdd(w, w * m, w * m - m);
    DivTooBig(w, m);
  }

  /** A number that is b modulo p and 1 modulo m. */
  lemma Meet(b: int, p: nat, m: nat) returns (g: int)
    requires p > 0 && m > 0 && Coprime(p, m)
    ensures Cong(g, b, p) && Cong(g, 1, m)
  {
    var t: int :| Cong(p * t, 1, m);
    g := b + p * t * (1 - b);
    assert g - b == p * (t * (1 - b));
    DivBy(p, t * (1 - b));
    DivMul(m, p * t - 1, 1 - b);
    assert g - 1 == (p * t - 1) * (1 - b);
  }

  /** When p and m are coprime, a number of symbol -1 modulo p and 1 modulo m fails. */
  lemma CoprimeCase(p: nat, m: nat) returns (g: int)
    requires Prime(p) && m > 1 && !Div(p, m) && p * m % 2 == 1 && p % 2 == 1 && m % 2 == 1
    ensures Coprime(g, p * m) && !Cong(Pow(g, p * m / 2), Jacobi(g, p * m), p * m)
  {
    hide Prime, Jacobi, Pow, Coprime, Cong, Div;
    var w := p * m;
    UnitOfPrime(p, m);
    CoprimeSwap(m, p);
    var b := NonResidue(p);
    g := Meet(b, p, m);
    JacobiModulus(g, p, m);
    JacobiCong(g, b, p);
    JacobiCong(g, 1, m);
    JacobiOfOne(m);
    if Cong(Pow(g, w / 2), Jacobi(g, w), w) {
      CongFactor(Pow(g, w / 2), -1, p, m);
      PowCong(g, 1, w / 2, m);
      PowOne(w / 2);
      CongSym(Pow(g, w / 2), 1, m);
      CongTrans(1, Pow(g, w / 2), -1, m);
      OneNotMinus(m);
      assert false;
    }
  }

  lemma JacobiOfOne(m: nat)
    requires m % 2 == 1
    ensures Jacobi(1, m) == 1
  {
    CongRefl(1, m);
    assert Cong(1 * 1, 1, m);
    SquareHasOne(1, m);
  }

  lemma OneNotMinus(m: nat)
    requires m % 2 == 1 && m > 1
    ensures !Cong(1, -1, m)
  {
    if Cong(1, -1, m) { DivTooBig(m, 2); }
  }

  lemma OddFactors(p: nat, m: nat)
    requires p * m % 2 == 1
    ensures p % 2 == 1 && m % 2 == 1
  {
    if p % 2 == 0 { EvenTimes(p, m); }
    if m % 2 == 0 { EvenTimes(m, p); }
  }

  lemma TimesOne(p: nat)
    ensures p * 1 == p
  {
  }

  /** Every odd composite has a unit whose power is not its symbol. */
  lemma Outsider(w: nat) returns (g: int)
    requires w % 2 == 1 && w > 1 && !Prime(w)
    ensures Coprime(g, w) && !Cong(Pow(g, w / 2), Jacobi(g, w), w)
  {
    hide Prime, Jacobi, Pow, Coprime, Cong, Div;
    var p, m := PrimeFactor(w);
    OddFactors(p, m);
    PrimeBig(p);
    if Div(p, m) {
      SquareCase(p, m);
      g := 1 + m;
    } else {
      if m == 1 {
        TimesOne(p);
        assert false;
      }
      g := CoprimeCase(p, m);
    }
  }

  // ---- at most half -------------------------------------------------------------------------------

  /** Euler's criterion holds for a unit a. */
  ghost predicate EulerLiar(w: nat, a: int)
    requires w % 2 == 1
  {
    Jacobi(a, w) != 0 && Cong(Pow(a, w / 2), Jacobi(a, w), w)
  }

  /** A product of one that passes and a unit that fails is a unit that fails. */
  lemma ProductFails(w: nat, a: int, g: int)
    requires w % 2 == 1 && EulerLiar(w, a) && Coprime(g, w) && !Cong(Pow(g, w / 2), Jacobi(g, w), w)
    ensures Coprime(a * g, w) && !EulerLiar(w, a * g)
  {
    hide Jacobi, Pow, Cong, Coprime;
    var h := w / 2;
    var x, y, i, j := Pow(a, h), Pow(g, h), Jacobi(a, w), Jacobi(g, w);
    CoprimeTimes(a, g, w);
    JacobiTimes(a, g, w);
    PowTimes(a, g, h);
    SignTwice(i, y);
    SignTwice(i, j);
    if Cong(x * y, i * j, w) {
      CongSym(x, i, w);
      CongRefl(y, w);
      CongMul(i, x, y, y, w);
      CongTrans(i * y, x * y, i * j, w);
      CongRefl(i, w);
      CongMul(i, i, i * y, i * j, w);
      assert false;
    }
  }

  lemma SignTwice(i: int, y: int)
    requires i == 1 || i == -1
    ensures i * (i * y) == y
  {
  }

  lemma LiarModulo(w: nat, a: int)
    requires w % 2 == 1
    ensures EulerLiar(w, a % w) <==> EulerLiar(w, a)
  {
    hide Jacobi, Pow, Cong;
    CongMod(a, w);
    JacobiCong(a, a % w, w);
    PowCong(a, a % w, w / 2, w);
    PowCong(a % w, a, w / 2, w);
    if EulerLiar(w, a) { CongTrans(Pow(a % w, w / 2), Pow(a, w / 2), Jacobi(a, w), w); }
    if EulerLiar(w, a % w) { CongTrans(Pow(a, w / 2), Pow(a % w, w / 2), Jacobi(a, w), w); }
  }

  /** The bases a test draws from. */
  ghost function Bases(w: nat): (s: set<nat>)
    ensures forall a: nat :: a in s <==> 0 < a < w
    ensures |s| == if w > 0 then w - 1 else 0
  {
    if w <= 1 then {} else Bases(w - 1) + {w - 1}
  }

  function Moved(a: nat, g: int, w: nat): nat
    requires w > 0
  {
    a * g % w
  }

  lemma {:induction false} MovedCard(s: set<nat>, g: int, w: nat)
    requires w > 0 && forall x, y :: x in s && y in s && Moved(x, g, w) == Moved(y, g, w) ==> x == y
    ensures |set x | x in s :: Moved(x, g, w)| == |s|
    decreases |s|
  {
    hide Moved;
    if s != {} {
      var x :| x in s;
      var t := s - {x};
      MovedCard(t, g, w);
      assert (set y | y in s :: Moved(y, g, w)) == (set y | y in t :: Moved(y, g, w)) + {Moved(x, g, w)};
    }
  }

  /** A set of units that multiplication by a unit moves out of itself holds at most half. */
  lemma AtMostHalf(w: nat, s: set<nat>, g: int)
    requires w > 1 && s <= Bases(w) && Coprime(g, w)
    requires forall a :: a in s ==> Coprime(a, w) && Moved(a, g, w) !in s
    ensures 2 * |s| <= w - 1
  {
    hide Coprime, Moved, Bases;
    forall x, y | x in s && y in s && Moved(x, g, w) == Moved(y, g, w)
      ensures x == y
    {
      CancelUnit(w, x, y, g);
    }
    MovedCard(s, g, w);
    var image := set x | x in s :: Moved(x, g, w);
    forall a | a in s
      ensures Moved(a, g, w) in Bases(w)
    {
      MovedStays(a, g, w);
    }
    assert s !! image && s + image <= Bases(w);
    SubsetCard(s + image, Bases(w));
  }

  lemma MovedStays(a: nat, g: int, w: nat)
    requires w > 1 && Coprime(a, w) && Coprime(g, w)
    ensures 0 < Moved(a, g, w) < w
  {
    hide Coprime;
    CoprimeTimes(a, g, w);
    UnitResidue(w, a * g);
  }

  lemma {:induction false} SubsetCard(s: set<nat>, t: set<nat>)
    requires s <= t
    ensures |s| <= |t|
    decreases |s|
  {
    if s != {} {
      var x :| x in s;
      SubsetCard(s - {x}, t - {x});
    }
  }

  lemma CancelUnit(w: nat, x: nat, y: nat, g: int)
    requires x < w && y < w && Coprime(g, w) && Moved(x, g, w) == Moved(y, g, w)
    ensures x == y
  {
    var t: int :| Cong(g * t, 1, w);
    hide Cong;
    CongSame(x * g, y * g, w);
    CongRefl(t, w);
    CongMul(x * g, y * g, t, t, w);
    Unfactored(w, x, g, t);
    Unfactored(w, y, g, t);
    CongSym(x * g * t, x, w);
    CongTrans(x, x * g * t, y * g * t, w);
    CongTrans(x, y * g * t, y, w);
    Residue(x, y, w);
  }

  lemma Unfactored(w: nat, x: int, g: int, t: int)
    requires w > 0 && Cong(g * t, 1, w)
    ensures Cong(x * g * t, x, w)
  {
    hide Cong;
    CongRefl(x, w);
    CongMul(x, x, g * t, 1, w);
    assert x * (g * t) == x * g * t;
  }

  lemma UnitResidue(w: nat, x: int)
    requires w > 1 && Coprime(x, w)
    ensures 0 < x % w < w
  {
    hide Coprime;
    CongMod(x, w);
    if x % w == 0 {
      CoprimeCong(0, x, w);
      ZeroNotCoprime(w);
      assert false;
    }
  }

  /** The bases that pass an Euler round with the true symbol. */
  ghost function EulerLiars(w: nat): set<nat>
    requires w % 2 == 1
  {
    set a: nat | 0 < a < w && EulerLiar(w, a)
  }

  /** At most half of the bases below an odd composite satisfy Euler's criterion. */
  lemma HalfEuler(w: nat)
    requires w % 2 == 1 && w > 1 && !Prime(w)
    ensures 2 * |EulerLiars(w)| <= w - 1
  {
    hide EulerLiar, Prime, Jacobi, Cong, Coprime, Pow;
    var g := Outsider(w);
    forall a | a in EulerLiars(w)
      ensures Coprime(a, w) && Moved(a, g, w) !in EulerLiars(w)
    {
      LiarUnit(w, a);
      ProductFails(w, a, g);
      LiarModulo(w, a * g);
    }
    AtMostHalf(w, EulerLiars(w), g);
  }

  lemma LiarUnit(w: nat, a: int)
    requires w % 2 == 1 && EulerLiar(w, a)
    ensures Coprime(a, w)
  {
  }

  // ---- strong bases satisfy Euler's criterion ------------------------------------------------------

  lemma {:induction false} PowMinusOne(k: nat)
    ensures Pow(-1, k) == Alt(k)
    decreases k
  {
    if k > 0 {
      PowMinusOne(k - 1);
      AltAdd(1, k - 1);
    }
  }

  /** The power of a number that is -1. */
  lemma MinusPower(x: int, e: nat, k: nat, n: nat)
    requires n > 0 && Cong(Pow(x, e), -1, n)
    ensures Cong(Pow(x, e * k), Alt(k), n)
  {
    hide Cong, Pow, Alt;
    PowPow(x, e, k);
    PowCong(Pow(x, e), -1, k, n);
    PowMinusOne(k);
  }

  /** p - 1 as a power of two and an odd number. */
  lemma {:induction false} OddPart(n: nat) returns (v: nat, q: nat)
    requires n > 0
    ensures n == Pow2(v) * q && q % 2 == 1
    decreases n
  {
    if n % 2 == 1 {
      v, q := 0, n;
    } else {
      v, q := OddPart(n / 2);
      v := v + 1;
      assert 2 * (Pow2(v - 1) * q) == 2 * Pow2(v - 1) * q;
    }
  }

  /** If b^(2^r t) is -1 modulo a prime p, for an odd t, then 2^(r + 1) divides p - 1. */
  lemma PrimeIsOne(b: int, r: nat, t: nat, p: nat) returns (k: nat)
    requires Prime(p) && p % 2 == 1 && t % 2 == 1 && Cong(Pow(b, Pow2(r) * t), -1, p)
    ensures p == 1 + Pow2(r + 1) * k && !Div(p, b)
  {
    hide Prime, Cong, Pow, Pow2, Div;
    OddPrime(p);
    var e := Pow2(r) * t;
    NotZeroPower(b, e, p);
    var v, q := OddPart(p - 1);
    if v <= r {
      MinusPower(b, e, q, p);
      FermatUnit(p, b);
      Pow2Add(v, r - v);
      var c := Pow2(r - v) * t;
      assert e * q == (p - 1) * c by { Regroup(Pow2(v), Pow2(r - v), t, q); }
      PowMany(b, p - 1, c, p);
      OddAlt(q);
      CongSym(Pow(b, e * q), 1, p);
      CongTrans(1, Pow(b, e * q), -1, p);
      OneNotMinus(p);
      assert false;
    } else {
      Pow2Add(r + 1, v - r - 1);
      k := Pow2(v - r - 1) * q;
      Times3(Pow2(r + 1), Pow2(v - r - 1), q);
    }
  }

  lemma Regroup(a: int, b: int, t: int, q: int)
    ensures a * b * t * q == a * q * (b * t)
  {
    assert a * b * t * q == a * (b * t) * q;
    assert a * (b * t) * q == a * q * (b * t);
  }

  lemma AltSign(k: int)
    ensures Alt(k) == 1 || Alt(k) == -1
  {
  }

  lemma OddAlt(q: nat)
    requires q % 2 == 1
    ensures Alt(q) == -1
  {
  }

  lemma NotZeroPower(b: int, e: nat, p: nat)
    requires p > 2 && Cong(Pow(b, e), -1, p)
    ensures !Div(p, b) && e > 0
  {
    hide Cong;
    if e == 0 {
      CongRefl(1, p);
      NotBoth(p, 1);
    } else if Div(p, b) {
      MultiplePow(p, b, e);
      CongSym(Pow(b, e), 0, p);
      CongTrans(0, Pow(b, e), -1, p);
      ZeroNotMinus(p);
      assert false;
    }
  }

  lemma ZeroNotMinus(p: nat)
    requires p > 2
    ensures !Cong(0, -1, p)
  {
    NotOne(p);
  }

  /** The symbol modulo a prime, read off that division. */
  lemma PrimeSign(b: int, r: nat, t: nat, p: nat) returns (k: nat)
    requires Prime(p) && p % 2 == 1 && t % 2 == 1 && Cong(Pow(b, Pow2(r) * t), -1, p)
    ensures p == 1 + Pow2(r + 1) * k && Jacobi(b, p) == Alt(k)
  {
    hide Prime, Cong, Pow, Pow2, Div, Jacobi, Alt;
    k := PrimeIsOne(b, r, t, p);
    OddPrime(p);
    var e, j := Pow2(r) * t, Jacobi(b, p);
    UnitOfPrime(p, b);
    HalfIs(p, r, k);
    JacobiEuler(b, p);
    PowCong(Pow(b, p / 2), j, t, p);
    PowPow(b, p / 2, t);
    assert p / 2 * t == e * k by { Regroup(Pow2(r), k, t, 1); Regroup(Pow2(r), t, k, 1); }
    MinusPower(b, e, k, p);
    OddPower(j, t);
    CongSym(Pow(b, e * k), j, p);
    CongTrans(j, Pow(b, e * k), Alt(k), p);
    AltSign(k);
    SameSign(j, Alt(k), p);
  }

  lemma HalfIs(n: nat, r: nat, k: nat)
    requires n == 1 + Pow2(r + 1) * k
    ensures n / 2 == Pow2(r) * k
  {
    assert Pow2(r + 1) == 2 * Pow2(r);
    hide Pow2;
    var x := Pow2(r) * k;
    Times3(2, Pow2(r), k);
    assert n == 2 * x + 1;
  }

  lemma {:induction false} OddPower(j: int, t: nat)
    requires (j == 1 || j == -1) && t % 2 == 1
    ensures Pow(j, t) == j
  {
    if j == 1 { PowOne(t); } else { PowMinusOne(t); }
  }

  lemma SameSign(i: int, j: int, p: nat)
    requires p > 2 && (i == 1 || i == -1) && (j == 1 || j == -1) && Cong(i, j, p)
    ensures i == j
  {
    NotOne(p);
  }

  /** The same for every odd modulus, over its prime factors. */
  lemma {:induction false} PartSign(b: int, r: nat, t: nat, n: nat) returns (k: nat)
    requires n % 2 == 1 && t % 2 == 1 && Cong(Pow(b, Pow2(r) * t), -1, n)
    ensures n == 1 + Pow2(r + 1) * k && Jacobi(b, n) == Alt(k)
    decreases n
  {
    hide Prime, Cong, Pow, Pow2, Div, Jacobi, Alt;
    if n == 1 {
      JacobiOne(b);
      EvenAlt(0);
      k := 0;
    } else {
      var p, m := PrimeFactor(n);
      OddFactors(p, m);
      CongFactor(Pow(b, Pow2(r) * t), -1, p, m);
      var i := PrimeSign(b, r, t, p);
      var j := PartSign(b, r, t, m);
      JacobiModulus(b, p, m);
      var z := Pow2(r + 1);
      k := i + j + z * (i * j);
      ProductOne(z, i, j);
      Pow2Double(r);
      AltAdd(i, j);
      AltAdd(i + j, z * (i * j));
      Times3(2, Pow2(r), i * j);
      EvenAlt(Pow2(r) * (i * j));
    }
  }

  lemma Pow2Double(r: nat)
    ensures Pow2(r + 1) == 2 * Pow2(r)
  {
  }

  lemma ProductOne(z: int, i: int, j: int)
    ensures (1 + z * i) * (1 + z * j) == 1 + z * (i + j + z * (i * j))
  {
    assert (1 + z * i) * (1 + z * j) == 1 + z * i + z * j + z * i * (z * j);
    assert z * i * (z * j) == z * (z * (i * j));
    assert z * (i + j + z * (i * j)) == z * i + z * j + z * (z * (i * j));
  }

  lemma {:induction false} JacobiPow(b: int, t: nat, n: nat)
    requires n % 2 == 1
    ensures Jacobi(Pow(b, t), n) == Pow(Jacobi(b, n), t)
    decreases t
  {
    hide Jacobi;
    if t == 0 {
      JacobiOfOne(n);
    } else {
      JacobiPow(b, t - 1, n);
      JacobiTimes(b, Pow(b, t - 1), n);
    }
  }

  /** A number whose odd power is 1 has the symbol 1. */
  lemma OddRootOfOne(b: int, t: nat, n: nat)
    requires n % 2 == 1 && t % 2 == 1 && Cong(Pow(b, t), 1, n)
    ensures Jacobi(b, n) == 1
  {
    hide Jacobi, Cong, Pow;
    JacobiPow(b, t, n);
    JacobiCong(Pow(b, t), 1, n);
    JacobiOfOne(n);
    if Jacobi(b, n) == 0 {
      PowZero(t);
    } else {
      OddPower(Jacobi(b, n), t);
    }
  }

  lemma StepOne(w: nat, b: nat)
    requires w % 2 == 1 && w > 1
    ensures Zeros(w - 1) >= 1 && MillerRabin.Step(w, b, 1) == Pow(b, w / 2)
  {
    assert Pow2(1) == 2;
    assert (w - 1) / 2 == w / 2;
  }

  lemma {:induction false} ShiftsBack(n: nat, i: nat, j: nat)
    requires n > 0 && i <= j <= Zeros(n)
    ensures Shr(n, i) == Pow2(j - i) * Shr(n, j)
    decreases j - i
  {
    hide Zeros, Shr;
    if i < j {
      ShiftsBack(n, i + 1, j);
      ZerosAre(n, i);
      Pow2Double(j - i - 1);
      hide Pow2;
      Times3(2, Pow2(j - i - 1), Shr(n, j));
    }
  }

  lemma ShrNone(n: nat)
    ensures Shr(n, 0) == n
  {
    assert Pow2(0) == 1;
  }

  /** The symbol of a base whose power meets -1 at level j. */
  lemma LevelSign(w: nat, b: nat, j: nat)
    requires w % 2 == 1 && w > 1 && 1 <= j <= Zeros(w - 1) && Cong(MillerRabin.Step(w, b, j), -1, w)
    ensures Jacobi(b, w) == if j == 1 then -1 else 1
  {
    hide Zeros, Shr, Cong, Pow, Pow2, Jacobi, Alt;
    var n := w - 1;
    var s := Zeros(n);
    var r, t := s - j, Shr(n, s);
    ZerosAre(n, s);
    ShiftsBack(n, j, s);
    var k := PartSign(b, r, t, w);
    ShiftsBack(n, 0, s);
    ShrNone(n);
    Pow2Add(r + 1, j - 1);
    Times3(Pow2(r + 1), Pow2(j - 1), t);
    SameFactor(Pow2(r + 1), k, Pow2(j - 1) * t);
    LevelParity(j, t);
  }

  lemma SameFactor(z: nat, a: int, b: int)
    requires z > 0 && z * a == z * b
    ensures a == b
  {
    DivBy(z, a);
    DivBy(z, b);
  }

  lemma LevelParity(j: nat, t: nat)
    requires j >= 1 && t % 2 == 1
    ensures Alt(Pow2(j - 1) * t) == if j == 1 then -1 else 1
  {
    if j == 1 {
      assert Pow2(0) * t == t;
    } else {
      Pow2Double(j - 2);
      Times3(2, Pow2(j - 2), t);
      EvenAlt(Pow2(j - 2) * t);
    }
  }

  /** A strong base satisfies Euler's criterion. */
  lemma StrongIsEuler(w: nat, b: nat)
    requires w % 2 == 1 && w > 2 && StrongBase(w, b)
    ensures EulerLiar(w, b)
  {
    hide Zeros, Shr, Cong, Pow, Jacobi, MillerRabin.Step;
    var s := Zeros(w - 1);
    StepOne(w, b);
    if Cong(MillerRabin.Step(w, b, s), 1, w) {
      ZerosAre(w - 1, s);
      StepIsPower(w, b, s);
      OddRootOfOne(b, Shr(w - 1, s), w);
      OnesStay(w, b, s, 1);
    } else {
      var j :| 1 <= j <= s && Cong(MillerRabin.Step(w, b, j), -1, w);
      LevelSign(w, b, j);
      if j > 1 {
        StepSquare(w, b, j - 1);
        CongMul(MillerRabin.Step(w, b, j), -1, MillerRabin.Step(w, b, j), -1, w);
        OnesStay(w, b, j - 1, 1);
      }
    }
  }

  lemma StepIsPower(w: nat, b: nat, j: nat)
    requires w > 0
    ensures MillerRabin.Step(w, b, j) == Pow(b, Shr(w - 1, j))
  {
  }

  // ---- the tests --------------------------------------------------------------------------------------

  /** The bases below w that pass a round of the Miller-Rabin and of the Solovay-Strassen test. */
  ghost function StrongBases(w: nat): set<nat>
    requires w > 1
  {
    set a: nat | 0 < a < w && StrongBase(w, a)
  }

  ghost function EulerBases(w: nat): set<nat>
    requires w > 0
  {
    set a: nat | 0 < a < w && EulerHolds(w, a, JacobiRoutine.Answer(a, w))
  }

  /** At most half of the bases let an odd composite pass a round of either test. */
  lemma HalfPass(w: nat)
    requires w % 2 == 1 && w > 1 && !Prime(w)
    ensures 2 * |StrongBases(w)| <= w - 1 && 2 * |EulerBases(w)| <= w - 1
  {
    hide Prime, StrongBase, EulerLiar, EulerHolds, JacobiRoutine.Answer;
    HalfEuler(w);
    forall a | a in StrongBases(w)
      ensures a in EulerLiars(w)
    {
      StrongIsEuler(w, a);
    }
    SubsetCard(StrongBases(w), EulerLiars(w));
    forall a | a in EulerBases(w)
      ensures a in EulerLiars(w)
    {
      RoundIsEuler(w, a);
    }
    SubsetCard(EulerBases(w), EulerLiars(w));
  }

  lemma RoundIsEuler(w: nat, a: nat)
    requires w % 2 == 1 && EulerHolds(w, a, JacobiRoutine.Answer(a, w))
    ensures EulerLiar(w, a)
  {
    hide Jacobi, Pow, Cong, JacobiRoutine.Fits;
    AnswerIs(a, w);
  }

  /** The lists of k members of a set. */
  ghost function Lists(s: set<nat>, k: nat): set<seq<nat>> {
    if k == 0 then {[]} else set x, l | x in s && l in Lists(s, k - 1) :: [x] + l
  }

  lemma {:induction false} ListsAre(s: set<nat>, k: nat, l: seq<nat>)
    ensures l in Lists(s, k) <==> |l| == k && forall i :: 0 <= i < k ==> l[i] in s
    decreases k
  {
    if k > 0 {
      ListsStep(s, k);
      hide Lists;
      if l != [] { ListsAre(s, k - 1, l[1..]); }
    }
  }

  /** The lists of t behind one x. */
  ghost function Behind(x: nat, t: set<seq<nat>>): (r: set<seq<nat>>)
    ensures forall m :: m in r <==> m != [] && m[0] == x && m[1..] in t
  {
    var r := set l | l in t :: [x] + l;
    assert forall m: seq<nat> :: m != [] && m[0] == x && m[1..] in t ==> m == [x] + m[1..];
    r
  }

  lemma {:induction false} BehindCard(x: nat, t: set<seq<nat>>)
    ensures |Behind(x, t)| == |t|
    decreases |t|
  {
    hide Behind;
    if t == {} {
      assert Behind(x, t) == {};
    } else {
      var m :| m in t;
      BehindCard(x, t - {m});
      assert ([x] + m)[1..] == m;
      forall l | l in Behind(x, t)
        ensures l in Behind(x, t - {m}) + {[x] + m}
      {
        assert l == [x] + l[1..];
      }
      assert Behind(x, t) == Behind(x, t - {m}) + {[x] + m};
    }
  }

  lemma {:induction false} PrependCard(s: set<nat>, t: set<seq<nat>>, r: set<seq<nat>>)
    requires forall m :: m in r <==> m != [] && m[0] in s && m[1..] in t
    ensures |r| == |s| * |t|
    decreases |s|
  {
    hide Behind;
    if s == {} {
      assert r == {};
    } else {
      var x :| x in s;
      var rest, a := s - {x}, Behind(x, t);
      assert a <= r;
      PrependCard(rest, t, r - a);
      BehindCard(x, t);
      assert r == a + (r - a);
      assert |s| * |t| == |rest| * |t| + |t|;
    }
  }

  lemma ListsStep(s: set<nat>, k: nat)
    requires k > 0
    ensures forall m :: m in Lists(s, k) <==> m != [] && m[0] in s && m[1..] in Lists(s, k - 1)
  {
    var t := Lists(s, k - 1);
    assert Lists(s, k) == set x, l | x in s && l in t :: [x] + l;
    hide Lists;
    assert forall m: seq<nat> :: m != [] ==> m == [m[0]] + m[1..];
    assert forall x: nat, l: seq<nat> :: ([x] + l)[1..] == l;
  }

  lemma {:induction false} ListsCard(s: set<nat>, k: nat)
    ensures |Lists(s, k)| == Pow(|s|, k)
    decreases k
  {
    if k > 0 {
      ListsCard(s, k - 1);
      var t := Lists(s, k - 1);
      ListsStep(s, k);
      hide Lists;
      PrependCard(s, t, Lists(s, k));
    }
  }

  lemma {:induction false} PowHalf(n: nat, m: nat, k: nat)
    requires 2 * n <= m
    ensures 0 <= Pow(2, k) * Pow(n, k) <= Pow(m, k) && Pow(2, k) > 0 && Pow(n, k) >= 0
    decreases k
  {
    if k > 0 {
      PowHalf(n, m, k - 1);
      var a, b, c := Pow(2, k - 1), Pow(n, k - 1), Pow(m, k - 1);
      assert 2 * a * (n * b) == 2 * n * (a * b);
      MulLe(a * b, c, 2 * n);
      MulLe(2 * n, m, c);
    }
  }

  /** The lists of k bases below w with which the fixed-depth Miller-Rabin test accepts w. */
  ghost predicate MillerRabinRun(w: nat, k: nat, l: seq<nat>)
    requires w > 1
  {
    |l| == k && forall i :: 0 <= i < k ==> 0 < l[i] < w && StrongBase(w, l[i])
  }

  ghost predicate EulerRun(w: nat, k: nat, l: seq<nat>)
    requires w > 0
  {
    |l| == k && (forall i :: 0 <= i < k ==> 0 < l[i] < w) && EulerPasses(w, l)
  }

  /**
   Of all lists of k bases below an odd composite, at most one in 2^k makes the Miller-Rabin
   test accept it, and at most one in 2^k the Solovay-Strassen test.
   */
  lemma RunsRefute(w: nat, k: nat) returns (all: set<seq<nat>>, strong: set<seq<nat>>, euler: set<seq<nat>>)
    requires w % 2 == 1 && w > 1 && !Prime(w)
    ensures forall l :: l in all <==> |l| == k && forall i :: 0 <= i < k ==> 0 < l[i] < w
    ensures forall l :: l in strong <==> MillerRabinRun(w, k, l)
    ensures forall l :: l in euler <==> EulerRun(w, k, l)
    ensures Pow(2, k) * |strong| <= |all| && Pow(2, k) * |euler| <= |all|
  {
    hide Prime, StrongBase, EulerHolds, JacobiRoutine.Answer, Lists, Pow;
    all, strong, euler := Lists(Bases(w), k), Lists(StrongBases(w), k), Lists(EulerBases(w), k);
    forall l: seq<nat>
      ensures l in all <==> |l| == k && forall i :: 0 <= i < k ==> 0 < l[i] < w
      ensures l in strong <==> MillerRabinRun(w, k, l)
      ensures l in euler <==> EulerRun(w, k, l)
    {
      ListsAre(Bases(w), k, l);
      ListsAre(StrongBases(w), k, l);
      ListsAre(EulerBases(w), k, l);
      if w == 3 { ThreeIsPrime(); assert false; }
    }
    ListsCard(Bases(w), k);
    ListsCard(StrongBases(w), k);
    ListsCard(EulerBases(w), k);
    HalfPass(w);
    PowHalf(|StrongBases(w)|, w - 1, k);
    PowHalf(|EulerBases(w)|, w - 1, k);
  }

  /** The lists of k bases with which the hybrid test accepts, for some fallback and some later draws. */
  ghost predicate HybridRun(m: Mont, k: nat, l: seq<nat>)
    requires m.w > 0 && m.r > 0
  {
    && |l| == k && (forall i :: 0 <= i < k ==> 0 < l[i] < m.w)
    && exists fallback: seq<nat>, ps: seq<nat> :: HybridPasses(m, l, fallback, ps)
  }

  /**
   Of all lists of k bases below an odd composite, at most one in 2^k lets the hybrid test
   accept it, whatever the fallback candidates and the draws of the trace rounds are.
   */
  lemma HybridRunsRefute(m: Mont, k: nat) returns (all: set<seq<nat>>, accepting: set<seq<nat>>)
    requires m.Ok() && m.w > 1 && !Prime(m.w)
    ensures forall l :: l in all <==> |l| == k && forall i :: 0 <= i < k ==> 0 < l[i] < m.w
    ensures forall l :: l in accepting <==> HybridRun(m, k, l)
    ensures Pow(2, k) * |accepting| <= |all|
  {
    hide Prime, StrongBase, EulerPasses, HybridPasses, Pow, Cong;
    var strong, euler;
    all, strong, euler := RunsRefute(m.w, k);
    accepting := set l | l in all && HybridRun(m, k, l);
    if m.w == 3 { ThreeIsPrime(); assert false; }
    forall l | l in accepting
      ensures l in euler
    {
      var fallback: seq<nat>, ps: seq<nat> :| HybridPasses(m, l, fallback, ps);
      HybridIsEuler(m, l, fallback, ps);
    }
    ListCard(accepting, euler);
    PowTwoPositive(k);
    MulLe(|accepting|, |euler|, Pow(2, k));
  }

  /** With the seven Euler rounds of the code that is at most one list in 128. */
  lemma SevenRounds(m: Mont) returns (all: set<seq<nat>>, accepting: set<seq<nat>>)
    requires m.Ok() && m.w > 1 && !Prime(m.w)
    ensures forall l :: l in all <==> |l| == 7 && forall i :: 0 <= i < 7 ==> 0 < l[i] < m.w
    ensures forall l :: l in accepting <==> HybridRun(m, 7, l)
    ensures 128 * |accepting| <= |all|
  {
    hide Prime, HybridRun;
    all, accepting := HybridRunsRefute(m, 7);
    PowAdd(2, 4, 3);
    assert Pow(2, 3) == 8 && Pow(2, 4) == 16;
  }

  lemma HybridIsEuler(m: Mont, bases: seq<nat>, fallback: seq<nat>, ps: seq<nat>)
    requires m.Ok() && m.w > 3 && HybridPasses(m, bases, fallback, ps)
    ensures EulerPasses(m.w, bases)
  {
    hide EulerPasses, Search, TracePasses, Cong;
  }

  lemma {:induction false} ListCard(s: set<seq<nat>>, t: set<seq<nat>>)
    requires s <= t
    ensures |s| <= |t|
    decreases |s|
  {
    if s != {} {
      var x :| x in s;
      ListCard(s - {x}, t - {x});
    }
  }

  lemma {:induction false} PowTwoPositive(k: nat)
    ensures Pow(2, k) > 0
    decreases k
  {
    if k > 0 { PowTwoPositive(k - 1); }
  }

  lemma ThreeIsPrime()
    ensures Prime(3)
  {
  }
}
