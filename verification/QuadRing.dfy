/**
 The ring of pairs a + b * sqrt(d), in which the Lucas tests of
 crypto/bn/bn_prime.c compute, and powers in it modulo a prime.
 */
module QuadRing {
  import opened Primes

  /** a + b * sqrt(d) */
  datatype Quad = Quad(a: int, b: int)

  const ZERO := Quad(0, 0)
  const ONE := Quad(1, 0)

  function Add(x: Quad, y: Quad): Quad {
    Quad(x.a + y.a, x.b + y.b)
  }

  function Mul(x: Quad, y: Quad, d: int): Quad {
    Quad(x.a * y.a + d * (x.b * y.b), x.a * y.b + x.b * y.a)
  }

  function Scale(c: int, x: Quad): Quad {
    Quad(c * x.a, c * x.b)
  }

  function QPow(x: Quad, n: nat, d: int): Quad {
    if n == 0 then ONE else Mul(x, QPow(x, n - 1, d), d)
  }

  function Norm(x: Quad, d: int): int {
    x.a * x.a - d * (x.b * x.b)
  }

  // ---- ring laws ----------------------------------------------------------------------

  lemma MulComm(x: Quad, y: Quad, d: int)
    ensures Mul(x, y, d) == Mul(y, x, d)
  {
  }

  lemma MulOne(x: Quad, d: int)
    ensures Mul(ONE, x, d) == x == Mul(x, ONE, d)
  {
  }

  lemma MulAssoc(x: Quad, y: Quad, z: Quad, d: int)
    ensures Mul(Mul(x, y, d), z, d) == Mul(x, Mul(y, z, d), d)
  {
    AssocA(x, y, z, d);
    AssocB(x, y, z, d);
  }

  lemma SumTimes(u: int, v: int, t: int)
    ensures (u + v) * t == u * t + v * t
  {
  }

  lemma Times3(u: int, v: int, t: int)
    ensures u * v * t == u * (v * t)
  {
  }

  lemma Times4(d: int, u: int, v: int, t: int)
    ensures d * (u * v) * t == u * (d * (v * t)) == d * (u * (v * t))
  {
    Times3(d, u * v, t);
    Times3(u, v, t);
  }

  lemma AssocA(x: Quad, y: Quad, z: Quad, d: int)
    ensures Mul(Mul(x, y, d), z, d).a == Mul(x, Mul(y, z, d), d).a
  {
    SumTimes(x.a * y.a, d * (x.b * y.b), z.a);
    Times3(x.a, y.a, z.a);
    Times4(d, x.b, y.b, z.a);
    SumTimes(x.a * y.b, x.b * y.a, z.b);
    Distribute(d, x.a * y.b * z.b, x.b * y.a * z.b);
    Times3(x.a, y.b, z.b);
    Times3(x.b, y.a, z.b);
    Distribute(x.a, y.a * z.a, d * (y.b * z.b));
    Times4(d, x.a, y.b, z.b);
    Distribute(x.b, y.a * z.b, y.b * z.a);
    Distribute(d, x.b * (y.a * z.b), x.b * (y.b * z.a));
  }

  lemma AssocB(x: Quad, y: Quad, z: Quad, d: int)
    ensures Mul(Mul(x, y, d), z, d).b == Mul(x, Mul(y, z, d), d).b
  {
    SumTimes(x.a * y.a, d * (x.b * y.b), z.b);
    Times3(x.a, y.a, z.b);
    Times4(d, x.b, y.b, z.b);
    SumTimes(x.a * y.b, x.b * y.a, z.a);
    Times3(x.a, y.b, z.a);
    Times3(x.b, y.a, z.a);
    Distribute(x.a, y.a * z.b, y.b * z.a);
    Distribute(x.b, y.a * z.a, d * (y.b * z.b));
  }

  lemma MulAdd(x: Quad, y: Quad, z: Quad, d: int)
    ensures Mul(x, Add(y, z), d) == Add(Mul(x, y, d), Mul(x, z, d))
    ensures Mul(Add(y, z), x, d) == Add(Mul(y, x, d), Mul(z, x, d))
  {
    assert x.a * (y.a + z.a) + d * (x.b * (y.b + z.b))
        == (x.a * y.a + d * (x.b * y.b)) + (x.a * z.a + d * (x.b * z.b)) by {
      assert d * (x.b * (y.b + z.b)) == d * (x.b * y.b) + d * (x.b * z.b);
    }
  }

  lemma MulScale(c: int, x: Quad, y: Quad, d: int)
    ensures Mul(x, Scale(c, y), d) == Scale(c, Mul(x, y, d))
  {
    assert x.a * (c * y.a) + d * (x.b * (c * y.b)) == c * (x.a * y.a + d * (x.b * y.b)) by {
      assert d * (x.b * (c * y.b)) == c * (d * (x.b * y.b));
    }
    assert x.a * (c * y.b) + x.b * (c * y.a) == c * (x.a * y.b + x.b * y.a);
  }

  lemma {:induction false} QPowAdd(x: Quad, m: nat, n: nat, d: int)
    ensures QPow(x, m + n, d) == Mul(QPow(x, m, d), QPow(x, n, d), d)
    decreases m
  {
    hide Mul;
    if m == 0 {
      MulOne(QPow(x, n, d), d);
    } else {
      QPowAdd(x, m - 1, n, d);
      MulAssoc(x, QPow(x, m - 1, d), QPow(x, n, d), d);
    }
  }

  /** The norm is multiplicative. */
  lemma NormMul(x: Quad, y: Quad, d: int)
    ensures Norm(Mul(x, y, d), d) == Norm(x, d) * Norm(y, d)
  {
    var ac, bd, ad, bc := x.a * y.a, x.b * y.b, x.a * y.b, x.b * y.a;
    SquareOfSum(ac, d * bd);
    SquareOfSum(ad, bc);
    FourProducts(x.a * x.a, d * (x.b * x.b), y.a * y.a, d * (y.b * y.b));
    Regroup(x.a, y.a);
    Regroup(x.a, y.b);
    Regroup(x.b, y.a);
    Regroup(x.b, y.b);
    NormTerms(d, x, y);
  }

  lemma SquareOfSum(u: int, v: int)
    ensures (u + v) * (u + v) == u * u + 2 * (u * v) + v * v
  {
  }

  lemma FourProducts(a: int, b: int, c: int, e: int)
    ensures (a - b) * (c - e) == a * c - a * e - b * c + b * e
  {
  }

  lemma Regroup(u: int, v: int)
    ensures (u * v) * (u * v) == (u * u) * (v * v)
  {
    assert (u * v) * (u * v) == u * (v * u) * v;
  }

  lemma NormTerms(d: int, x: Quad, y: Quad)
    ensures var ac, bd, ad, bc := x.a * y.a, x.b * y.b, x.a * y.b, x.b * y.a;
            && ac * (d * bd) == d * (ad * bc)
            && (d * bd) * (d * bd) == d * (x.b * x.b) * (d * (y.b * y.b))
            && d * (ad * ad) == x.a * x.a * (d * (y.b * y.b))
            && d * (bc * bc) == d * (x.b * x.b) * (y.a * y.a)
            && d * (ad * ad + 2 * (ad * bc) + bc * bc) == d * (ad * ad) + 2 * (d * (ad * bc)) + d * (bc * bc)
  {
    Crossed(x.a, y.a, x.b, y.b, d);
    Regroup(d, x.b * y.b);
    Regroup(x.b, y.b);
    FourFactors(d, x.b * x.b, y.b * y.b);
    Regroup(x.a, y.b);
    Regroup(x.b, y.a);
    var ad, bc := x.a * y.b, x.b * y.a;
    assert d * (x.a * x.a * (y.b * y.b)) == x.a * x.a * (d * (y.b * y.b));
    assert d * (x.b * x.b * (y.a * y.a)) == d * (x.b * x.b) * (y.a * y.a);
    Distribute(d, ad * ad + 2 * (ad * bc), bc * bc);
    Distribute(d, ad * ad, 2 * (ad * bc));
  }

  lemma Crossed(a: int, c: int, b: int, e: int, d: int)
    ensures (a * c) * (d * (b * e)) == d * ((a * e) * (b * c))
  {
    assert (a * c) * (b * e) == (a * e) * (b * c);
    assert (a * c) * (d * (b * e)) == d * ((a * c) * (b * e));
  }

  lemma FourFactors(d: int, u: int, v: int)
    ensures (d * d) * (u * v) == d * u * (d * v)
  {
  }

  lemma {:induction false} NormPow(x: Quad, n: nat, d: int)
    ensures Norm(QPow(x, n, d), d) == Pow(Norm(x, d), n)
    decreases n
  {
    if n > 0 {
      NormPow(x, n - 1, d);
      NormMul(x, QPow(x, n - 1, d), d);
    }
  }

  // ---- congruences --------------------------------------------------------------------

  predicate QCong(x: Quad, y: Quad, n: nat)
    requires n > 0
  {
    Cong(x.a, y.a, n) && Cong(x.b, y.b, n)
  }

  lemma QRefl(x: Quad, n: nat)
    requires n > 0
    ensures QCong(x, x, n)
  {
    CongRefl(x.a, n);
    CongRefl(x.b, n);
  }

  lemma QTrans(x: Quad, y: Quad, z: Quad, n: nat)
    requires n > 0 && QCong(x, y, n) && QCong(y, z, n)
    ensures QCong(x, z, n)
  {
    CongTrans(x.a, y.a, z.a, n);
    CongTrans(x.b, y.b, z.b, n);
  }

  lemma QAdd(x: Quad, x': Quad, y: Quad, y': Quad, n: nat)
    requires n > 0 && QCong(x, x', n) && QCong(y, y', n)
    ensures QCong(Add(x, y), Add(x', y'), n)
  {
    CongAdd(x.a, x'.a, y.a, y'.a, n);
    CongAdd(x.b, x'.b, y.b, y'.b, n);
  }

  lemma QMul(x: Quad, x': Quad, y: Quad, y': Quad, d: int, n: nat)
    requires n > 0 && QCong(x, x', n) && QCong(y, y', n)
    ensures QCong(Mul(x, y, d), Mul(x', y', d), n)
  {
    hide Cong;
    CongMul(x.a, x'.a, y.a, y'.a, n);
    CongMul(x.b, x'.b, y.b, y'.b, n);
    CongRefl(d, n);
    CongMul(d, d, x.b * y.b, x'.b * y'.b, n);
    CongAdd(x.a * y.a, x'.a * y'.a, d * (x.b * y.b), d * (x'.b * y'.b), n);
    CongMul(x.a, x'.a, y.b, y'.b, n);
    CongMul(x.b, x'.b, y.a, y'.a, n);
    CongAdd(x.a * y.b, x'.a * y'.b, x.b * y.a, x'.b * y'.a, n);
  }

  // ---- the binomial theorem -----------------------------------------------------------

  function Choose(n: nat, k: nat): nat {
    if k == 0 then 1 else if n == 0 then 0 else Choose(n - 1, k - 1) + Choose(n - 1, k)
  }

  lemma {:induction false} ChooseEdge(n: nat, k: nat)
    requires k >= n
    ensures Choose(n, k) == if k == n then 1 else 0
    decreases n
  {
    if n > 0 {
      ChooseEdge(n - 1, k - 1);
      ChooseEdge(n - 1, k);
    }
  }

  lemma {:induction false} ChooseAbsorb(n: nat, k: nat)
    requires n > 0 && k > 0
    ensures k * Choose(n, k) == n * Choose(n - 1, k - 1)
    decreases n
  {
    if n == 1 {
      if k > 1 { ChooseEdge(0, k - 1); }
      ChooseEdge(1, k);
    } else {
      ChooseAbsorb(n - 1, k);
      if k > 1 {
        ChooseAbsorb(n - 1, k - 1);
        AbsorbStep(n, k, Choose(n - 1, k - 1), Choose(n - 2, k - 2), Choose(n - 2, k - 1), Choose(n - 1, k));
      }
    }
  }

  lemma AbsorbStep(n: int, k: int, c: int, c1: int, c2: int, c3: int)
    requires c == c1 + c2 && (k - 1) * c == (n - 1) * c1 && k * c3 == (n - 1) * c2
    ensures k * (c + c3) == n * c
  {
    Distribute(k, c, c3);
    Distribute(n - 1, c1, c2);
    assert k * c == (k - 1) * c + c && n * c == (n - 1) * c + c;
  }

  /** A prime divides the inner binomial coefficients of its row. */
  lemma PrimeRow(p: nat, k: nat)
    requires Prime(p) && 0 < k < p
    ensures Div(p, Choose(p, k))
  {
    ChooseAbsorb(p, k);
    DivBy(p, Choose(p - 1, k - 1));
    Euclid(p, k, Choose(p, k));
    if Div(p, k) { DivSmall(p, k); }
  }

  ghost function Term(u: Quad, v: Quad, n: nat, j: nat, d: int): Quad
    requires j <= n
  {
    Scale(Choose(n, j), Mul(QPow(u, n - j, d), QPow(v, j, d), d))
  }

  /** The first k terms of (u + v)^n. */
  ghost function BinSum(u: Quad, v: Quad, n: nat, k: nat, d: int): Quad
    requires k <= n + 1
  {
    if k == 0 then ZERO else Add(BinSum(u, v, n, k - 1, d), Term(u, v, n, k - 1, d))
  }

  /** One more factor u + v on a term. */
  lemma TermStep(u: Quad, v: Quad, n: nat, j: nat, d: int)
    requires j <= n
    ensures Mul(Add(u, v), Term(u, v, n, j, d), d)
         == Add(Scale(Choose(n, j), Mul(QPow(u, n + 1 - j, d), QPow(v, j, d), d)),
                Scale(Choose(n, j), Mul(QPow(u, n - j, d), QPow(v, j + 1, d), d)))
  {
    hide Mul, Add, Scale, Choose;
    var x, y := QPow(u, n - j, d), QPow(v, j, d);
    MulScale(Choose(n, j), Add(u, v), Mul(x, y, d), d);
    MulAdd(Mul(x, y, d), u, v, d);
    MulAssoc(u, x, y, d);
    MulAssoc(v, x, y, d);
    MulComm(v, x, d);
    MulAssoc(x, v, y, d);
    ScaleAdd(Choose(n, j), Mul(Mul(u, x, d), y, d), Mul(x, Mul(v, y, d), d));
  }

  lemma ScaleAdd(c: int, x: Quad, y: Quad)
    ensures Scale(c, Add(x, y)) == Add(Scale(c, x), Scale(c, y))
  {
  }

  lemma AddScale(b: int, c: int, x: Quad)
    ensures Scale(b + c, x) == Add(Scale(b, x), Scale(c, x))
  {
  }

  lemma AddSwap(x: Quad, y: Quad, z: Quad, t: Quad)
    ensures Add(Add(x, y), Add(z, t)) == Add(Add(x, Add(z, y)), t)
  {
  }

  lemma {:induction false} BinStep(u: Quad, v: Quad, n: nat, k: nat, d: int)
    requires 1 <= k <= n + 1
    ensures Mul(Add(u, v), BinSum(u, v, n, k, d), d)
         == Add(BinSum(u, v, n + 1, k, d),
                Scale(Choose(n, k - 1), Mul(QPow(u, n + 1 - k, d), QPow(v, k, d), d)))
    decreases k
  {
    hide Mul, Add, Scale, QPow, Choose, Term;
    TermStep(u, v, n, k - 1, d);
    MulAdd(Add(u, v), BinSum(u, v, n, k - 1, d), Term(u, v, n, k - 1, d), d);
    var last := Scale(Choose(n, k - 1), Mul(QPow(u, n + 1 - k, d), QPow(v, k, d), d));
    if k == 1 {
      BinBase(u, v, n, d);
      BinSumOne(u, v, n, d);
      AddZero(Mul(Add(u, v), ZERO, d), Term(u, v, n + 1, 0, d), last, Add(u, v), d);
    } else {
      BinStep(u, v, n, k - 1, d);
      var xy := Mul(QPow(u, n + 2 - k, d), QPow(v, k - 1, d), d);
      TermSplit(u, v, n, k - 1, d);
      AddSwap(BinSum(u, v, n + 1, k - 1, d), Scale(Choose(n, k - 2), xy), Scale(Choose(n, k - 1), xy), last);
    }
  }

  lemma BinBase(u: Quad, v: Quad, n: nat, d: int)
    ensures Scale(Choose(n, 0), Mul(QPow(u, n + 1, d), QPow(v, 0, d), d)) == Term(u, v, n + 1, 0, d)
  {
    hide Mul, QPow;
  }

  lemma BinSumOne(u: Quad, v: Quad, n: nat, d: int)
    ensures BinSum(u, v, n, 0, d) == ZERO
    ensures BinSum(u, v, n + 1, 1, d) == Term(u, v, n + 1, 0, d)
  {
    hide Term;
    assert BinSum(u, v, n + 1, 0, d) == ZERO;
  }

  lemma AddZero(z: Quad, x: Quad, y: Quad, s: Quad, d: int)
    requires z == Mul(s, ZERO, d)
    ensures Add(z, Add(x, y)) == Add(x, y)
  {
  }

  lemma TermSplit(u: Quad, v: Quad, n: nat, j: nat, d: int)
    requires 1 <= j <= n
    ensures var xy := Mul(QPow(u, n + 1 - j, d), QPow(v, j, d), d);
            Term(u, v, n + 1, j, d) == Add(Scale(Choose(n, j), xy), Scale(Choose(n, j - 1), xy))
  {
    hide Mul, QPow;
    var xy := Mul(QPow(u, n + 1 - j, d), QPow(v, j, d), d);
    assert Choose(n + 1, j) == Choose(n, j) + Choose(n, j - 1);
    AddScale(Choose(n, j), Choose(n, j - 1), xy);
  }

  /** The binomial theorem. */
  lemma {:induction false} Binomial(u: Quad, v: Quad, n: nat, d: int)
    ensures QPow(Add(u, v), n, d) == BinSum(u, v, n, n + 1, d)
    decreases n
  {
    if n == 0 {
      assert Term(u, v, 0, 0, d) == ONE;
      assert BinSum(u, v, 0, 0, d) == ZERO;
    } else {
      hide Mul, Add, Scale, Choose;
      Binomial(u, v, n - 1, d);
      BinStep(u, v, n - 1, n, d);
      ChooseEdge(n - 1, n - 1);
      ChooseEdge(n, n);
    }
  }

  lemma {:induction false} InnerVanish(u: Quad, v: Quad, p: nat, k: nat, d: int)
    requires Prime(p) && 1 <= k <= p
    ensures QCong(BinSum(u, v, p, k, d), Term(u, v, p, 0, d), p)
    decreases k
  {
    hide Term, Prime, QCong, Add;
    BinSumStep(u, v, p, k - 1, d);
    if k == 1 {
      BinSumStep(u, v, p, 0, d);
      ZeroFirst(Term(u, v, p, 0, d));
      QRefl(Term(u, v, p, 0, d), p);
    } else {
      InnerVanish(u, v, p, k - 1, d);
      PrimeRow(p, k - 1);
      TermVanish(u, v, p, k - 1, d);
      QAdd(BinSum(u, v, p, k - 1, d), Term(u, v, p, 0, d), Term(u, v, p, k - 1, d), ZERO, p);
      ZeroFirst(Term(u, v, p, 0, d));
    }
  }

  lemma BinSumStep(u: Quad, v: Quad, n: nat, k: nat, d: int)
    requires k <= n
    ensures BinSum(u, v, n, k + 1, d) == Add(BinSum(u, v, n, k, d), Term(u, v, n, k, d))
    ensures k == 0 ==> BinSum(u, v, n, k, d) == ZERO
  {
  }

  lemma ZeroFirst(x: Quad)
    ensures Add(ZERO, x) == x == Add(x, ZERO)
  {
  }

  lemma TermVanish(u: Quad, v: Quad, p: nat, j: nat, d: int)
    requires p > 0 && j <= p && Div(p, Choose(p, j))
    ensures QCong(Term(u, v, p, j, d), ZERO, p)
  {
    hide Mul, Choose, QPow;
    var xy := Mul(QPow(u, p - j, d), QPow(v, j, d), d);
    DivMul(p, Choose(p, j), xy.a);
    DivMul(p, Choose(p, j), xy.b);
  }

  /** Modulo a prime p the p-th power is additive. */
  lemma Dream(u: Quad, v: Quad, p: nat, d: int)
    requires Prime(p)
    ensures QCong(QPow(Add(u, v), p, d), Add(QPow(u, p, d), QPow(v, p, d)), p)
  {
    hide QPow, Add, Prime, QCong;
    PrimeBig(p);
    Binomial(u, v, p, d);
    BinSumStep(u, v, p, p, d);
    InnerVanish(u, v, p, p, d);
    QRefl(Term(u, v, p, p, d), p);
    QAdd(BinSum(u, v, p, p, d), Term(u, v, p, 0, d), Term(u, v, p, p, d), Term(u, v, p, p, d), p);
    TermEnds(u, v, p, d);
  }

  lemma TermEnds(u: Quad, v: Quad, p: nat, d: int)
    ensures Term(u, v, p, 0, d) == QPow(u, p, d) && Term(u, v, p, p, d) == QPow(v, p, d)
  {
    ChooseEdge(p, p);
    MulOne(QPow(u, p, d), d);
    MulOne(QPow(v, p, d), d);
    assert QPow(v, 0, d) == ONE && QPow(u, 0, d) == ONE;
    hide QPow, Mul;
    assert Choose(p, 0) == 1;
  }

  // ---- Fermat and Frobenius -----------------------------------------------------------

  lemma {:induction false} RealPow(x: int, n: nat, d: int)
    ensures QPow(Quad(x, 0), n, d) == Quad(Pow(x, n), 0)
    decreases n
  {
    if n > 0 { RealPow(x, n - 1, d); }
  }

  lemma FermatStep(p: nat, x: int)
    requires Prime(p)
    ensures p > 1 && Cong(Pow(x, p), Pow(x - 1, p) + 1, p)
  {
    hide Prime, Pow, QPow, Cong;
    PrimeBig(p);
    Dream(Quad(x - 1, 0), ONE, p, 0);
    assert Add(Quad(x - 1, 0), ONE) == Quad(x, 0);
    RealPow(x - 1, p, 0);
    RealPow(1, p, 0);
    RealPow(x, p, 0);
    PowOne(p);
  }

  lemma {:induction false} FermatNat(p: nat, x: nat)
    requires Prime(p)
    ensures p > 1 && Cong(Pow(x, p), x, p)
    decreases x
  {
    hide Prime, Pow, Cong;
    PrimeBig(p);
    if x == 0 {
      PowZero(p);
      CongRefl(0, p);
    } else {
      FermatNat(p, x - 1);
      FermatStep(p, x);
      CongRefl(1, p);
      CongAdd(Pow(x - 1, p), x - 1, 1, 1, p);
      CongTrans(Pow(x, p), Pow(x - 1, p) + 1, x - 1 + 1, p);
    }
  }

  lemma PowZero(n: nat)
    requires n > 0
    ensures Pow(0, n) == 0
  {
  }

  lemma PrimeBig(p: nat)
    requires Prime(p)
    ensures p > 1
  {
  }

  /** Fermat's little theorem. */
  lemma Fermat(p: nat, x: int)
    requires Prime(p)
    ensures Cong(Pow(x, p), x, p)
  {
    hide Prime, Pow;
    PrimeBig(p);
    FermatNat(p, x % p);
    CongMod(x, p);
    PowCong(x, x % p, p, p);
    CongTrans(Pow(x, p), Pow(x % p, p), x % p, p);
    CongTrans(Pow(x, p), x % p, x, p);
  }

  lemma FermatUnit(p: nat, x: int)
    requires Prime(p) && !Div(p, x)
    ensures Cong(Pow(x, p - 1), 1, p)
  {
    Fermat(p, x);
    hide Prime;
    PrimeBig(p);
    assert Pow(x, p) == x * Pow(x, p - 1);
    assert x * Pow(x, p - 1) - x == x * (Pow(x, p - 1) - 1);
    Euclid(p, x, Pow(x, p - 1) - 1);
  }

  lemma {:induction false} RootPow(n: nat, d: int)
    ensures QPow(Quad(0, 1), 2 * n + 1, d) == Quad(0, Pow(d, n))
    ensures QPow(Quad(0, 1), 2 * n, d) == Quad(Pow(d, n), 0)
    decreases n
  {
    if n > 0 {
      RootPow(n - 1, d);
      assert QPow(Quad(0, 1), 2 * n, d) == Mul(Quad(0, 1), QPow(Quad(0, 1), 2 * (n - 1) + 1, d), d);
    }
    assert QPow(Quad(0, 1), 2 * n + 1, d) == Mul(Quad(0, 1), QPow(Quad(0, 1), 2 * n, d), d);
  }

  /** Modulo an odd prime, the p-th power of P + sqrt(d) is P + d^((p-1)/2) sqrt(d). */
  lemma Frobenius(p: nat, x: int, d: int)
    requires Prime(p) && p % 2 == 1
    ensures QCong(QPow(Quad(x, 1), p, d), Quad(x, Pow(d, (p - 1) / 2)), p)
  {
    hide Prime, QPow, Pow;
    PrimeBig(p);
    var h := (p - 1) / 2;
    Dream(Quad(x, 0), Quad(0, 1), p, d);
    assert Add(Quad(x, 0), Quad(0, 1)) == Quad(x, 1);
    RealPow(x, p, d);
    RootPow(h, d);
    Fermat(p, x);
    CongRefl(Pow(d, h), p);
    QTrans(QPow(Quad(x, 1), p, d), Quad(Pow(x, p), Pow(d, h)), Quad(x, Pow(d, h)), p);
  }
}
