/**
 The Miller-Rabin test of crypto/bn/bn_prime.c: the standard one with its
 detailed answers, and the fixed-depth one that must agree with it.
 */
module MillerRabin {
  import opened CText
  import opened Primes
  import opened QuadRing
  import opened LucasTheory
  import opened Montgomery
  import opened CtGcd
  import opened LucasTests

  // ---- the odd part ---------------------------------------------------------------------------

  /** The number of trailing zero bits. */
  function Zeros(n: nat): nat
    requires n > 0
  {
    if n % 2 == 1 then 0 else 1 + Zeros(n / 2)
  }

  /** n without its last j bits. */
  function Shr(n: nat, j: nat): nat {
    NotNegative(n, Pow2(j));
    n / Pow2(j)
  }

  lemma {:induction false} ShrOne(n: nat, j: nat)
    ensures Shr(n, j + 1) == Shr(n / 2, j) == Shr(n, j) / 2
  {
    assert Pow2(j + 1) == 2 * Pow2(j);
    HalveQuotient(n, Pow2(j));
    var p := Pow2(j);
    hide Pow2;
    DivSwap(n, p);
  }

  lemma DivSwap(n: nat, p: nat)
    requires p > 0
    ensures n / (2 * p) == n / 2 / p
  {
    var h, b := n / 2, n % 2;
    var q, r := h / p, h % p;
    assert n == 2 * h + b && h == p * q + r;
    assert n == 2 * p * q + (2 * r + b) by { assert 2 * (p * q) == 2 * p * q; }
    QuotientIs(n, 2 * p, q, 2 * r + b);
  }

  /** Below the trailing zeros every shift halves exactly, and the rest is odd. */
  lemma {:induction false} ZerosAre(n: nat, j: nat)
    requires n > 0 && j <= Zeros(n)
    ensures j < Zeros(n) ==> Shr(n, j) == 2 * Shr(n, j + 1)
    ensures j == Zeros(n) ==> Shr(n, j) % 2 == 1
    ensures Zeros(n) <= NumBits(n)
    decreases n
  {
    assert Shr(n, 0) == n by { assert Pow2(0) == 1; }
    ShrOne(n, j);
    if n % 2 == 0 {
      if j == 0 {
        ZerosAre(n / 2, 0);
      } else {
        ShrOne(n, j - 1);
        ZerosAre(n / 2, j - 1);
      }
    }
  }

  // ---- strong probable primes -------------------------------------------------------------------

  /** b^((w-1) / 2^j) */
  function Step(w: nat, b: nat, j: nat): int
    requires w > 0
  {
    Pow(b, Shr(w - 1, j))
  }

  /** w is a strong probable prime to base b. */
  ghost predicate StrongBase(w: nat, b: nat)
    requires w > 1
  {
    var s := Zeros(w - 1);
    Cong(Step(w, b, s), 1, w) || exists j :: 1 <= j <= s && Cong(Step(w, b, j), -1, w)
  }

  lemma StepSquare(w: nat, b: nat, j: nat)
    requires w > 1 && j < Zeros(w - 1)
    ensures Step(w, b, j) == Step(w, b, j + 1) * Step(w, b, j + 1)
  {
    ZerosAre(w - 1, j);
    PowSquare(b, Shr(w - 1, j + 1));
  }

  /** Once the power is one, further squares stay one. */
  lemma {:induction false} OnesStay(w: nat, b: nat, j: nat, i: nat)
    requires w > 1 && i <= j <= Zeros(w - 1) && Cong(Step(w, b, j), 1, w)
    ensures Cong(Step(w, b, i), 1, w)
    decreases j - i
  {
    if i < j {
      hide Step, Zeros, Cong;
      OnesStay(w, b, j, i + 1);
      StepSquare(w, b, i);
      CongMul(Step(w, b, i + 1), 1, Step(w, b, i + 1), 1, w);
    }
  }

  lemma NotBoth(w: nat, x: int)
    requires w > 2 && Cong(x, 1, w)
    ensures !Cong(x, -1, w)
  {
    if Cong(x, -1, w) {
      hide Div;
      DivAdd(w, x - -1, x - 1);
      NotOne(w);
      assert false;
    }
  }

  // ---- the fixed-depth test ------------------------------------------------------------------------

  /** The trailing zeros, counted over all bits. */
  method CountZeros(n: nat) returns (s: nat)
    requires n > 0
    ensures s == Zeros(n)
  {
    var foundOne := false;
    s := 0;
    var bits := NumBits(n);
    ZerosAre(n, Zeros(n));
    for k := 0 to bits
      invariant s == if k <= Zeros(n) then k else Zeros(n)
      invariant foundOne <==> k > Zeros(n)
    {
      var bit := Shr(n, k) % 2;
      if k <= Zeros(n) { BitAt(n, k); }
      foundOne := foundOne || bit == 1;
      if !foundOne { s := s + 1; }
    }
  }

  lemma BitAt(n: nat, k: nat)
    requires n > 0 && k <= Zeros(n)
    ensures Shr(n, k) % 2 == 1 <==> k == Zeros(n)
  {
    hide Zeros, Shr;
    ZerosAre(n, k);
    if k < Zeros(n) { Mod2(Shr(n, k), Shr(n, k + 1), 0); }
  }

  lemma EncEqual(m: Mont, x: int, y: int)
    requires m.Ok()
    ensures m.Enc(x) == m.Enc(y) <==> Cong(x, y, m.w)
  {
    hide Cong;
    if Cong(x, y, m.w) { EncCong(m, x, y); }
    if m.Enc(x) == m.Enc(y) {
      EncOut(m, x);
      EncOut(m, y);
      CongSame(x, y, m.w);
    }
  }

  /** A round of ossl_bn_miller_rabin_is_prime_unified: one full ladder, the conditions read off on the way. */
  method FixedRound(m: Mont, b: nat) returns (pass: bool)
    requires m.Ok() && m.w > 2
    ensures pass <==> StrongBase(m.w, b)
  {
    hide Cong, Pow, Pow2, NumBits, Zeros, Rungs, Shr;
    var w := m.w;
    var n := w - 1;
    var one, minusOne := m.Times(1, m.RR()), m.Times(n, m.RR());
    EncIn(m, 1);
    EncIn(m, n);
    EncIn(m, b);
    var s := CountZeros(n);
    var r0, r1 := one, m.Times(b, m.RR());
    RungsStart(m, b);
    var j := NumBits(n);
    NumBitsIs(n);
    ShrEnds(n, j);
    ZerosAre(n, s);
    pass := false;
    while j > 0
      invariant 0 <= j <= NumBits(n) && Rungs(m, b, Shr(n, j), r0, r1)
      invariant pass <==> Seen(w, b, s, j)
    {
      j := j - 1;
      ShrBit(n, j);
      r0, r1 := PowRung(m, b, Shr(n, j + 1), r0, r1, Shr(n, j) % 2);
      Compare(m, b, j, r0, r1);
      var isOne, isMinus := r0 == one, r0 == minusOne;
      SeenStep(w, b, s, j);
      pass := pass || (j == s && isOne) || (1 <= j <= s && isMinus);
    }
    SeenAll(w, b, s);
  }

  /** The conditions met at bits j and above. */
  ghost predicate Seen(w: nat, b: nat, s: nat, j: nat)
    requires w > 0
  {
    || (j <= s < NumBits(w - 1) && Cong(Step(w, b, s), 1, w))
    || exists i :: j <= i < NumBits(w - 1) && 1 <= i <= s && Cong(Step(w, b, i), -1, w)
  }

  lemma SeenStep(w: nat, b: nat, s: nat, j: nat)
    requires w > 0 && j < NumBits(w - 1)
    ensures Seen(w, b, s, j) <==>
              Seen(w, b, s, j + 1) || (j == s && Cong(Step(w, b, j), 1, w))
              || (1 <= j <= s && Cong(Step(w, b, j), -1, w))
  {
    hide Cong, Step, NumBits;
  }

  lemma SeenAll(w: nat, b: nat, s: nat)
    requires w > 2 && s == Zeros(w - 1)
    ensures Seen(w, b, s, 0) <==> StrongBase(w, b)
  {
    hide Cong, Step;
    ZerosBelow(w - 1);
  }

  lemma {:induction false} ZerosBelow(n: nat)
    requires n > 0
    ensures Zeros(n) < NumBits(n)
    decreases n
  {
    if n % 2 == 0 { ZerosBelow(n / 2); }
  }

  lemma ShrEnds(n: nat, j: nat)
    requires n < Pow2(j)
    ensures Shr(n, j) == 0
  {
    AllBits(n, j);
  }

  lemma ShrBit(n: nat, j: nat)
    ensures Shr(n, j) == 2 * Shr(n, j + 1) + Shr(n, j) % 2
  {
    Prefix(n, j);
  }

  lemma Compare(m: Mont, b: nat, j: nat, r0: nat, r1: nat)
    requires m.Ok() && m.w > 2 && Rungs(m, b, Shr(m.w - 1, j), r0, r1)
    ensures r0 == m.Enc(1) <==> Cong(Step(m.w, b, j), 1, m.w)
    ensures r0 == m.Enc(m.w - 1) <==> Cong(Step(m.w, b, j), -1, m.w)
  {
    hide Cong, Pow, Shr;
    EncEqual(m, Step(m.w, b, j), 1);
    EncEqual(m, Step(m.w, b, j), -1);
    assert m.Enc(m.w - 1) == m.Enc(-1) by {
      MinusOne(m.w);
      EncCong(m, m.w - 1, -1);
    }
  }

  lemma MinusOne(w: nat)
    requires w > 0
    ensures Cong(w - 1, -1, w)
  {
    DivBy(w, 1);
  }

  /** ossl_bn_miller_rabin_is_prime_unified with the given bases. */
  method FixedMillerRabin(m: Mont, bases: seq<nat>) returns (status: Status)
    requires m.Ok() && m.w > 2
    ensures status == ProbablyPrime <==>
              m.w == 3 || forall i :: 0 <= i < |bases| ==> StrongBase(m.w, bases[i])
  {
    hide Cong, StrongBase;
    if m.w == 3 { return ProbablyPrime; }
    var composite := false;
    for i := 0 to |bases|
      invariant !composite <==> forall k :: 0 <= k < i ==> StrongBase(m.w, bases[k])
    {
      var pass := FixedRound(m, bases[i]);
      composite := composite || !pass;
    }
    status := if composite then Composite else ProbablyPrime;
  }

  // ---- primes -------------------------------------------------------------------------------------

  lemma {:induction false} Descend(w: nat, b: nat, j: nat)
    requires Prime(w) && j <= Zeros(w - 1) && Cong(Step(w, b, j), 1, w)
    ensures StrongBase(w, b)
    decreases Zeros(w - 1) - j
  {
    if j < Zeros(w - 1) {
      hide Prime, Cong, Step, Zeros;
      StepSquare(w, b, j);
      RootsOfOne(w, Step(w, b, j + 1));
      if Cong(Step(w, b, j + 1), 1, w) { Descend(w, b, j + 1); }
    }
  }

  /** A prime is a strong probable prime to every base it does not divide. */
  lemma StrongBaseOfPrime(w: nat, b: nat)
    requires Prime(w) && !Div(w, b)
    ensures StrongBase(w, b)
  {
    FermatUnit(w, b);
    assert Step(w, b, 0) == Pow(b, w - 1) by { assert Pow2(0) == 1; }
    Descend(w, b, 0);
  }

  // ---- the standard test with its detailed answers --------------------------------------------------

  function Gcd(a: nat, b: nat): nat
    decreases b
  {
    if b == 0 then a else Gcd(b, a % b)
  }

  lemma {:induction false} GcdIs(a: nat, b: nat)
    requires a > 0 || b > 0
    ensures IsGcd(Gcd(a, b), a, b)
    decreases b
  {
    if b == 0 {
      DivBy(a, 1);
      DivBy(a, 0);
    } else {
      GcdIs(b, a % b);
      var g, q, r := Gcd(b, a % b), a / b, a % b;
      assert a == b * q + r;
      hide Gcd;
      forall d: nat | d > 0
        ensures Div(d, b) && Div(d, r) <==> Div(d, a) && Div(d, b)
      {
        hide Div;
        if Div(d, b) {
          DivMul(d, b, q);
          if Div(d, r) { DivAdd(d, b * q, r); }
          if Div(d, a) { DivAdd(d, a, b * q); }
        }
      }
    }
  }

  /** Coprime numbers have an inverse. */
  lemma GcdInverts(a: nat, w: nat) returns (t: int)
    requires w > 0 && Gcd(a, w) == 1
    ensures Cong(a * t, 1, w)
  {
    GcdIs(a, w);
    BezoutIs(a, w);
    var (g, s, u) := Bezout(a, w);
    hide Gcd, Bezout;
    assert Div(g, 1);
    DivTooBig(g, 1);
    t := s;
    DivBy(w, -u);
    assert a * s - 1 == w * -u;
  }

  datatype Verdict = Refuted | WithFactor | NotPowerOfPrime | Likely

  /** A square root of one other than 1 and -1. */
  predicate OddRoot(w: nat, x: nat)
    requires w > 0
  {
    1 < x < w - 1 && Cong(x * x, 1, w)
  }

  /** The number after steps 4.7 to 4.11: such a root, or b^(w-1) when that is not one. */
  predicate Evidence(w: nat, b: nat, x: nat)
    requires w > 0
  {
    OddRoot(w, x) || (x < w && x != 1 && Cong(x, Pow(b, w - 1), w))
  }

  lemma SquareMod(w: nat, b: nat, j: nat, z: nat)
    requires w > 2 && j < Zeros(w - 1) && z == Step(w, b, j + 1) % w
    ensures z * z % w == Step(w, b, j) % w && Cong(z * z, Step(w, b, j), w)
  {
    hide Cong, Step, Zeros;
    StepSquare(w, b, j);
    CongMod(Step(w, b, j + 1), w);
    CongMul(z, Step(w, b, j + 1), z, Step(w, b, j + 1), w);
    CongSame(z * z, Step(w, b, j), w);
  }

  lemma IsUnit(w: nat, z: nat, x: int)
    requires w > 2 && z == x % w
    ensures z == 1 <==> Cong(x, 1, w)
    ensures z == w - 1 <==> Cong(x, -1, w)
  {
    hide Cong;
    CongSame(x, 1, w);
    CongSame(x, -1, w);
    SmallMod(1, w);
    SmallMod(w - 1, w);
    Shifted(-1, 1, w);
  }

  /** Nothing seen at the indices from i to s. */
  ghost predicate NothingYet(w: nat, b: nat, i: nat)
    requires w > 1
  {
    var s := Zeros(w - 1);
    && !Cong(Step(w, b, s), 1, w)
    && forall k :: i <= k <= s ==> !Cong(Step(w, b, k), -1, w)
  }

  lemma OneRefutes(w: nat, b: nat, i: nat)
    requires w > 2 && i < Zeros(w - 1) && NothingYet(w, b, i + 1) && Cong(Step(w, b, i), 1, w)
    ensures !StrongBase(w, b)
  {
    hide Cong, Step, Zeros;
    forall k | 1 <= k <= i
      ensures !Cong(Step(w, b, k), -1, w)
    {
      OnesStay(w, b, i, k);
      NotBoth(w, Step(w, b, k));
    }
  }

  /** Steps 4.5 to 4.11 for one base. */
  method BaseRound(w: nat, b: nat, a: nat, m: nat) returns (composite: bool, x: nat)
    requires w > 3 && w % 2 == 1 && a == Zeros(w - 1) && m == Shr(w - 1, a) && a >= 1
    ensures composite <==> !StrongBase(w, b)
    ensures composite ==> Evidence(w, b, x)
  {
    hide Cong, Step, Zeros, Shr, Pow;
    x := 0;
    var z := Pow(b, m) % w;
    StepIs(w, b, a);
    IsUnit(w, z, Step(w, b, a));
    if z == 1 || z == w - 1 {
      assert Cong(Step(w, b, a), 1, w) || Cong(Step(w, b, a), -1, w);
      return false, 0;
    }
    for j := 1 to a
      invariant 1 <= j <= a && z == Step(w, b, a - j + 1) % w && 1 != z < w - 1
      invariant NothingYet(w, b, a - j + 1)
    {
      SquareMod(w, b, a - j, z);
      x := z;
      z := x * x % w;
      IsUnit(w, z, Step(w, b, a - j));
      if z == w - 1 { return false, x; }
      if z == 1 {
        OneRefutes(w, b, a - j);
        RootFound(w, b, a - j, x);
        return true, x;
      }
    }
    SquareMod(w, b, 0, z);
    x := z;
    z := x * x % w;
    IsUnit(w, z, Step(w, b, 0));
    StepIs(w, b, 0);
    composite := true;
    if z == 1 {
      RootFound(w, b, 0, x);
    } else {
      CongMod(Step(w, b, 0), w);
      x := z;
    }
  }

  lemma StepIs(w: nat, b: nat, j: nat)
    requires w > 0
    ensures Step(w, b, j) == Pow(b, Shr(w - 1, j)) && Shr(w - 1, 0) == w - 1
  {
    hide Pow;
    assert Pow2(0) == 1;
  }

  lemma RootFound(w: nat, b: nat, j: nat, x: nat)
    requires w > 2 && Cong(x * x, Step(w, b, j), w) && Cong(Step(w, b, j), 1, w) && x < w - 1 && x != 1
    ensures OddRoot(w, x)
  {
    hide Cong, Step;
    CongTrans(x * x, Step(w, b, j), 1, w);
    if x == 0 { ZeroNotOne(w); }
  }

  lemma ZeroNotOne(w: nat)
    requires w > 1
    ensures !Cong(0, 1, w)
  {
    if Cong(0, 1, w) {
      DivMul(w, -1, -1);
      NotOne(w);
      assert false;
    }
  }

  // ---- the answers are true -------------------------------------------------------------------------

  ghost predicate HasFactor(w: nat) {
    exists g: nat :: 1 < g < w && Div(g, w)
  }

  ghost predicate PrimePower(w: nat) {
    exists q: nat, k: nat :: Prime(q) && w == Pow(q, k)
  }

  lemma FactorOf(g: nat, y: nat, w: nat)
    requires 0 < y < w && g == Gcd(y, w) && g != 1
    ensures HasFactor(w) && !Prime(w)
  {
    GcdIs(y, w);
    hide Gcd;
    DivTooBig(g, y);
  }

  /** An odd root of one gives a factor. */
  lemma RootGivesFactor(w: nat, x: nat)
    requires w > 0 && OddRoot(w, x)
    ensures Gcd(x - 1, w) != 1
  {
    if Gcd(x - 1, w) == 1 {
      var t := GcdInverts(x - 1, w);
      assert x * x - 1 == (x - 1) * (x + 1);
      Cancel(x - 1, t, x + 1, w);
      hide Gcd;
      DivSmall(w, x + 1);
    }
  }

  /** q - 1 divides q^k - 1. */
  lemma {:induction false} PowerLessOne(q: nat, k: nat)
    requires q > 1
    ensures Div(q - 1, Pow(q, k) - 1) && Pow(q, k) >= 1
    decreases k
  {
    if k == 0 {
      DivBy(q - 1, 0);
    } else {
      PowerLessOne(q, k - 1);
      var p := Pow(q, k - 1);
      hide Div;
      DivMul(q - 1, p - 1, q);
      DivBy(q - 1, 1);
      DivAdd(q - 1, q * (p - 1), (q - 1) * 1);
      assert q * (p - 1) + (q - 1) * 1 == q * p - 1;
      assert q * p >= 1 by { AtLeast(q, p); }
    }
  }

  lemma {:induction false} PowMany(x: int, n: nat, k: nat, p: nat)
    requires p > 0 && Cong(Pow(x, n), 1, p)
    ensures Cong(Pow(x, n * k), 1, p)
    decreases k
  {
    if k == 0 {
      CongRefl(1, p);
      assert n * 0 == 0;
    } else {
      PowMany(x, n, k - 1, p);
      assert n * k == n + n * (k - 1);
      PowAdd(x, n, n * (k - 1));
      hide Pow, Cong;
      CongMul(Pow(x, n), 1, Pow(x, n * (k - 1)), 1, p);
    }
  }

  /** Modulo the prime of a prime power w, b^(w-1) is one for b coprime to w. */
  lemma PrimePowerFermat(w: nat, q: nat, k: nat, b: nat)
    requires Prime(q) && w == Pow(q, k) && w > 1 && Gcd(b, w) == 1
    ensures Div(q, w) && Cong(Pow(b, w - 1), 1, q)
  {
    PrimeBig(q);
    if k == 0 { assert false; }
    DivBy(q, Pow(q, k - 1));
    assert Pow(q, k) == q * Pow(q, k - 1);
    GcdIs(b, w);
    hide Gcd, Pow;
    assert !Div(q, b) by {
      if Div(q, b) { DivTooBig(q, 1); }
    }
    FermatUnit(q, b);
    PowerLessOne(q, k);
    hide Prime;
    var t := Witness(q - 1, w - 1);
    assert t >= 0 by { if t < 0 { AtLeast(q - 1, -t); } }
    PowMany(b, q - 1, t, q);
  }

  lemma NotPrimePower(w: nat, b: nat, x: nat)
    requires w > 1 && Gcd(b, w) == 1 && 0 < x < w && Cong(x, Pow(b, w - 1), w) && Gcd(x - 1, w) == 1
    ensures !PrimePower(w)
  {
    if PrimePower(w) {
      var q: nat, k: nat :| Prime(q) && w == Pow(q, k);
      PrimePowerFermat(w, q, k, b);
      PrimeBig(q);
      GcdIs(x - 1, w);
      DivTrans(q, w, x - Pow(b, w - 1));
      hide Gcd, Prime, Pow;
      CongTrans(x, Pow(b, w - 1), 1, q);
      DivTooBig(q, 1);
    }
  }

  lemma PrimeIsPower(w: nat)
    requires Prime(w)
    ensures PrimePower(w)
  {
    assert Pow(w, 1) == w * Pow(w, 0) == w;
  }

  lemma PowerNotZero(w: nat, b: nat, x: nat)
    requires w > 1 && Gcd(b, w) == 1 && x < w && Cong(x, Pow(b, w - 1), w)
    ensures x > 0
  {
    if x == 0 {
      var t := GcdInverts(b, w);
      hide Gcd, Pow;
      CongSym(0, Pow(b, w - 1), w);
      assert Pow(b, w - 1) * 1 == Pow(b, w - 1) - 0;
      PowCancel(b, t, w - 1, 1, w);
      NotOne(w);
      assert false;
    }
  }

  lemma {:induction false} DivPow(g: nat, b: nat, k: nat)
    requires g > 0 && Div(g, b) && k > 0
    ensures Div(g, Pow(b, k))
  {
    assert Pow(b, k) == b * Pow(b, k - 1);
    DivMul(g, b, Pow(b, k - 1));
  }

  /** A base that shares a factor with w is no strong base. */
  lemma StrongBaseCoprime(w: nat, b: nat)
    requires w > 2 && StrongBase(w, b)
    ensures Gcd(b, w) == 1
  {
    hide Gcd, StrongBase, Step, Zeros, Shr, Pow, Div;
    GcdIs(b, w);
    var g := Gcd(b, w);
    var j, sign := StrongWitness(w, b);
    ShrPositive(w - 1, j);
    DivPow(g, b, Shr(w - 1, j));
    StepIs(w, b, j);
    var x := Step(w, b, j);
    DivTrans(g, w, x - sign);
    DivAdd(g, x, x - sign);
    assert x - (x - sign) == sign;
    DivMul(g, sign, sign);
    DivTooBig(g, 1);
  }

  lemma StrongWitness(w: nat, b: nat) returns (j: nat, sign: int)
    requires w > 2 && StrongBase(w, b)
    ensures j <= Zeros(w - 1) && sign * sign == 1 && Cong(Step(w, b, j), sign, w)
  {
    hide Cong, Step, Zeros;
    var s := Zeros(w - 1);
    if Cong(Step(w, b, s), 1, w) {
      j, sign := s, 1;
    } else {
      j :| 1 <= j <= s && Cong(Step(w, b, j), -1, w);
      sign := -1;
    }
  }

  lemma {:induction false} ShrPositive(n: nat, j: nat)
    requires n > 0 && j <= Zeros(n)
    ensures Shr(n, j) > 0
    decreases j
  {
    if j == 0 {
      assert Pow2(0) == 1;
    } else {
      ShrPositive(n, j - 1);
      ZerosAre(n, j - 1);
    }
  }

  /** The statement each answer makes. */
  ghost predicate True(w: nat, bases: seq<nat>, v: Verdict)
    requires w > 1
  {
    match v
    case Likely => forall i :: 0 <= i < |bases| ==> StrongBase(w, bases[i])
    case Refuted => !Prime(w)
    case WithFactor => HasFactor(w) && !Prime(w)
    case NotPowerOfPrime => !PrimePower(w) && !Prime(w)
  }

  /** The answer of the enhanced test for a base that refutes w. */
  method Explain(w: nat, b: nat, x: nat) returns (v: Verdict)
    requires w > 3 && Evidence(w, b, x) && Gcd(b, w) == 1
    ensures v != Likely && v != Refuted && True(w, [], v)
  {
    hide Gcd, Prime, Pow, Cong;
    if !OddRoot(w, x) { PowerNotZero(w, b, x); }
    var g := Gcd(x - 1, w);
    if OddRoot(w, x) { RootGivesFactor(w, x); }
    if g == 1 {
      NotPrimePower(w, b, x);
      if Prime(w) { PrimeIsPower(w); }
      v := NotPowerOfPrime;
    } else {
      FactorOf(g, x - 1, w);
      v := WithFactor;
    }
  }

  /**
   ossl_bn_miller_rabin_is_prime with the given bases; None where it reports an error.
   Every answer is true, and "probably prime" is given exactly for strong bases.
   */
  method MillerRabin(w: nat, bases: seq<nat>, enhanced: bool) returns (r: Option<Verdict>)
    requires forall i :: 0 <= i < |bases| ==> 1 < bases[i] < w - 1
    ensures r.None? <==> w % 2 == 0 || w <= 3
    ensures r.Some? ==> True(w, bases, r.value)
    ensures r.Some? ==> (r.value == Likely <==> forall i :: 0 <= i < |bases| ==> StrongBase(w, bases[i]))
    ensures r.Some? && !enhanced ==> r.value == Likely || r.value == Refuted
    ensures r.Some? && enhanced ==> r.value != Refuted
  {
    hide Zeros, Shr, StrongBase, Gcd, Prime, Evidence, PrimePower, HasFactor;
    if w % 2 == 0 || w <= 3 { return None; }
    var a := CountZeros(w - 1);
    EvenBelow(w);
    var m := Shr(w - 1, a);
    for i := 0 to |bases|
      invariant forall k :: 0 <= k < i ==> StrongBase(w, bases[k])
    {
      var b := bases[i];
      if enhanced {
        var g := Gcd(b, w);
        if g != 1 {
          FactorOf(g, b, w);
          if StrongBase(w, b) { StrongBaseCoprime(w, b); }
          return Some(WithFactor);
        }
      }
      var composite, x := BaseRound(w, b, a, m);
      if composite {
        if enhanced {
          var v := Explain(w, b, x);
          return Some(v);
        }
        if Prime(w) { InRange(w, b); StrongBaseOfPrime(w, b); }
        return Some(Refuted);
      }
    }
    r := Some(Likely);
  }

  lemma EvenBelow(w: nat)
    requires w % 2 == 1 && w > 1
    ensures Zeros(w - 1) >= 1
  {
    assert w - 1 == 2 * (w / 2);
    Mod2(w - 1, w / 2, 0);
  }

  lemma InRange(w: nat, b: nat)
    requires 0 < b < w
    ensures !Div(w, b)
  {
    if Div(w, b) { DivSmall(w, b); }
  }
}
