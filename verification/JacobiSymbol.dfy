/**
 The Jacobi symbol, by the number of multiples that fall in the upper half of
 the residues, and its laws: Euler's criterion, both multiplicativities, the
 law for -1 and for 2, and reciprocity.
 */
module JacobiSymbol {
  import opened Primes
  import opened QuadRing
  import opened LucasTheory
  import opened Montgomery
  import opened CtGcd

  // ---- products and permutations --------------------------------------------------------

  function Prod(f: int -> int, s: seq<int>): int {
    if s == [] then 1 else Prod(f, s[..|s| - 1]) * f(s[|s| - 1])
  }

  lemma ProdLast(f: int -> int, s: seq<int>, x: int)
    ensures Prod(f, s + [x]) == Prod(f, s) * f(x)
  {
    assert (s + [x])[..|s|] == s;
  }

  lemma {:induction false} ProdWithout(f: int -> int, s: seq<int>, k: nat)
    requires k < |s|
    ensures Prod(f, s) == Prod(f, s[..k] + s[k + 1..]) * f(s[k])
    decreases |s|
  {
    hide Prod;
    var n := |s| - 1;
    var x := s[n];
    assert s == s[..n] + [x];
    ProdLast(f, s[..n], x);
    if k == n {
      assert s[..k] + s[k + 1..] == s[..n];
    } else {
      ProdWithout(f, s[..n], k);
      var rest := s[..n][..k] + s[..n][k + 1..];
      assert s[..k] + s[k + 1..] == rest + [x];
      ProdLast(f, rest, x);
      assert Prod(f, rest) * f(s[k]) * f(x) == Prod(f, rest) * f(x) * f(s[k]);
    }
  }

  lemma Removed(s: seq<int>, k: nat)
    requires k < |s|
    ensures multiset(s) == multiset(s[..k] + s[k + 1..]) + multiset{s[k]}
  {
    assert s == s[..k] + [s[k]] + s[k + 1..];
  }

  /** A product does not depend on the order of its factors. */
  lemma {:induction false} ProdPerm(f: int -> int, s: seq<int>, t: seq<int>)
    requires multiset(s) == multiset(t)
    ensures Prod(f, s) == Prod(f, t)
    decreases |s|
  {
    hide Prod;
    assert |s| == |multiset(s)| == |multiset(t)| == |t|;
    if s != [] {
      var n := |s| - 1;
      var x := s[n];
      assert x in multiset(s);
      Member(t, x);
      var k :| 0 <= k < |t| && t[k] == x;
      Removed(t, k);
      Removed(s, n);
      assert s[..n] + s[n + 1..] == s[..n];
      SameRest(multiset(s[..n]), multiset(t[..k] + t[k + 1..]), x);
      ProdPerm(f, s[..n], t[..k] + t[k + 1..]);
      ProdWithout(f, t, k);
      ProdWithout(f, s, n);
    } else {
      assert t == [];
    }
  }

  lemma SameRest(a: multiset<int>, b: multiset<int>, x: int)
    requires a + multiset{x} == b + multiset{x}
    ensures a == b
  {
    assert a == a + multiset{x} - multiset{x};
    assert b == b + multiset{x} - multiset{x};
  }

  /** 1, 2, ..., k */
  function Upto(k: nat): (s: seq<int>)
    ensures |s| == k && forall i :: 0 <= i < k ==> s[i] == i + 1
  {
    if k == 0 then [] else Upto(k - 1) + [k]
  }

  ghost predicate Distinct(s: seq<int>, h: nat) {
    && (forall i :: 0 <= i < |s| ==> 1 <= s[i] <= h)
    && forall i, j :: 0 <= i < j < |s| ==> s[i] != s[j]
  }

  /** h different numbers between 1 and h are all of them. */
  lemma {:induction false} DistinctPerm(s: seq<int>, h: nat)
    requires |s| == h && Distinct(s, h)
    ensures multiset(s) == multiset(Upto(h))
    decreases h
  {
    hide Distinct, Upto;
    if h == 0 {
      UptoStart();
      assert s == [];
    } else if h in s {
      var k :| 0 <= k < |s| && s[k] == h;
      DistinctRest(s, h, k);
      DistinctPerm(s[..k] + s[k + 1..], h - 1);
      Removed(s, k);
      UptoLast(h);
    } else {
      DistinctFront(s, h);
      DistinctPerm(s[..h - 1], h - 1);
      Pigeonhole(s, h);
    }
  }

  lemma UptoStart()
    ensures Upto(0) == []
  {
  }

  lemma UptoLast(h: nat)
    requires h > 0
    ensures multiset(Upto(h)) == multiset(Upto(h - 1)) + multiset{h}
  {
  }

  lemma DistinctRest(s: seq<int>, h: nat, k: nat)
    requires |s| == h && Distinct(s, h) && k < h && s[k] == h
    ensures Distinct(s[..k] + s[k + 1..], h - 1)
  {
    var rest := s[..k] + s[k + 1..];
    forall i | 0 <= i < |rest|
      ensures 1 <= rest[i] <= h - 1
    {
      assert rest[i] == s[if i < k then i else i + 1];
    }
  }

  lemma DistinctFront(s: seq<int>, h: nat)
    requires |s| == h > 0 && Distinct(s, h) && h !in s
    ensures Distinct(s[..h - 1], h - 1)
  {
  }

  lemma Pigeonhole(s: seq<int>, h: nat)
    requires |s| == h > 0 && Distinct(s, h) && multiset(s[..h - 1]) == multiset(Upto(h - 1))
    ensures h in s
  {
    var x := s[h - 1];
    if x != h {
      UptoHas(h - 1, x);
      Member(s[..h - 1], x);
    }
  }

  lemma UptoHas(k: nat, x: int)
    requires 1 <= x <= k
    ensures x in multiset(Upto(k))
  {
    assert Upto(k)[x - 1] == x;
  }

  lemma Member(s: seq<int>, x: int)
    requires x in multiset(s)
    ensures exists i :: 0 <= i < |s| && s[i] == x
  {
    assert x in s;
  }

  // ---- residues in the upper half ---------------------------------------------------------

  function Alt(k: int): int {
    if k % 2 == 0 then 1 else -1
  }

  /** -1 for a residue in the upper half. */
  function Sgn(a: int, n: nat): int {
    if n > 0 && a % n > n / 2 then -1 else 1
  }

  /** The residue of least size, without its sign. */
  function Fold(a: int, n: nat): nat
    requires n > 0
  {
    if a % n > n / 2 then n - a % n else a % n
  }

  lemma FoldIs(a: int, n: nat)
    requires n % 2 == 1
    ensures Cong(a, Sgn(a, n) * Fold(a, n), n) && Fold(a, n) <= n / 2
    ensures Fold(a, n) == 0 ==> Div(n, a)
  {
    hide Cong, Div;
    CongMod(a, n);
    var r := a % n;
    if r > n / 2 {
      ModulusAway(r, n);
      CongTrans(a, r, r - n, n);
    } else {
      FoldZero(a, n);
    }
  }

  lemma ModulusAway(r: int, n: nat)
    requires n > 0
    ensures Cong(r, r - n, n)
  {
    DivBy(n, 1);
  }

  lemma FoldZero(a: int, n: nat)
    requires n > 0
    ensures a % n == 0 <==> Div(n, a)
  {
  }

  lemma SgnCong(a: int, b: int, n: nat)
    requires n > 0 && Cong(a, b, n)
    ensures Sgn(a, n) == Sgn(b, n)
  {
    hide Cong;
    CongSame(a, b, n);
  }

  lemma NegMod(a: int, n: nat)
    requires n > 0 && !Div(n, a)
    ensures (-a) % n == n - a % n
  {
    hide Div;
    FoldZero(a, n);
    var q, r := a / n, a % n;
    assert a == n * q + r;
    assert -a == (n - r) + n * (-q - 1) by { Distribute(n, -q, 1); }
    Shifted(n - r, -q - 1, n);
    SmallMod(n - r, n);
  }

  lemma SgnNeg(a: int, n: nat)
    requires n % 2 == 1 && !Div(n, a)
    ensures Sgn(-a, n) == -Sgn(a, n)
  {
    hide Div;
    NegMod(a, n);
    OddHalves(n);
  }

  lemma OddHalves(n: nat)
    requires n % 2 == 1
    ensures n == 2 * (n / 2) + 1
  {
  }

  /** The product of the signs of a, 2 a, ..., k a. */
  function Signs(a: int, n: nat, k: nat): (s: int)
    ensures s == 1 || s == -1
  {
    if k == 0 then 1 else Signs(a, n, k - 1) * Sgn(a * k, n)
  }

  /** The Jacobi symbol of a modulo the odd number n, after Gauss and Schering. */
  ghost function Jacobi(a: int, n: nat): (j: int)
    requires n % 2 == 1
    ensures j == -1 || j == 0 || j == 1
    ensures j != 0 <==> Coprime(a, n)
  {
    if Coprime(a, n) then Signs(a, n, n / 2) else 0
  }

  // ---- periodicity and sign -----------------------------------------------------------------

  lemma {:induction false} SignsCong(a: int, b: int, n: nat, k: nat)
    requires n > 0 && Cong(a, b, n)
    ensures Signs(a, n, k) == Signs(b, n, k)
    decreases k
  {
    if k > 0 {
      hide Cong, Sgn;
      SignsCong(a, b, n, k - 1);
      CongRefl(k, n);
      CongMul(a, b, k, k, n);
      SgnCong(a * k, b * k, n);
    }
  }

  lemma JacobiCong(a: int, b: int, n: nat)
    requires n % 2 == 1 && Cong(a, b, n)
    ensures Jacobi(a, n) == Jacobi(b, n)
  {
    hide Cong, Coprime, Signs;
    CongSym(a, b, n);
    if Coprime(a, n) { CoprimeCong(b, a, n); }
    if Coprime(b, n) { CoprimeCong(a, b, n); }
    SignsCong(a, b, n, n / 2);
  }

  lemma JacobiOne(a: int)
    ensures Jacobi(a, 1) == 1
  {
    assert Cong(a * 0, 1, 1);
    assert Signs(a, 1, 0) == 1;
  }

  /** A unit times a number below n is no multiple of n. */
  lemma UnitTimes(a: int, i: int, n: nat)
    requires n > 0 && Coprime(a, n) && !Div(n, i)
    ensures !Div(n, a * i)
  {
    if Div(n, a * i) {
      var t: int :| Cong(a * t, 1, n);
      Cancel(a, t, i, n);
      assert false;
    }
  }

  lemma BelowNot(i: int, n: nat)
    requires 0 < i < n
    ensures !Div(n, i)
  {
    if Div(n, i) { DivSmall(n, i); }
  }

  lemma {:induction false} SignsNeg(a: int, n: nat, k: nat)
    requires n % 2 == 1 && Coprime(a, n) && k <= n / 2
    ensures Signs(-a, n, k) == Alt(k) * Signs(a, n, k)
    decreases k
  {
    if k > 0 {
      hide Coprime, Sgn, Div, Alt;
      SignsNeg(a, n, k - 1);
      BelowNot(k, n);
      UnitTimes(a, k, n);
      SgnNeg(a * k, n);
      assert -a * k == -(a * k);
      AltNext(k - 1);
    } else {
      assert Alt(0) == 1;
    }
  }

  lemma AltNext(k: int)
    ensures Alt(k + 1) == -Alt(k)
  {
  }

  lemma CoprimeNeg(a: int, n: nat)
    requires n > 0 && Coprime(a, n)
    ensures Coprime(-a, n)
  {
    var t: int :| Cong(a * t, 1, n);
    hide Cong;
    assert -a * -t == a * t;
  }

  /** The law for -1. */
  lemma JacobiNeg(a: int, n: nat)
    requires n % 2 == 1
    ensures Jacobi(-a, n) == Alt(n / 2) * Jacobi(a, n)
  {
    hide Coprime, Signs, Alt;
    if Coprime(a, n) {
      CoprimeNeg(a, n);
      SignsNeg(a, n, n / 2);
    } else if Coprime(-a, n) {
      CoprimeNeg(-a, n);
    }
  }

  // ---- multiplicativity in a ----------------------------------------------------------------

  /** The sizes of b, 2 b, ..., k b. */
  function Folds(b: int, n: nat, k: nat): (s: seq<int>)
    requires n > 0
    ensures |s| == k && forall i :: 0 <= i < k ==> s[i] == Fold(b * (i + 1), n)
  {
    if k == 0 then [] else Folds(b, n, k - 1) + [Fold(b * k, n)]
  }

  lemma FoldDiffers(b: int, n: nat, i: nat, j: nat)
    requires n % 2 == 1 && Coprime(b, n) && 1 <= i < j <= n / 2
    ensures Fold(b * i, n) != Fold(b * j, n)
  {
    hide Coprime, Cong, Fold, Sgn;
    if Fold(b * i, n) == Fold(b * j, n) {
      var f := Fold(b * i, n);
      FoldIs(b * i, n);
      FoldIs(b * j, n);
      SgnValues(b * i, n);
      SgnValues(b * j, n);
      SameFold(b * i, b * j, Sgn(b * i, n), Sgn(b * j, n), f, n);
      Distribute(b, i, j);
      OddHalves(n);
      BelowNot(i + j, n);
      BelowNot(j - i, n);
      NegDiv(j - i, n);
      UnitTimes(b, i + j, n);
      UnitTimes(b, i - j, n);
      assert false;
    }
  }

  lemma NegDiv(i: int, n: nat)
    requires n > 0 && !Div(n, i)
    ensures !Div(n, -i)
  {
    if Div(n, -i) {
      DivMul(n, -i, -1);
    }
  }

  lemma SameFold(x: int, y: int, s: int, t: int, f: int, n: nat)
    requires n > 0 && Cong(x, s * f, n) && Cong(y, t * f, n) && (s == 1 || s == -1) && (t == 1 || t == -1)
    ensures Div(n, x - y) || Div(n, x + y)
  {
    hide Div;
    if s == t {
      DivAdd(n, x - s * f, y - t * f);
      assert (x - s * f) - (y - t * f) == x - y;
    } else {
      DivAdd(n, x - s * f, y - t * f);
      assert (x - s * f) + (y - t * f) == x + y;
    }
  }

  /** Multiplying by a unit permutes the sizes. */
  lemma FoldsPerm(b: int, n: nat)
    requires n % 2 == 1 && Coprime(b, n)
    ensures multiset(Folds(b, n, n / 2)) == multiset(Upto(n / 2))
  {
    hide Coprime, Fold;
    var h := n / 2;
    var s := Folds(b, n, h);
    forall i | 0 <= i < h
      ensures 1 <= s[i] <= h
    {
      OddHalves(n);
      BelowNot(i + 1, n);
      UnitTimes(b, i + 1, n);
      FoldIs(b * (i + 1), n);
    }
    forall i, j | 0 <= i < j < h
      ensures s[i] != s[j]
    {
      FoldDiffers(b, n, i + 1, j + 1);
    }
    DistinctPerm(s, h);
  }

  /** The sign of a multiple of a product, from the signs of the factors. */
  lemma SgnProduct(a: int, b: int, n: nat, k: nat)
    requires n % 2 == 1 && Coprime(a, n) && Coprime(b, n) && 1 <= k <= n / 2
    ensures Sgn(a * b * k, n) == Sgn(b * k, n) * Sgn(a * Fold(b * k, n), n)
  {
    hide Coprime, Cong, Fold, Sgn, Div;
    var s, f := Sgn(b * k, n), Fold(b * k, n);
    FoldIs(b * k, n);
    OddHalves(n);
    BelowNot(k, n);
    UnitTimes(b, k, n);
    CongRefl(a, n);
    CongMul(a, a, b * k, s * f, n);
    assert a * (b * k) == a * b * k && a * (s * f) == s * (a * f);
    SgnCong(a * b * k, s * (a * f), n);
    FoldPositive(b * k, n);
    BelowNot(f, n);
    UnitTimes(a, f, n);
    SgnNeg(a * f, n);
    SgnValues(b * k, n);
    if s == 1 { assert s * (a * f) == a * f; } else { assert s * (a * f) == -(a * f); }
  }

  lemma SgnValues(a: int, n: nat)
    ensures Sgn(a, n) == 1 || Sgn(a, n) == -1
  {
  }

  lemma FoldPositive(a: int, n: nat)
    requires n % 2 == 1 && !Div(n, a)
    ensures 0 < Fold(a, n) < n
  {
    FoldIs(a, n);
    OddHalves(n);
  }

  function Multiples(a: int, n: nat): int -> int {
    (x: int) => Sgn(a * x, n)
  }

  lemma {:induction false} SignsProduct(a: int, b: int, n: nat, k: nat)
    requires n % 2 == 1 && Coprime(a, n) && Coprime(b, n) && k <= n / 2
    ensures Signs(a * b, n, k) == Signs(b, n, k) * Prod(Multiples(a, n), Folds(b, n, k))
    decreases k
  {
    hide Coprime, Fold, Sgn, Prod, Signs, Folds;
    SignsStart(a * b, n);
    SignsStart(b, n);
    FoldsStart(b, n);
    ProdStart(Multiples(a, n));
    if k > 0 {
      SignsProduct(a, b, n, k - 1);
      SgnProduct(a, b, n, k);
      SignsLast(a * b, n, k);
      SignsLast(b, n, k);
      FoldsLast(b, n, k);
      ProdLast(Multiples(a, n), Folds(b, n, k - 1), Fold(b * k, n));
      Pairs(Signs(b, n, k - 1), Prod(Multiples(a, n), Folds(b, n, k - 1)), Sgn(b * k, n), Sgn(a * Fold(b * k, n), n));
    }
  }

  lemma SignsStart(a: int, n: nat)
    ensures Signs(a, n, 0) == 1
  {
  }

  lemma FoldsStart(b: int, n: nat)
    requires n > 0
    ensures Folds(b, n, 0) == []
  {
  }

  lemma FoldsLast(b: int, n: nat, k: nat)
    requires n > 0 && k > 0
    ensures Folds(b, n, k) == Folds(b, n, k - 1) + [Fold(b * k, n)]
  {
  }

  lemma {:induction false} SignsAsProd(a: int, n: nat, k: nat)
    ensures Prod(Multiples(a, n), Upto(k)) == Signs(a, n, k)
    decreases k
  {
    if k > 0 {
      SignsAsProd(a, n, k - 1);
      ProdLast(Multiples(a, n), Upto(k - 1), k);
    }
  }

  /** The symbol is multiplicative in its first argument. */
  lemma JacobiTimes(a: int, b: int, n: nat)
    requires n % 2 == 1
    ensures Jacobi(a * b, n) == Jacobi(a, n) * Jacobi(b, n)
  {
    hide Coprime, Signs, Prod;
    CoprimeTimes(a, b, n);
    if Coprime(a, n) && Coprime(b, n) {
      var h := n / 2;
      SignsProduct(a, b, n, h);
      FoldsPerm(b, n);
      ProdPerm(Multiples(a, n), Folds(b, n, h), Upto(h));
      SignsAsProd(a, n, h);
      assert Signs(b, n, h) * Signs(a, n, h) == Signs(a, n, h) * Signs(b, n, h);
    }
  }

  // ---- Euler's criterion ----------------------------------------------------------------------

  function Same(): int -> int {
    (x: int) => x
  }

  lemma {:induction false} PowerSigns(a: int, n: nat, k: nat)
    requires n % 2 == 1
    ensures Cong(Pow(a, k) * Prod(Same(), Upto(k)), Signs(a, n, k) * Prod(Same(), Folds(a, n, k)), n)
    decreases k
  {
    hide Cong, Prod, Fold, Sgn;
    ProdStart(Same());
    if k == 0 {
      CongRefl(1, n);
    } else {
      PowerSigns(a, n, k - 1);
      FoldIs(a * k, n);
      ProdLast(Same(), Upto(k - 1), k);
      ProdLast(Same(), Folds(a, n, k - 1), Fold(a * k, n));
      var p, u := Pow(a, k - 1), Prod(Same(), Upto(k - 1));
      var s, f := Signs(a, n, k - 1), Prod(Same(), Folds(a, n, k - 1));
      CongMul(p * u, s * f, a * k, Sgn(a * k, n) * Fold(a * k, n), n);
      Pairs(p, u, a, k);
      Pairs(s, f, Sgn(a * k, n), Fold(a * k, n));
    }
  }

  lemma ProdStart(f: int -> int)
    ensures Prod(f, []) == 1
  {
  }

  lemma Pairs(p: int, u: int, a: int, k: int)
    ensures p * u * (a * k) == a * p * (u * k) == p * a * (u * k)
  {
    assert p * u * (a * k) == p * (u * (a * k));
    assert u * (a * k) == a * (u * k);
    assert p * (a * (u * k)) == p * a * (u * k);
  }

  lemma {:induction false} FactorialUnit(p: nat, k: nat)
    requires Prime(p) && k < p
    ensures !Div(p, Prod(Same(), Upto(k)))
    decreases k
  {
    hide Prime, Div, Prod;
    PrimeBig(p);
    if k == 0 {
      ProdStart(Same());
      NotOne(p);
    } else {
      FactorialUnit(p, k - 1);
      ProdLast(Same(), Upto(k - 1), k);
      BelowNot(k, p);
      if Div(p, Prod(Same(), Upto(k - 1)) * k) { Euclid(p, Prod(Same(), Upto(k - 1)), k); }
    }
  }

  lemma UnitOfPrime(p: nat, a: int)
    requires Prime(p)
    ensures p > 0 && (Coprime(a, p) <==> !Div(p, a))
  {
    PrimeBig(p);
    if !Div(p, a) {
      var t := PrimeInverse(p, a);
    } else if Coprime(a, p) {
      ZeroNotCoprime(p);
      CongSym(a, 0, p);
      CoprimeCong(0, a, p);
      assert false;
    }
  }

  /** Euler's criterion: for an odd prime the symbol is the power to half of p - 1. */
  lemma JacobiEuler(a: int, p: nat)
    requires Prime(p) && p % 2 == 1
    ensures Cong(Pow(a, p / 2), Jacobi(a, p), p)
  {
    hide Prime, Pow, Prod, Signs, Coprime, Div;
    UnitOfPrime(p, a);
    OddPrime(p);
    var h := p / 2;
    if Div(p, a) {
      MultiplePow(p, a, h);
    } else {
      PowerSigns(a, p, h);
      FoldsPerm(a, p);
      ProdPerm(Same(), Folds(a, p, h), Upto(h));
      FactorialUnit(p, h);
      var u := Prod(Same(), Upto(h));
      DivFactor(p, Pow(a, h), Signs(a, p, h), u);
    }
  }

  lemma MultiplePow(p: nat, a: int, h: nat)
    requires p > 0 && h > 0 && Div(p, a)
    ensures Cong(Pow(a, h), 0, p)
  {
    assert Pow(a, h) == a * Pow(a, h - 1);
    DivMul(p, a, Pow(a, h - 1));
  }

  lemma DivFactor(p: nat, x: int, y: int, u: int)
    requires Prime(p) && Cong(x * u, y * u, p) && !Div(p, u)
    ensures Cong(x, y, p)
  {
    assert x * u - y * u == (x - y) * u;
    Euclid(p, x - y, u);
  }

  // ---- the law for 2 -----------------------------------------------------------------------

  lemma {:induction false} SignsOfTwo(n: nat, k: nat)
    requires n % 2 == 1 && k <= n / 2
    ensures Signs(2, n, k) == if k <= n / 2 / 2 then 1 else Alt(k - n / 2 / 2)
    decreases k
  {
    if k > 0 {
      SignsOfTwo(n, k - 1);
      OddHalves(n);
      SmallMod(2 * k, n);
      hide Signs;
      SignsLast(2, n, k);
      HalfLine(n / 2, k);
      AltNext(k - 1 - n / 2 / 2);
      assert Alt(0) == 1;
    }
  }

  lemma SignsLast(a: int, n: nat, k: nat)
    requires k > 0
    ensures Signs(a, n, k) == Signs(a, n, k - 1) * Sgn(a * k, n)
  {
  }

  lemma HalfLine(h: nat, k: nat)
    ensures 2 * k > h <==> k > h / 2
  {
  }

  /** -1 for n that is 3 or 5 modulo 8. */
  function TwoSign(n: nat): int {
    if n % 8 == 3 || n % 8 == 5 then -1 else 1
  }

  lemma HalfOfHalf(n: nat)
    requires n % 2 == 1
    ensures Alt(n / 2 - n / 2 / 2) == TwoSign(n)
  {
    var q, r := n / 8, n % 8;
    assert n == 8 * q + r;
    if r == 1 {
      Quarter(n, 4 * q, 2 * q);
      EvenAlt(q);
    } else if r == 3 {
      Quarter(n, 4 * q + 1, 2 * q);
      EvenAlt(q);
    } else if r == 5 {
      Quarter(n, 4 * q + 2, 2 * q + 1);
      EvenAlt(q);
    } else {
      OddEight(n, q, r);
      Quarter(n, 4 * q + 3, 2 * q + 1);
      EvenAlt(q + 1);
    }
  }

  lemma OddEight(n: nat, q: nat, r: nat)
    requires n % 2 == 1 && n == 8 * q + r && r < 8 && r != 1 && r != 3 && r != 5
    ensures r == 7
  {
    if r % 2 == 0 { Mod2(n, 4 * q + r / 2, 0); }
  }

  lemma EvenAlt(q: int)
    ensures Alt(2 * q) == 1 && Alt(2 * q + 1) == -1
  {
  }

  lemma Quarter(n: nat, h: nat, k: nat)
    requires n == 2 * h + 1 && (h == 2 * k || h == 2 * k + 1)
    ensures n / 2 == h && h / 2 == k
  {
  }

  lemma TwoCoprime(n: nat)
    requires n % 2 == 1
    ensures Coprime(2, n)
  {
    var h := n / 2 + 1;
    OddHalves(n);
    HalfInverts(n, h);
  }

  /** The law for 2. */
  lemma JacobiTwo(a: int, n: nat)
    requires n % 2 == 1
    ensures Jacobi(2 * a, n) == TwoSign(n) * Jacobi(a, n)
  {
    hide Coprime, Signs, Alt, TwoSign;
    JacobiTimes(2, a, n);
    TwoCoprime(n);
    SignsOfTwo(n, n / 2);
    HalfOfHalf(n);
    if n / 2 <= n / 2 / 2 { AltZero(n); }
  }

  lemma AltZero(n: nat)
    requires n / 2 <= n / 2 / 2
    ensures Alt(n / 2 - n / 2 / 2) == 1
  {
  }

  // ---- reciprocity ------------------------------------------------------------------------------

  /** The quotients of m, 2 m, ..., k m by n, summed. */
  function Floors(m: nat, n: nat, k: nat): nat
    requires n > 0
  {
    if k == 0 then 0 else Floors(m, n, k - 1) + QuotientOf(m * k, n)
  }

  function QuotientOf(x: nat, n: nat): (q: nat)
    requires n > 0
    ensures n * q <= x < n * q + n
  {
    NotNegative(x, n);
    assert x == n * (x / n) + x % n;
    x / n
  }

  lemma AltAdd(j: int, k: int)
    ensures Alt(j + k) == Alt(j) * Alt(k)
  {
    var a, b := j / 2, k / 2;
    assert j == 2 * a + j % 2 && k == 2 * b + k % 2;
  }

  lemma AltOdd(m: int, k: int)
    requires m % 2 == 1
    ensures Alt(m * k) == Alt(k)
  {
    OddTimes(m, k);
  }

  /** The parities of one multiple. */
  lemma OneFloor(m: nat, n: nat, k: nat)
    requires m % 2 == 1 && n % 2 == 1
    ensures Alt(k) == Alt(QuotientOf(m * k, n)) * Sgn(m * k, n) * Alt(Fold(m * k, n))
  {
    hide Alt;
    var x := m * k;
    var q := QuotientOf(x, n);
    var r := x - n * q;
    QuotientIs(x, n, q, r);
    AltOdd(m, k);
    AltAdd(n * q, r);
    AltOdd(n, q);
    if r > n / 2 {
      AltAdd(n, -r);
      AltOdd(n, 1);
      AltOnes();
      AltNegate(r);
    }
  }

  lemma AltOnes()
    ensures Alt(1) == -1
  {
  }

  lemma AltNegate(r: int)
    ensures Alt(-r) == Alt(r) && (Alt(r) == 1 || Alt(r) == -1)
  {
    var a := r / 2;
    assert r == 2 * a + r % 2;
  }

  function Alts(): int -> int {
    (x: int) => Alt(x)
  }

  lemma {:induction false} AllFloors(m: nat, n: nat, k: nat)
    requires m % 2 == 1 && n % 2 == 1
    ensures Prod(Alts(), Upto(k)) == Alt(Floors(m, n, k)) * Signs(m, n, k) * Prod(Alts(), Folds(m, n, k))
    decreases k
  {
    hide Alt, Prod, Fold, Sgn, QuotientOf;
    ProdStart(Alts());
    if k == 0 {
      assert Alt(0) == 1 by { AltAdd(0, 0); AltNegate(0); }
    } else {
      AllFloors(m, n, k - 1);
      OneFloor(m, n, k);
      ProdLast(Alts(), Upto(k - 1), k);
      ProdLast(Alts(), Folds(m, n, k - 1), Fold(m * k, n));
      AltAdd(Floors(m, n, k - 1), QuotientOf(m * k, n));
      SixFactors(Alt(Floors(m, n, k - 1)), Signs(m, n, k - 1), Prod(Alts(), Folds(m, n, k - 1)),
                 Alt(QuotientOf(m * k, n)), Sgn(m * k, n), Alt(Fold(m * k, n)));
    }
  }

  lemma SixFactors(a: int, b: int, c: int, d: int, e: int, f: int)
    ensures a * b * c * (d * e * f) == a * d * (b * e) * (c * f)
  {
    assert a * b * c * (d * e * f) == a * (b * (c * (d * (e * f))));
    assert a * d * (b * e) * (c * f) == a * (d * (b * (e * (c * f))));
    assert c * (d * (e * f)) == d * (e * (c * f));
    assert b * (d * (e * (c * f))) == d * (b * (e * (c * f)));
  }

  lemma {:induction false} AltsUnit(s: seq<int>)
    ensures Prod(Alts(), s) == 1 || Prod(Alts(), s) == -1
    decreases |s|
  {
    if s != [] { AltsUnit(s[..|s| - 1]); }
  }

  /** Eisenstein: the sign of an odd m is the parity of the sum of the quotients. */
  lemma SignsAreFloors(m: nat, n: nat)
    requires m % 2 == 1 && n % 2 == 1 && Coprime(m, n)
    ensures Signs(m, n, n / 2) == Alt(Floors(m, n, n / 2))
  {
    hide Alt, Prod, Signs, Coprime, Floors;
    var h := n / 2;
    AllFloors(m, n, h);
    FoldsPerm(m, n);
    ProdPerm(Alts(), Folds(m, n, h), Upto(h));
    AltsUnit(Upto(h));
    AltNegate(Floors(m, n, h));
  }

  // the lattice points on both sides of the diagonal

  /** How many j up to k have n j below x. */
  function Below(x: int, n: nat, k: nat): nat {
    if k == 0 then 0 else Below(x, n, k - 1) + if n * k < x then 1 else 0
  }

  lemma {:induction false} BelowIs(x: nat, n: nat, q: nat, k: nat)
    requires n > 0 && n * q < x < n * q + n
    ensures Below(x, n, k) == if k <= q then k else q
    decreases k
  {
    if k > 0 {
      BelowIs(x, n, q, k - 1);
      if k <= q { MulLe(k, q, n); } else { MulLe(q + 1, k, n); }
      assert k * n == n * k && q * n == n * q && (q + 1) * n == n * q + n;
    }
  }

  /** The points (i, j), i up to a and j up to b, with n j below m i. */
  function Grid(m: nat, n: nat, a: nat, b: nat): nat {
    if a == 0 then 0 else Grid(m, n, a - 1, b) + Below(m * a, n, b)
  }

  /** How many j up to b have n j above x. */
  function Above(x: int, n: nat, b: nat): nat {
    if b == 0 then 0 else Above(x, n, b - 1) + if n * b > x then 1 else 0
  }

  lemma {:induction false} BothSides(x: int, n: nat, b: nat)
    requires forall j :: 1 <= j <= b ==> n * j != x
    ensures Below(x, n, b) + Above(x, n, b) == b
    decreases b
  {
    if b > 0 {
      BothSides(x, n, b - 1);
      assert n * b != x;
    }
  }

  lemma {:induction false} GridLast(m: nat, n: nat, a: nat, b: nat)
    requires b > 0
    ensures Grid(m, n, a, b) == Grid(m, n, a, b - 1) + Above(n * b, m, a)
    decreases a
  {
    if a > 0 { GridLast(m, n, a - 1, b); }
  }

  lemma {:induction false} GridFull(m: nat, n: nat, a: nat, b: nat)
    requires forall i, j :: 1 <= i <= a && 1 <= j <= b ==> m * i != n * j
    ensures Grid(m, n, a, b) + Grid(n, m, b, a) == a * b
    decreases a
  {
    if a == 0 {
      GridEmpty(n, m, b);
    } else {
      GridFull(m, n, a - 1, b);
      GridLast(n, m, b, a);
      BothSides(m * a, n, b);
      assert (a - 1) * b + b == a * b;
    }
  }

  lemma {:induction false} GridEmpty(n: nat, m: nat, b: nat)
    ensures Grid(n, m, b, 0) == 0
    decreases b
  {
    if b > 0 { GridEmpty(n, m, b - 1); }
  }

  lemma OffDiagonal(m: nat, n: nat, i: nat, j: nat)
    requires n > 0 && Coprime(m, n) && 0 < i < n
    ensures m * i != n * j
  {
    if m * i == n * j {
      DivBy(n, j);
      BelowNot(i, n);
      UnitTimes(m, i, n);
      assert false;
    }
  }

  lemma {:induction false} FloorsAreGrid(m: nat, n: nat, k: nat)
    requires m % 2 == 1 && n % 2 == 1 && Coprime(m, n) && k <= n / 2
    ensures Floors(m, n, k) == Grid(m, n, k, m / 2)
    decreases k
  {
    if k > 0 {
      hide Coprime, Below;
      FloorsAreGrid(m, n, k - 1);
      OddHalves(n);
      var q := QuotientOf(m * k, n);
      OffDiagonal(m, n, k, q);
      BelowIs(m * k, n, q, m / 2);
      QuotientFits(m, n, k, q);
    }
  }

  lemma QuotientFits(m: nat, n: nat, k: nat, q: nat)
    requires m % 2 == 1 && n == 2 * (n / 2) + 1 && k <= n / 2 && n * q < m * k
    ensures q <= m / 2
  {
    OddHalves(m);
    var g, h := m / 2, n / 2;
    MulLe(k, h, m);
    assert (g + 1) * n == (g + 1) * (2 * h + 1) == 2 * (g * h) + g + 2 * h + 1;
    assert h * m == h * (2 * g + 1) == 2 * (g * h) + h;
    if q >= g + 1 { MulLe(g + 1, q, n); }
  }

  lemma CoprimeSwap(m: nat, n: nat)
    requires m > 0 && n > 0 && Coprime(m, n)
    ensures Coprime(n, m)
  {
    var t: int :| Cong(m * t, 1, n);
    var k := Witness(n, m * t - 1);
    DivBy(m, -t);
    assert n * -k - 1 == m * -t;
    assert Cong(n * -k, 1, m);
  }

  lemma Reciprocal(m: nat, n: nat)
    requires m % 2 == 1 && n % 2 == 1 && Coprime(m, n)
    ensures Signs(m, n, n / 2) * Signs(n, m, m / 2) == Alt((n / 2) * (m / 2))
  {
    hide Coprime, Signs, Alt, Floors, Grid;
    CoprimeSwap(m, n);
    SignsAreFloors(m, n);
    SignsAreFloors(n, m);
    FloorsAreGrid(m, n, n / 2);
    FloorsAreGrid(n, m, m / 2);
    forall i, j | 1 <= i <= n / 2 && 1 <= j <= m / 2
      ensures m * i != n * j
    {
      OddHalves(n);
      OffDiagonal(m, n, i, j);
    }
    GridFull(m, n, n / 2, m / 2);
    AltAdd(Floors(m, n, n / 2), Floors(n, m, m / 2));
  }

  /** -1 when both are 3 modulo 4. */
  function FlipSign(m: nat, n: nat): int {
    if m % 4 == 3 && n % 4 == 3 then -1 else 1
  }

  lemma HalfParity(n: nat)
    requires n % 2 == 1
    ensures n / 2 % 2 == 1 <==> n % 4 == 3
    ensures Alt(n / 2) == if n % 4 == 3 then -1 else 1
  {
    if n % 4 == 3 {
      Quarter3(n, n / 4);
    } else {
      OddMod4(n);
      Quarter1(n, n / 4);
    }
  }

  lemma Quarter3(n: nat, q: nat)
    requires n == 4 * q + 3
    ensures n / 2 == 2 * q + 1 && n / 2 % 2 == 1
  {
    Mod2(2 * q + 1, q, 1);
  }

  lemma Quarter1(n: nat, q: nat)
    requires n == 4 * q + 1
    ensures n / 2 == 2 * q && n / 2 % 2 == 0
  {
    Mod2(2 * q, q, 0);
  }

  lemma FlipIs(m: nat, n: nat)
    requires m % 2 == 1 && n % 2 == 1
    ensures Alt((n / 2) * (m / 2)) == FlipSign(m, n)
  {
    HalfParity(m);
    HalfParity(n);
    var g, h := m / 2, n / 2;
    if h % 2 == 1 {
      OddTimes(h, g);
    } else {
      EvenTimes(h, g);
    }
  }

  /** Quadratic reciprocity for odd positive numbers. */
  lemma JacobiSwap(m: nat, n: nat)
    requires m % 2 == 1 && n % 2 == 1
    ensures Jacobi(m, n) == FlipSign(m, n) * Jacobi(n, m)
  {
    hide Coprime, Signs, Alt;
    if Coprime(m, n) {
      CoprimeSwap(m, n);
      Reciprocal(m, n);
      FlipIs(m, n);
      Units(Signs(m, n, n / 2), Signs(n, m, m / 2), FlipSign(m, n));
    } else if Coprime(n, m) {
      CoprimeSwap(n, m);
    }
  }

  lemma Units(x: int, y: int, f: int)
    requires (x == 1 || x == -1) && (y == 1 || y == -1) && x * y == f
    ensures x == f * y
  {
  }

  // ---- multiplicativity in n ----------------------------------------------------------------------

  /** An odd positive number congruent to a. */
  lemma OddTwin(a: int, n: nat) returns (b: nat)
    requires n % 2 == 1
    ensures b % 2 == 1 && Cong(a, b, n)
  {
    var r := a % n;
    CongMod(a, n);
    if r % 2 == 1 {
      b := r;
    } else {
      b := r + n;
      OddPlus(r, n);
      hide Cong;
      ModulusAway(r + n, n);
      CongSym(r + n, r, n);
      CongTrans(a, r, r + n, n);
    }
  }

  lemma OddPlus(r: nat, n: nat)
    requires r % 2 == 0 && n % 2 == 1
    ensures (r + n) % 2 == 1
  {
    Mod2(r + n, r / 2 + n / 2, 1);
  }

  lemma CongFactor(a: int, b: int, m: nat, n: nat)
    requires m > 0 && n > 0 && Cong(a, b, m * n)
    ensures Cong(a, b, m) && Cong(a, b, n)
  {
    DivBy(m, n);
    DivBy(n, m);
    assert m * n == n * m;
    DivTrans(m, m * n, a - b);
    DivTrans(n, m * n, a - b);
  }

  lemma ProductOdd(m: nat, n: nat)
    requires m % 2 == 1 && n % 2 == 1
    ensures m * n % 2 == 1 && m * n > 0
  {
    OddTimes(m, n);
    MulLe(1, m, n);
  }

  lemma FlipProduct(a: nat, m: nat, n: nat)
    requires a % 2 == 1 && m % 2 == 1 && n % 2 == 1
    ensures FlipSign(a, m * n) == FlipSign(a, m) * FlipSign(a, n)
  {
    OddFour(m);
    OddFour(n);
    var j, k := m / 4, n / 4;
    var r, s := m % 4, n % 4;
    assert m == 4 * j + r && n == 4 * k + s;
    var big := 4 * (j * k) + j * s + k * r;
    FourTimes(j, r, k, s);
    if r == 3 && s == 3 { Mod4(m * n, big + 2, 1); } else { Mod4(m * n, big, r * s); }
  }

  lemma FourTimes(j: nat, r: nat, k: nat, s: nat)
    ensures (4 * j + r) * (4 * k + s) == 4 * (4 * (j * k) + j * s + k * r) + r * s
  {
    SumTimes(4 * j, r, 4 * k + s);
    Distribute(4 * j, 4 * k, s);
    Distribute(r, 4 * k, s);
    Times3(4, j, s);
    assert 4 * j * (4 * k) == 16 * (j * k) && r * (4 * k) == 4 * (k * r);
  }

  lemma OddFour(n: nat)
    requires n % 2 == 1
    ensures n % 4 == 1 || n % 4 == 3
  {
    if n % 4 != 3 { OddMod4(n); }
  }

  /** The symbol is multiplicative in its modulus. */
  lemma JacobiModulus(a: int, m: nat, n: nat)
    requires m % 2 == 1 && n % 2 == 1
    ensures m * n % 2 == 1 && Jacobi(a, m * n) == Jacobi(a, m) * Jacobi(a, n)
  {
    hide Jacobi, Cong, FlipSign;
    ProductOdd(m, n);
    var b := OddTwin(a, m * n);
    CongFactor(a, b, m, n);
    JacobiCong(a, b, m * n);
    JacobiCong(a, b, m);
    JacobiCong(a, b, n);
    JacobiSwap(b, m * n);
    JacobiSwap(b, m);
    JacobiSwap(b, n);
    JacobiTimes(m, n, b);
    FlipProduct(b, m, n);
    assert FlipSign(b, m) * FlipSign(b, n) * (Jacobi(m, b) * Jacobi(n, b))
        == FlipSign(b, m) * Jacobi(m, b) * (FlipSign(b, n) * Jacobi(n, b));
  }

  /** Modulo a square the symbol is never -1. */
  lemma JacobiOfSquare(a: int, s: nat)
    requires s % 2 == 1
    ensures s * s % 2 == 1 && Jacobi(a, s * s) != -1
  {
    JacobiModulus(a, s, s);
    hide Jacobi;
    var j := Jacobi(a, s);
    assert j * j >= 0;
  }

  /** The square of a unit has the symbol 1. */
  lemma SquareHasOne(a: int, n: nat)
    requires n % 2 == 1 && Coprime(a, n)
    ensures Jacobi(a * a, n) == 1
  {
    hide Coprime, Signs;
    JacobiTimes(a, a, n);
  }
}
