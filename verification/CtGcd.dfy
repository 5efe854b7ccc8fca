/**
 The constant-time greatest common divisor with modular inverse, batch
 inversion, and reduction of random bits (crypto/bn/bn_prime.c).
 */
module CtGcd {
  import opened Primes
  import opened QuadRing
  import opened LucasTheory
  import opened Montgomery

  // ---- halving ----------------------------------------------------------------------------

  lemma OddDivisor(d: nat, a: nat)
    requires d > 0 && Div(d, a) && a % 2 == 1
    ensures d % 2 == 1
  {
    var k := Witness(d, a);
    if d % 2 == 0 { EvenTimes(d, k); }
  }

  lemma EvenTimes(d: int, k: int)
    requires d % 2 == 0
    ensures d * k % 2 == 0
  {
    var c := d / 2;
    assert d == 2 * c;
    assert d * k == 2 * (c * k);
  }

  /** The common divisors of a and b. */
  ghost predicate SameDivisors(a: int, b: int, a': int, b': int) {
    forall d: nat :: d > 0 ==> (Div(d, a) && Div(d, b) <==> Div(d, a') && Div(d, b'))
  }

  lemma DivisorsOfHalf(a: nat, b: nat)
    requires a % 2 == 1 && b % 2 == 0
    ensures SameDivisors(a, b, a, b / 2)
  {
    var h := b / 2;
    assert b == 2 * h;
    forall d: nat | d > 0
      ensures Div(d, a) && Div(d, b) <==> Div(d, a) && Div(d, h)
    {
      hide Div;
      if Div(d, a) && Div(d, b) {
        OddDivisor(d, a);
        OddHalf(d, h);
      }
      if Div(d, h) { DivMul(d, h, 2); }
    }
  }

  lemma DivisorsOfDifference(a: nat, b: nat)
    ensures SameDivisors(a, b, a, b - a)
  {
    forall d: nat | d > 0
      ensures Div(d, a) && Div(d, b) <==> Div(d, a) && Div(d, b - a)
    {
      hide Div;
      if Div(d, a) && Div(d, b) { DivAdd(d, b, a); }
      if Div(d, a) && Div(d, b - a) { DivAdd(d, b - a, a); }
      assert b - a + a == b;
    }
  }

  /** Half of v modulo the odd number m. */
  function Halve(v: nat, m: nat): (h: nat)
    requires m % 2 == 1 && v < m
    ensures h < m && (2 * h == v || 2 * h == v + m)
  {
    if v % 2 == 1 then OddSum(v, m); (v + m) / 2 else v / 2
  }

  lemma OddSum(v: nat, m: nat)
    requires v % 2 == 1 && m % 2 == 1
    ensures 2 * ((v + m) / 2) == v + m
  {
    assert v + m == 2 * (v / 2 + m / 2 + 1);
  }

  lemma HalveCong(v: nat, b: nat, x: nat, m: nat)
    requires m % 2 == 1 && v < m && b % 2 == 0 && Cong(v * x, b, m)
    ensures Cong(Halve(v, m) * x, b / 2, m)
  {
    var h, c := Halve(v, m), b / 2;
    assert b == 2 * c;
    hide Div, Halve;
    assert Div(m, 2 * h * x - 2 * c) by {
      if 2 * h == v + m {
        DivBy(m, x);
        DivAdd(m, v * x - b, m * x);
        assert (v + m) * x == v * x + m * x;
      }
    }
    assert 2 * h * x - 2 * c == 2 * (h * x - c);
    OddHalf(m, h * x - c);
  }

  // ---- one turn -----------------------------------------------------------------------------

  datatype State = State(a: nat, b: nat, u: nat, v: nat)

  /** Between turns: a is odd, the multiples of x, and the common divisors of m and x. */
  ghost predicate Inv(s: State, x: nat, m: nat) {
    && m % 2 == 1 && s.a % 2 == 1 && s.u < m && s.v < m
    && Cong(s.u * x, s.a, m) && Cong(s.v * x, s.b, m)
    && SameDivisors(m, x, s.a, s.b)
  }

  /** The conditional swap and subtraction when b is odd. */
  function Subtracted(s: State, m: nat): (t: State)
    requires s.u < m && s.v < m
    ensures t.u < m && t.v < m
  {
    if s.b % 2 == 0 then s
    else
      var (a, b, u, v) := if s.a >= s.b then (s.b, s.a, s.v, s.u) else (s.a, s.b, s.u, s.v);
      State(a, b - a, u, if v >= u then v - u else v - u + m)
  }

  lemma SubtractedKeeps(s: State, x: nat, m: nat)
    requires Inv(s, x, m)
    ensures var t := Subtracted(s, m); Inv(t, x, m) && t.b % 2 == 0 && t.a * t.b <= s.a * s.b
  {
    hide Cong, SameDivisors;
    if s.b % 2 == 1 {
      var t := Subtracted(s, m);
      var (a, b, u, v) := if s.a >= s.b then (s.b, s.a, s.v, s.u) else (s.a, s.b, s.u, s.v);
      OddDifference(b, a);
      SubtractCong(t.v, v, u, x, a, b, m);
      DivisorsOfDifference(a, b);
      SwapDivisors(m, x, s.a, s.b, a, b);
      SmallerProduct(a, b);
    }
  }

  lemma SmallerProduct(a: nat, b: nat)
    ensures a * (b - a) <= a * b == b * a
  {
    Distribute(a, b, a);
    assert a * a >= 0;
  }

  lemma SwapDivisors(m: int, x: int, a: int, b: int, a': int, b': int)
    requires SameDivisors(m, x, a, b) && SameDivisors(a', b', a', b' - a')
    requires (a', b') == (a, b) || (a', b') == (b, a)
    ensures SameDivisors(m, x, a', b' - a')
  {
    hide Div;
  }

  lemma OddDifference(b: int, a: int)
    requires a % 2 == 1 && b % 2 == 1
    ensures (b - a) % 2 == 0
  {
    assert b - a == 2 * (b / 2 - a / 2);
  }

  lemma SubtractCong(t: nat, v: nat, u: nat, x: nat, a: nat, b: nat, m: nat)
    requires m > 0 && (t == v - u || t == v - u + m) && Cong(u * x, a, m) && Cong(v * x, b, m)
    ensures Cong(t * x, b - a, m)
  {
    hide Div;
    DivAdd(m, v * x - b, u * x - a);
    DivBy(m, x);
    assert (v - u) * x == v * x - u * x;
    if t == v - u + m {
      DivAdd(m, (v - u) * x - (b - a), m * x);
      assert (v - u + m) * x == (v - u) * x + m * x;
    }
  }

  /** One turn of the loop. */
  function Turn(s: State, m: nat): (t: State)
    requires m % 2 == 1 && s.u < m && s.v < m
    ensures t.u < m && t.v < m
  {
    var t := Subtracted(s, m);
    State(t.a, t.b / 2, t.u, Halve(t.v, m))
  }

  /** Each turn keeps the invariant and at least halves the product of a and b. */
  lemma TurnKeeps(s: State, x: nat, m: nat)
    requires Inv(s, x, m)
    ensures var t := Turn(s, m); Inv(t, x, m) && 2 * (t.a * t.b) <= s.a * s.b
  {
    hide Subtracted, Halve, Inv;
    InvBounds(s, x, m);
    SubtractedKeeps(s, x, m);
    var r := Subtracted(s, m);
    HalfKeeps(r, x, m);
    Times3(2, r.a, r.b / 2);
    assert 2 * (r.a * (r.b / 2)) == r.a * (2 * (r.b / 2));
  }

  lemma InvBounds(s: State, x: nat, m: nat)
    requires Inv(s, x, m)
    ensures m % 2 == 1 && s.u < m && s.v < m
  {
    hide Cong, SameDivisors;
  }

  lemma HalfKeeps(r: State, x: nat, m: nat)
    requires Inv(r, x, m) && r.b % 2 == 0
    ensures Inv(State(r.a, r.b / 2, r.u, Halve(r.v, m)), x, m) && 2 * (r.b / 2) == r.b
  {
    HalveCong(r.v, r.b, x, m);
    DivisorsOfHalf(r.a, r.b);
    hide Div, Halve, Cong;
  }

  /** ct_mod_sub, the shifts and the swaps of one turn compute Turn. */
  method DoTurn(s: State, m: nat) returns (t: State)
    requires m % 2 == 1 && s.u < m && s.v < m
    ensures t == Turn(s, m)
  {
    var a, b, u, v := s.a, s.b, s.u, s.v;
    var bIsOdd := b % 2 == 1;
    if bIsOdd && a >= b {
      a, b := b, a;
      u, v := v, u;
    }
    if bIsOdd {
      b := b - a;
      v := if v >= u then v - u else v - u + m;
    }
    b := b / 2;
    v := if v % 2 == 1 then (v + m) / 2 else v / 2;
    t := State(a, b, u, v);
  }

  lemma StartInv(x: nat, m: nat)
    requires m % 2 == 1 && m > 1
    ensures Inv(State(m, x, 0, 1), x, m)
  {
    DivBy(m, -1);
    assert 0 * x - m == m * -1;
    assert 1 * x - x == 0;
    DivBy(m, 0);
    hide Div;
  }

  /**
   ct_by_gcd_inv: whatever the numbers, three turns a bit are enough; the result is
   the greatest common divisor, and a number whose product with x is congruent to it.
   */
  method GcdInverse(x: nat, m: nat, width: nat) returns (inv: nat, gcd: nat)
    requires m % 2 == 1 && m > 1 && m < Pow2(width) && x < Pow2(width)
    ensures IsGcd(gcd, m, x)
    ensures inv < m && Cong(inv * x, gcd, m)
  {
    hide Inv, Turn, Pow2, Cong, Div, IsGcd;
    var s := State(m, x, 0, 1);
    StartInv(x, m);
    ghost var product := m * x;
    var iters := 3 * width;
    ProductFits(m, x, width);
    ScaleStart(m * x);
    for i := 0 to iters
      invariant Inv(s, x, m) && s.u < m && s.v < m
      invariant Shrunk(s, i, product)
    {
      TurnKeeps(s, x, m);
      ShrinkStep(s, Turn(s, m), i, product);
      s := DoTurn(s, m);
    }
    Exhausted(s, x, m, iters, product, width);
    GcdAtEnd(s, x, m);
    inv, gcd := s.u, s.a;
  }

  /** After i turns the product of a and b has shrunk by 2^i. */
  ghost predicate Shrunk(s: State, i: nat, product: nat) {
    s.a * s.b * Pow2(i) <= product
  }

  lemma ScaleStart(p: nat)
    ensures p * Pow2(0) == p
  {
  }

  lemma ShrinkStep(s: State, t: State, i: nat, product: nat)
    requires Shrunk(s, i, product) && 2 * (t.a * t.b) <= s.a * s.b
    ensures Shrunk(t, i + 1, product)
  {
    var p := Pow2(i);
    assert Pow2(i + 1) == 2 * p;
    var x, y := t.a * t.b, s.a * s.b;
    assert x * (2 * p) == 2 * x * p;
    MulLe(2 * x, y, p);
  }

  lemma {:induction false} Pow2Add(m: nat, n: nat)
    ensures Pow2(m + n) == Pow2(m) * Pow2(n)
    decreases m
  {
    if m > 0 {
      Pow2Add(m - 1, n);
      assert 2 * (Pow2(m - 1) * Pow2(n)) == 2 * Pow2(m - 1) * Pow2(n);
    }
  }

  lemma WordPower()
    ensures Pow2(64) == 0x1_0000_0000_0000_0000
  {
    assert Pow2(8) == 0x100;
    Pow2Add(8, 8);
    Pow2Add(16, 16);
    Pow2Add(32, 32);
  }

  lemma ProductFits(m: nat, x: nat, width: nat)
    requires 0 < m < Pow2(width) && x < Pow2(width)
    ensures m * x < Pow2(3 * width)
  {
    var p := Pow2(width);
    Pow2Add(width, width);
    Pow2Add(2 * width, width);
    hide Pow2;
    MulLe(x, p, m);
    MulLe(m, p, p);
    assert x * m < p * p by { StrictMul(x, p, m); MulLe(m, p, p); assert p * m == m * p; }
    assert x * m == m * x;
    assert width + width == 2 * width && 2 * width + width == 3 * width;
    MulLe(1, p, p * p);
    assert p * p * p == p * (p * p);
  }

  lemma StrictMul(x: nat, y: nat, m: nat)
    requires x < y && m > 0
    ensures x * m < y * m
  {
    MulLe(x + 1, y, m);
    assert (x + 1) * m == x * m + m;
  }

  lemma Exhausted(s: State, x: nat, m: nat, iters: nat, product: nat, width: nat)
    requires Inv(s, x, m) && iters == 3 * width && Shrunk(s, iters, product) && product < Pow2(3 * width)
    ensures s.b == 0
  {
    hide Pow2, SameDivisors, Cong;
    if s.a * s.b >= 1 { MulLe(1, s.a * s.b, Pow2(iters)); }
    if s.b >= 1 { MulLe(1, s.a, s.b); }
  }

  lemma GcdAtEnd(s: State, x: nat, m: nat)
    requires Inv(s, x, m) && s.b == 0
    ensures IsGcd(s.a, m, x) && Cong(s.u * x, s.a, m)
  {
    DivBy(s.a, 1);
    DivBy(s.a, 0);
    forall d: nat | d > 0 && Div(d, m) && Div(d, x)
      ensures Div(d, s.a)
    {
    }
    assert Div(s.a, s.a) && Div(s.a, s.b);
  }

  /** A common divisor of one is an inverse, and only then is there one. */
  lemma GcdOne(g: nat, inv: nat, x: nat, m: nat)
    requires m > 1 && IsGcd(g, m, x) && Cong(inv * x, g, m)
    ensures g == 1 <==> Coprime(x, m)
  {
    if g == 1 { assert Cong(x * inv, 1, m) by { assert x * inv == inv * x; } }
    if Coprime(x, m) {
      var t: int :| Cong(x * t, 1, m);
      hide Cong;
      UnitGcd(g, t, x, m);
    }
  }

  lemma UnitGcd(g: nat, t: int, x: nat, m: nat)
    requires m > 1 && g > 0 && Div(g, m) && Div(g, x) && Cong(x * t, 1, m)
    ensures g == 1
  {
    DivTrans(g, m, x * t - 1);
    hide Div;
    DivMul(g, x, t);
    DivAdd(g, x * t, x * t - 1);
    DivTooBig(g, 1);
  }

  // ---- batch inversion ------------------------------------------------------------------------

  /** The product of the first k numbers. */
  function Product(ys: seq<nat>, k: nat): nat
    requires k <= |ys|
  {
    if k == 0 then 1 else Product(ys, k - 1) * ys[k - 1]
  }

  lemma CoprimeCong(x: int, y: int, n: nat)
    requires n > 0 && Cong(x, y, n) && Coprime(y, n)
    ensures Coprime(x, n)
  {
    var t: int :| Cong(y * t, 1, n);
    hide Cong;
    CongRefl(t, n);
    CongMul(x, y, t, t, n);
    CongTrans(x * t, y * t, 1, n);
  }

  lemma CoprimeTimes(x: int, y: int, n: nat)
    requires n > 0
    ensures Coprime(x * y, n) <==> Coprime(x, n) && Coprime(y, n)
  {
    if Coprime(x * y, n) {
      var t: int :| Cong(x * y * t, 1, n);
      hide Cong;
      assert x * y * t == x * (y * t) && x * y * t == y * (x * t);
    }
    if Coprime(x, n) && Coprime(y, n) {
      var s: int :| Cong(x * s, 1, n);
      var t: int :| Cong(y * t, 1, n);
      hide Cong;
      CongMul(x * s, 1, y * t, 1, n);
      assert x * s * (y * t) == x * y * (s * t);
      assert Cong(x * y * (s * t), 1, n);
    }
  }

  lemma {:induction false} CoprimeProduct(ys: seq<nat>, k: nat, n: nat)
    requires k <= |ys| && n > 0
    ensures Coprime(Product(ys, k), n) <==> forall i :: 0 <= i < k ==> Coprime(ys[i], n)
    decreases k
  {
    if k == 0 {
      CongRefl(1, n);
      assert Cong(1 * 1, 1, n);
    } else {
      CoprimeProduct(ys, k - 1, n);
      CoprimeTimes(Product(ys, k - 1), ys[k - 1], n);
      hide Coprime;
    }
  }

  lemma CoprimeEnc(m: Mont, x: int)
    requires m.Ok()
    ensures Coprime(m.Enc(x), m.w) <==> Coprime(x, m.w)
  {
    hide Cong;
    EncMod(m, x);
    CongSym(m.Enc(x), x * m.r, m.w);
    assert Coprime(m.r, m.w);
    CoprimeTimes(x, m.r, m.w);
    if Coprime(m.Enc(x), m.w) { CoprimeCong(x * m.r, m.Enc(x), m.w); }
    if Coprime(x, m.w) { CoprimeCong(m.Enc(x), x * m.r, m.w); }
  }

  lemma ZeroNotCoprime(n: nat)
    requires n > 1
    ensures !Coprime(0, n)
  {
    if Coprime(0, n) {
      var t: int :| Cong(0 * t, 1, n);
      DivMul(n, -1, -1);
      NotOne(n);
      assert false;
    }
  }

  /** The registers with every zero replaced by one. */
  method NonZero(xs: seq<nat>) returns (ys: seq<nat>, zero: bool)
    ensures |ys| == |xs| && zero == (exists i :: 0 <= i < |xs| && xs[i] == 0)
    ensures forall i :: 0 <= i < |xs| ==> ys[i] == if xs[i] == 0 then 1 else xs[i]
  {
    ys, zero := [], false;
    for i := 0 to |xs|
      invariant |ys| == i && zero == (exists k :: 0 <= k < i && xs[k] == 0)
      invariant forall k :: 0 <= k < i ==> ys[k] == if xs[k] == 0 then 1 else xs[k]
    {
      zero := zero || xs[i] == 0;
      ys := ys + [if xs[i] == 0 then 1 else xs[i]];
    }
  }

  /** The running products, in Montgomery form. */
  method Products(m: Mont, ys: seq<nat>) returns (c: seq<nat>)
    requires m.Ok() && ys != []
    ensures |c| == |ys| && forall i :: 0 <= i < |ys| ==> c[i] == m.Enc(Product(ys, i + 1))
  {
    hide Cong;
    c := [m.Times(ys[0], m.RR())];
    EncIn(m, ys[0]);
    assert Product(ys, 1) == 1 * ys[0] by { assert Product(ys, 0) == 1; }
    for i := 1 to |ys|
      invariant |c| == i && forall k :: 0 <= k < i ==> c[k] == m.Enc(Product(ys, k + 1))
    {
      var x := m.Times(ys[i], m.RR());
      EncIn(m, ys[i]);
      EncTimes(m, Product(ys, i), ys[i]);
      c := c + [m.Times(c[i - 1], x)];
    }
  }

  /** all is the inverse of the Montgomery form of a product. */
  ghost predicate Inverts(m: Mont, all: nat, product: nat)
    requires m.w > 0
  {
    Cong(all * (product * m.r), 1, m.w)
  }

  /** One step back: the inverse of the last factor, and of the product without it. */
  lemma StepBack(m: Mont, all: nat, p: nat, y: nat)
    requires m.Ok() && Inverts(m, all, p * y)
    ensures Cong(m.Enc(m.Times(all, m.Enc(p))) * y, 1, m.w)
    ensures Inverts(m, m.Times(all, m.Enc(y)), p)
  {
    hide Cong;
    var w, t, s := m.w, m.Times(all, m.Enc(p)), m.Times(all, m.Enc(y));
    TimesEnc(m, all, p);
    EncMod(m, t);
    CongRefl(m.r, w);
    CongMul(t, all * p, m.r, m.r, w);
    CongTrans(m.Enc(t), t * m.r, all * p * m.r, w);
    CongRefl(y, w);
    CongMul(m.Enc(t), all * p * m.r, y, y, w);
    Shuffle(all, p, y, m.r);
    CongTrans(m.Enc(t) * y, all * p * m.r * y, 1, w);
    TimesEnc(m, all, y);
    CongRefl(p * m.r, w);
    CongMul(s, all * y, p * m.r, p * m.r, w);
    CongTrans(s * (p * m.r), all * y * (p * m.r), 1, w);
  }

  lemma Shuffle(all: int, p: int, y: int, r: int)
    ensures all * p * r * y == all * (p * y * r) == all * y * (p * r)
  {
    assert all * p * r * y == all * (p * r * y);
    assert p * r * y == p * y * r == y * (p * r);
    assert all * y * (p * r) == all * (y * (p * r));
  }

  lemma TimesEnc(m: Mont, x: nat, y: int)
    requires m.Ok()
    ensures Cong(m.Times(x, m.Enc(y)), x * y, m.w)
  {
    hide Cong;
    EncMod(m, y);
    Cancelled(m, m.Enc(y), x, y);
    assert m.Enc(y) * x == x * m.Enc(y) && y * x == x * y;
    CongMod(x * m.Enc(y) * m.rInv, m.w);
    CongTrans(m.Times(x, m.Enc(y)), x * m.Enc(y) * m.rInv, x * y, m.w);
  }

  lemma FirstInverse(m: Mont, all: nat, y: nat)
    requires m.Ok() && Inverts(m, all, y)
    ensures Cong(m.Enc(all) * y, 1, m.w)
  {
    hide Cong;
    EncMod(m, all);
    CongRefl(y, m.w);
    CongMul(m.Enc(all), all * m.r, y, y, m.w);
    assert all * m.r * y == all * (y * m.r);
    CongTrans(m.Enc(all) * y, all * m.r * y, 1, m.w);
  }

  /** The way back through the running products, last factor first. */
  method Unwind(m: Mont, ys: seq<nat>, c: seq<nat>, start: nat, ghost good: bool) returns (invs: seq<nat>)
    requires m.Ok() && ys != [] && |c| == |ys|
    requires forall i :: 0 <= i < |ys| ==> c[i] == m.Enc(Product(ys, i + 1))
    requires good ==> Inverts(m, start, Product(ys, |ys|))
    ensures |invs| == |ys| && forall i :: 0 <= i < |ys| ==> invs[i] < m.w
    ensures good ==> forall i :: 0 <= i < |ys| ==> Cong(invs[i] * ys[i], 1, m.w)
  {
    hide Cong, Inverts;
    var all, i := start, |ys| - 1;
    invs := [];
    while i > 0
      invariant 0 <= i < |ys| && |invs| == |ys| - 1 - i
      invariant good ==> Inverts(m, all, Product(ys, i + 1))
      invariant forall k :: 0 <= k < |invs| ==> invs[k] < m.w
      invariant good ==> forall k :: 0 <= k < |invs| ==> Cong(invs[k] * ys[i + 1 + k], 1, m.w)
    {
      var x := m.Times(all, c[i - 1]);
      EncIn(m, x);
      EncIn(m, ys[i]);
      if good { StepBack(m, all, Product(ys, i), ys[i]); }
      invs := [m.Times(x, m.RR())] + invs;
      all := m.Times(all, m.Times(ys[i], m.RR()));
      i := i - 1;
    }
    EncIn(m, all);
    assert Product(ys, 1) == ys[0] by { assert Product(ys, 0) == 1; }
    if good { FirstInverse(m, all, ys[0]); }
    invs := [m.Times(all, m.RR())] + invs;
  }

  /**
   ct_batch_invert_mont: one inversion for all; the flag is raised exactly when some
   number has no inverse modulo w, and otherwise every number gets its inverse.
   */
  method BatchInvert(m: Mont, width: nat, xs: seq<nat>) returns (invs: seq<nat>, composite: bool)
    requires m.Ok() && m.w > 1 && m.r == Pow2(width) && xs != []
    ensures |invs| == |xs| && forall i :: 0 <= i < |xs| ==> invs[i] < m.w
    ensures !composite <==> forall i :: 0 <= i < |xs| ==> Coprime(xs[i], m.w)
    ensures !composite ==> forall i :: 0 <= i < |xs| ==> Cong(invs[i] * xs[i], 1, m.w)
  {
    hide Cong, Coprime, Pow2, Product, IsGcd;
    var ys, zero := NonZero(xs);
    var c := Products(m, ys);
    var n := |ys|;
    var all, gcd := GcdInverse(c[n - 1], m.w, width);
    ghost var p := Product(ys, n);
    GcdOne(gcd, all, c[n - 1], m.w);
    CoprimeEnc(m, p);
    CoprimeProduct(ys, n, m.w);
    if gcd == 1 { UnitInverts(m, all, p); }
    composite := zero || gcd != 1;
    ZeroNotCoprime(m.w);
    invs := Unwind(m, ys, c, all, gcd == 1);
    assert zero ==> exists i :: 0 <= i < |xs| && xs[i] == 0 && !Coprime(xs[i], m.w);
  }

  lemma UnitInverts(m: Mont, all: nat, p: nat)
    requires m.Ok() && Cong(all * m.Enc(p), 1, m.w)
    ensures Inverts(m, all, p)
  {
    hide Cong;
    var w := m.w;
    EncMod(m, p);
    CongSym(m.Enc(p), p * m.r, w);
    CongRefl(all, w);
    CongMul(all, all, p * m.r, m.Enc(p), w);
    CongTrans(all * (p * m.r), all * m.Enc(p), 1, w);
  }

  // ---- random numbers in a range ----------------------------------------------------------------

  lemma ReduceStep(rand: nat, i: nat, n: nat, rest: nat, bit: nat)
    requires n > 0 && rest == rand / Pow2(i + 1) % n && bit == rand / Pow2(i) % 2
    ensures var x := 2 * rest + bit;
            x < 2 * n && rand / Pow2(i) % n == if x >= n then x - n else x
  {
    Prefix(rand, i);
    hide Pow2;
    var q := rand / Pow2(i + 1);
    var k := q / n;
    assert q == n * k + rest;
    var x := 2 * rest + bit;
    assert rand / Pow2(i) == x + n * (2 * k) by { assert 2 * (n * k) == n * (2 * k); }
    Shifted(x, 2 * k, n);
    if x >= n {
      Shifted(x - n, 1, n);
      SmallMod(x - n, n);
    } else {
      SmallMod(x, n);
    }
  }

  /**
   ct_random_in_range on the bits drawn: shifting them in one at a time, with at most
   one subtraction each, leaves the remainder; no register passes r.
   */
  method RandomInRange(rand: nat, bits: nat, n: nat, sub: nat, add: nat, r: nat) returns (out: nat)
    requires rand < Pow2(bits) && add <= sub < n < r
    ensures out == rand % (n - sub) + add < n
  {
    hide Pow2;
    var mod := n - sub;
    var rest, i := 0, bits;
    AllBits(rand, bits);
    SmallMod(0, mod);
    while i > 0
      invariant rest == rand / Pow2(i) % mod
    {
      i := i - 1;
      var bit := rand / Pow2(i) % 2;
      ReduceStep(rand, i, mod, rest, bit);
      var x := 2 * rest + bit;
      var carry := x >= r;
      var low := if carry then x - r else x;
      if carry || low >= mod {
        low := if low >= mod then low - mod else low - mod + r;
      }
      rest := low;
    }
    out := rest + add;
  }
}
