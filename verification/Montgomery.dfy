/**
 The fixed-depth ladders of crypto/bn/bn_prime.c in Montgomery form: powers
 modulo w, powers of p + sqrt(d), and the V sequence.
 */
module Montgomery {
  import opened Primes
  import opened QuadRing
  import opened LucasTheory

  /** A Montgomery context: the modulus, the power of the word size above it, and its inverse. */
  datatype Mont = Mont(w: nat, r: nat, rInv: nat) {
    ghost predicate Ok() {
      w % 2 == 1 && w < r && Cong(r * rInv, 1, w)
    }

    function RR(): nat
      requires w > 0
    {
      r * r % w
    }

    /** bn_mul_mont */
    function Times(x: nat, y: nat): (z: nat)
      requires w > 0
      ensures z < w
    {
      x * y * rInv % w
    }

    /** The Montgomery form of a number. */
    ghost function Enc(x: int): (z: nat)
      requires w > 0
      ensures z < w
    {
      x * r % w
    }

    /** ct_mod_add on registers below r: the sum, less w when it carries or reaches w. */
    function Plus(x: nat, y: nat): (z: nat)
      requires r > 0
    {
      if x + y >= r || x + y >= w then (x + y - w) % r else x + y
    }

    /** ct_mod_sub on registers below r: the difference, plus w when it borrows. */
    function Minus(x: nat, y: nat): (z: nat)
      requires r > 0
    {
      if x >= y then x - y else (x - y + w) % r
    }
  }

  // ---- Montgomery arithmetic ------------------------------------------------------------

  lemma SmallMod(x: int, n: nat)
    requires 0 <= x < n
    ensures x % n == x
  {
  }

  lemma PlusIs(m: Mont, x: nat, y: nat)
    requires m.Ok() && x < m.w && y < m.w
    ensures m.Plus(x, y) == (x + y) % m.w < m.w
  {
    hide Cong;
    var s := x + y;
    if s >= m.w {
      SmallMod(s - m.w, m.r);
      SmallMod(s - m.w, m.w);
      Shifted(s - m.w, 1, m.w);
    } else {
      SmallMod(s, m.w);
    }
  }

  lemma MinusIs(m: Mont, x: nat, y: nat)
    requires m.Ok() && x < m.w && y < m.w
    ensures m.Minus(x, y) == (x - y) % m.w < m.w
  {
    hide Cong;
    if x >= y {
      SmallMod(x - y, m.w);
    } else {
      SmallMod(x - y + m.w, m.r);
      SmallMod(x - y + m.w, m.w);
      Shifted(x - y, 1, m.w);
    }
  }

  lemma Shifted(x: int, k: int, n: nat)
    requires n > 0
    ensures (x + n * k) % n == x % n
  {
    hide Div;
    DivBy(n, k);
    assert x + n * k - x == n * k;
    CongSame(x + n * k, x, n);
  }

  lemma EncMod(m: Mont, x: int)
    requires m.w > 0
    ensures Cong(m.Enc(x), x * m.r, m.w)
  {
    hide Cong;
    CongMod(x * m.r, m.w);
  }

  lemma EncCong(m: Mont, x: int, y: int)
    requires m.w > 0 && Cong(x, y, m.w)
    ensures m.Enc(x) == m.Enc(y)
  {
    hide Cong;
    CongRefl(m.r, m.w);
    CongMul(x, y, m.r, m.r, m.w);
    CongSame(x * m.r, y * m.r, m.w);
  }

  /** A product with one factor r cancelled. */
  lemma Cancelled(m: Mont, x: int, y: int, z: int)
    requires m.Ok() && Cong(x, z * m.r, m.w)
    ensures Cong(x * y * m.rInv, z * y, m.w)
  {
    hide Cong;
    var w := m.w;
    CongRefl(y * m.rInv, w);
    CongMul(x, z * m.r, y * m.rInv, y * m.rInv, w);
    CongRefl(z * y, w);
    CongMul(z * y, z * y, m.r * m.rInv, 1, w);
    FourWays(x, y, z, m.r, m.rInv);
    CongTrans(x * y * m.rInv, z * y * (m.r * m.rInv), z * y, w);
  }

  lemma FourWays(x: int, y: int, z: int, r: int, s: int)
    ensures x * (y * s) == x * y * s
    ensures z * r * (y * s) == z * y * (r * s)
    ensures z * y * 1 == z * y
  {
    assert z * r * (y * s) == z * (r * (y * s));
    assert r * (y * s) == y * (r * s);
  }

  /** Multiplying two Montgomery forms. */
  lemma EncTimes(m: Mont, x: int, y: int)
    requires m.Ok()
    ensures m.Times(m.Enc(x), m.Enc(y)) == m.Enc(x * y)
  {
    hide Cong;
    var w := m.w;
    EncMod(m, x);
    EncMod(m, y);
    Cancelled(m, m.Enc(x), m.Enc(y), x);
    CongRefl(x, w);
    CongMul(x, x, m.Enc(y), y * m.r, w);
    assert x * (y * m.r) == x * y * m.r;
    CongTrans(m.Enc(x) * m.Enc(y) * m.rInv, x * m.Enc(y), x * y * m.r, w);
    CongSame(m.Enc(x) * m.Enc(y) * m.rInv, x * y * m.r, w);
  }

  /** Multiplying by RR enters the form. */
  lemma EncIn(m: Mont, x: nat)
    requires m.Ok()
    ensures m.Times(x, m.RR()) == m.Enc(x) == m.Times(m.RR(), x)
  {
    hide Cong;
    var w := m.w;
    CongMod(m.r * m.r, w);
    Cancelled(m, m.RR(), x, m.r);
    assert m.RR() * x == x * m.RR() && m.r * x == x * m.r;
    CongSame(x * m.RR() * m.rInv, x * m.r, w);
  }

  /** Multiplying by one leaves the form. */
  lemma EncOut(m: Mont, x: int)
    requires m.Ok()
    ensures m.Times(m.Enc(x), 1) == x % m.w
  {
    hide Cong;
    EncMod(m, x);
    Cancelled(m, m.Enc(x), 1, x);
    assert x * 1 == x;
    CongSame(m.Enc(x) * 1 * m.rInv, x, m.w);
  }

  lemma EncPlus(m: Mont, x: int, y: int)
    requires m.Ok()
    ensures m.Plus(m.Enc(x), m.Enc(y)) == m.Enc(x + y)
    ensures m.Minus(m.Enc(x), m.Enc(y)) == m.Enc(x - y)
  {
    hide Cong;
    var w := m.w;
    EncMod(m, x);
    EncMod(m, y);
    CongAdd(m.Enc(x), x * m.r, m.Enc(y), y * m.r, w);
    SumTimes(x, y, m.r);
    SumTimes(x, -y, m.r);
    assert (x - y) * m.r == x * m.r - y * m.r;
    CongSame(m.Enc(x) + m.Enc(y), (x + y) * m.r, w);
    CongSame(m.Enc(x) - m.Enc(y), (x - y) * m.r, w);
    PlusIs(m, m.Enc(x), m.Enc(y));
    MinusIs(m, m.Enc(x), m.Enc(y));
  }

  /** Every odd modulus has a context. */
  lemma ContextExists(w: nat, width: nat) returns (m: Mont)
    requires w % 2 == 1 && w < Pow2(width)
    ensures m.Ok() && m.w == w && m.r == Pow2(width)
  {
    var h := (w + 1) / 2;
    assert 2 * h == w + 1;
    hide Cong;
    HalfInverts(w, h);
    TwoInverts(w, h, width);
    m := Mont(w, Pow2(width), Pow(h, width));
  }

  lemma HalfInverts(w: nat, h: nat)
    requires w > 0 && 2 * h == w + 1
    ensures Cong(2 * h, 1, w)
  {
    DivBy(w, 1);
  }

  lemma {:induction false} TwoInverts(w: nat, h: nat, k: nat)
    requires w > 0 && Cong(2 * h, 1, w)
    ensures Pow(h, k) >= 0 && Cong(Pow2(k) * Pow(h, k), 1, w)
    decreases k
  {
    hide Cong;
    if k == 0 {
      CongRefl(1, w);
    } else {
      TwoInverts(w, h, k - 1);
      var p, q := Pow2(k - 1), Pow(h, k - 1);
      CongMul(2 * h, 1, p * q, 1, w);
      assert 2 * h * (p * q) == 2 * p * (h * q);
      assert h * q >= 0;
    }
  }

  // ---- bits -----------------------------------------------------------------------------

  function Pow2(n: nat): (p: nat)
    ensures p > 0
  {
    if n == 0 then 1 else 2 * Pow2(n - 1)
  }

  /** BN_num_bits */
  function NumBits(w: nat): nat {
    if w == 0 then 0 else 1 + NumBits(w / 2)
  }

  lemma {:induction false} NumBitsIs(w: nat)
    ensures w < Pow2(NumBits(w)) && (w > 0 ==> Pow2(NumBits(w) - 1) <= w)
    decreases w
  {
    if w > 0 { NumBitsIs(w / 2); }
  }

  /** One bit more of e. */
  lemma Prefix(e: nat, i: nat)
    ensures e / Pow2(i) == 2 * (e / Pow2(i + 1)) + e / Pow2(i) % 2
  {
    var p := Pow2(i);
    assert Pow2(i + 1) == 2 * p;
    HalveQuotient(e, p);
  }

  lemma HalveQuotient(e: nat, p: nat)
    requires p > 0
    ensures e / (2 * p) == e / p / 2
  {
    var q := e / p;
    var r := e - p * q;
    assert e == p * q + r && 0 <= r < p;
    var k, s := q / 2, q % 2;
    assert q == 2 * k + s;
    assert p * q == 2 * p * k + p * s by {
      Distribute(p, 2 * k, s);
      assert p * (2 * k) == 2 * p * k;
    }
    var rest := p * s + r;
    assert 0 <= rest < 2 * p by { assert s == 0 || s == 1; }
    QuotientIs(e, 2 * p, k, rest);
  }

  lemma QuotientIs(e: nat, n: nat, k: nat, rest: nat)
    requires n > 0 && e == n * k + rest && rest < n
    ensures e / n == k && e % n == rest
  {
    hide Div;
    Shifted(rest, k, n);
    SmallMod(rest, n);
    var q := e / n;
    assert e == n * q + rest;
    Distribute(n, q, k);
    Distribute(n, k, q);
    if q - k >= 1 { AtLeast(n, q - k); }
    if k - q >= 1 { AtLeast(n, k - q); }
  }

  lemma AllBits(e: nat, n: nat)
    requires e < Pow2(n)
    ensures e / Pow2(n) == 0 && e / Pow2(0) == e
  {
    SmallQuotient(e, Pow2(n));
    assert Pow2(0) == 1;
  }

  lemma SmallQuotient(e: nat, n: nat)
    requires e < n
    ensures e / n == 0
  {
    QuotientIs(e, n, 0, e);
  }

  // ---- the ladder for powers --------------------------------------------------------------

  /** What the registers of a ladder hold. */
  ghost predicate Rungs(m: Mont, a: int, k: nat, r0: nat, r1: nat)
    requires m.w > 0
  {
    r0 == m.Enc(Pow(a, k)) && r1 == m.Enc(Pow(a, k + 1))
  }

  /** One rung: with the registers swapped on a one bit, one product and one square. */
  method PowRung(m: Mont, ghost a: int, ghost k: nat, r0: nat, r1: nat, bit: nat) returns (s0: nat, s1: nat)
    requires m.Ok() && bit < 2 && Rungs(m, a, k, r0, r1)
    ensures Rungs(m, a, 2 * k + bit, s0, s1)
  {
    hide Cong, Pow;
    var x, y := if bit == 1 then r1 else r0, if bit == 1 then r0 else r1;
    ghost var j, l := if bit == 1 then k + 1 else k, if bit == 1 then k else k + 1;
    s1 := m.Times(x, y);
    s0 := m.Times(x, x);
    EncTimes(m, Pow(a, j), Pow(a, l));
    EncTimes(m, Pow(a, j), Pow(a, j));
    PowAdd(a, j, l);
    PowAdd(a, j, j);
    if bit == 1 { s0, s1 := s1, s0; }
  }

  lemma RungsStart(m: Mont, a: int)
    requires m.w > 0
    ensures Rungs(m, a, 0, m.Enc(1), m.Enc(a))
  {
    assert Pow(a, 0) == 1 && Pow(a, 1) == a;
  }

  /** ct_mod_exp_mont_ladder */
  method ModExp(m: Mont, a: nat, e: nat) returns (x: nat)
    requires m.Ok()
    ensures x == Pow(a, e) % m.w
  {
    hide Cong, Pow, Pow2, NumBits, Rungs;
    var r0, r1 := m.Times(1, m.RR()), m.Times(a, m.RR());
    EncIn(m, 1);
    EncIn(m, a);
    RungsStart(m, a);
    var i := NumBits(e);
    NumBitsIs(e);
    AllBits(e, i);
    while i > 0
      invariant Rungs(m, a, e / Pow2(i), r0, r1)
    {
      i := i - 1;
      Prefix(e, i);
      r0, r1 := PowRung(m, a, e / Pow2(i + 1), r0, r1, e / Pow2(i) % 2);
    }
    RungsEnd(m, a, e / Pow2(0), r0, r1);
    AllBits(e, NumBits(e));
    x := m.Times(r0, 1);
  }

  lemma RungsEnd(m: Mont, a: int, k: nat, r0: nat, r1: nat)
    requires m.Ok() && Rungs(m, a, k, r0, r1)
    ensures m.Times(r0, 1) == Pow(a, k) % m.w
  {
    hide Cong, Pow;
    EncOut(m, Pow(a, k));
  }

  // ---- the ladder for p + sqrt(d) -----------------------------------------------------------

  /** A register pair that holds a ring element. */
  ghost predicate Holds(m: Mont, reg: (nat, nat), q: Quad)
    requires m.w > 0
  {
    reg.0 == m.Enc(q.a) && reg.1 == m.Enc(q.b)
  }

  /** The product with three multiplications. */
  method RingTimes(m: Mont, dMont: nat, ghost d: int, x: (nat, nat), y: (nat, nat), ghost p: Quad, ghost q: Quad)
    returns (z: (nat, nat))
    requires m.Ok() && dMont == m.Enc(d) && Holds(m, x, p) && Holds(m, y, q)
    ensures Holds(m, z, Mul(p, q, d))
  {
    hide Cong;
    var m1 := m.Plus(x.0, x.1);
    var m2 := m.Plus(y.0, y.1);
    EncPlus(m, p.a, p.b);
    EncPlus(m, q.a, q.b);
    var m3 := m.Times(m1, m2);
    EncTimes(m, p.a + p.b, q.a + q.b);
    m1 := m.Times(x.0, y.0);
    EncTimes(m, p.a, q.a);
    m2 := m.Times(x.1, y.1);
    EncTimes(m, p.b, q.b);
    var t := m.Times(m2, dMont);
    EncTimes(m, p.b * q.b, d);
    var za := m.Plus(m1, t);
    EncPlus(m, p.a * q.a, p.b * q.b * d);
    var zb := m.Minus(m3, m1);
    EncPlus(m, (p.a + p.b) * (q.a + q.b), p.a * q.a);
    zb := m.Minus(zb, m2);
    EncPlus(m, (p.a + p.b) * (q.a + q.b) - p.a * q.a, p.b * q.b);
    Karatsuba(p, q);
    z := (za, zb);
  }

  lemma Karatsuba(p: Quad, q: Quad)
    ensures (p.a + p.b) * (q.a + q.b) - p.a * q.a - p.b * q.b == p.a * q.b + p.b * q.a
  {
    SumTimes(p.a, p.b, q.a + q.b);
    Distribute(p.a, q.a, q.b);
    Distribute(p.b, q.a, q.b);
  }

  method RingSquare(m: Mont, dMont: nat, ghost d: int, x: (nat, nat), ghost p: Quad) returns (z: (nat, nat))
    requires m.Ok() && dMont == m.Enc(d) && Holds(m, x, p)
    ensures Holds(m, z, Mul(p, p, d))
  {
    hide Cong;
    var m3 := m.Times(x.0, x.1);
    EncTimes(m, p.a, p.b);
    var m1 := m.Times(x.0, x.0);
    EncTimes(m, p.a, p.a);
    var m2 := m.Times(x.1, x.1);
    EncTimes(m, p.b, p.b);
    var t := m.Times(m2, dMont);
    EncTimes(m, p.b * p.b, d);
    var za := m.Plus(m1, t);
    EncPlus(m, p.a * p.a, p.b * p.b * d);
    var zb := m.Plus(m3, m3);
    EncPlus(m, p.a * p.b, p.a * p.b);
    z := (za, zb);
  }

  method RingRung(m: Mont, dMont: nat, ghost d: int, ghost x: Quad, ghost k: nat,
                  r0: (nat, nat), r1: (nat, nat), bit: nat)
    returns (s0: (nat, nat), s1: (nat, nat))
    requires m.Ok() && dMont == m.Enc(d) && bit < 2
    requires Holds(m, r0, QPow(x, k, d)) && Holds(m, r1, QPow(x, k + 1, d))
    ensures Holds(m, s0, QPow(x, 2 * k + bit, d)) && Holds(m, s1, QPow(x, 2 * k + bit + 1, d))
  {
    hide Cong, QPow, Mul, Holds;
    ghost var j, l := if bit == 1 then k + 1 else k, if bit == 1 then k else k + 1;
    var y0, y1 := if bit == 1 then r1 else r0, if bit == 1 then r0 else r1;
    s1 := RingTimes(m, dMont, d, y0, y1, QPow(x, j, d), QPow(x, l, d));
    s0 := RingSquare(m, dMont, d, y0, QPow(x, j, d));
    QPowAdd(x, j, l, d);
    QPowAdd(x, j, j, d);
    if bit == 1 { s0, s1 := s1, s0; }
  }

  lemma RingStart(m: Mont, p: nat, d: int)
    requires m.Ok()
    ensures Holds(m, (m.Enc(1), m.Minus(m.Enc(1), m.Enc(1))), QPow(Quad(p, 1), 0, d))
    ensures Holds(m, (m.Enc(p), m.Enc(1)), QPow(Quad(p, 1), 1, d))
  {
    hide Cong;
    EncPlus(m, 1, 1);
    MulOne(Quad(p, 1), d);
    assert QPow(Quad(p, 1), 1, d) == Mul(Quad(p, 1), QPow(Quad(p, 1), 0, d), d);
  }

  /** The extension ring ladder: exactly `bits` rungs give both parts of (p + sqrt(d))^e. */
  method RingLadder(m: Mont, p: nat, d: nat, e: nat, bits: nat) returns (a: nat, b: nat)
    requires m.Ok() && e < Pow2(bits)
    ensures a == QPow(Quad(p, 1), e, d).a % m.w && b == QPow(Quad(p, 1), e, d).b % m.w
  {
    hide Cong, QPow, Pow2, Holds;
    var one, dMont := m.Times(1, m.RR()), m.Times(d, m.RR());
    EncIn(m, 1);
    EncIn(m, d);
    EncIn(m, p);
    ghost var x := Quad(p, 1);
    var r1 := (m.Times(p, m.RR()), one);
    var r0 := (one, m.Minus(one, one));
    RingStart(m, p, d);
    AllBits(e, bits);
    var j := bits;
    while j > 0
      invariant Holds(m, r0, QPow(x, e / Pow2(j), d)) && Holds(m, r1, QPow(x, e / Pow2(j) + 1, d))
    {
      j := j - 1;
      Prefix(e, j);
      r0, r1 := RingRung(m, dMont, d, x, e / Pow2(j + 1), r0, r1, e / Pow2(j) % 2);
    }
    RingEnd(m, r0, QPow(x, e, d));
    a, b := m.Times(r0.0, 1), m.Times(r0.1, 1);
  }

  lemma RingEnd(m: Mont, reg: (nat, nat), q: Quad)
    requires m.Ok() && Holds(m, reg, q)
    ensures m.Times(reg.0, 1) == q.a % m.w && m.Times(reg.1, 1) == q.b % m.w
  {
    hide Cong;
    EncOut(m, q.a);
    EncOut(m, q.b);
  }

  // ---- the ladder for the V sequence ----------------------------------------------------------

  ghost predicate Traces(m: Mont, c: int, k: nat, r0: nat, r1: nat)
    requires m.w > 0
  {
    r0 == m.Enc(V(c, k)) && r1 == m.Enc(V(c, k + 1))
  }

  method TraceRung(m: Mont, cMont: nat, two: nat, ghost c: int, ghost k: nat, r0: nat, r1: nat, bit: nat)
    returns (s0: nat, s1: nat)
    requires m.Ok() && cMont == m.Enc(c) && two == m.Enc(2) && bit < 2 && Traces(m, c, k, r0, r1)
    ensures Traces(m, c, 2 * k + bit, s0, s1)
  {
    hide Cong, V;
    var x, y := if bit == 1 then r1 else r0, if bit == 1 then r0 else r1;
    ghost var j, l := if bit == 1 then k + 1 else k, if bit == 1 then k else k + 1;
    var m1 := m.Times(x, y);
    EncTimes(m, V(c, j), V(c, l));
    s1 := m.Minus(m1, cMont);
    EncPlus(m, V(c, j) * V(c, l), c);
    var m2 := m.Times(x, x);
    EncTimes(m, V(c, j), V(c, j));
    s0 := m.Minus(m2, two);
    EncPlus(m, V(c, j) * V(c, j), 2);
    VSteps(c, k);
    if bit == 1 {
      assert V(c, j) * V(c, l) == V(c, l) * V(c, j);
      s0, s1 := s1, s0;
    }
  }

  lemma TraceStart(m: Mont, c: int)
    requires m.w > 0
    ensures Traces(m, c, 0, m.Enc(2), m.Enc(c))
  {
    assert V(c, 0) == 2 && V(c, 1) == c;
  }

  /** The trace ladder: exactly `bits` rungs give V(e). */
  method TraceLadder(m: Mont, c: nat, e: nat, bits: nat) returns (v: nat)
    requires m.Ok() && e < Pow2(bits)
    ensures v == V(c, e) % m.w
  {
    hide Cong, V, Pow2, Traces;
    var cMont, two := m.Times(c, m.RR()), m.Times(2, m.RR());
    EncIn(m, c);
    EncIn(m, 2);
    var r0, r1 := two, cMont;
    TraceStart(m, c);
    AllBits(e, bits);
    var j := bits;
    while j > 0
      invariant Traces(m, c, e / Pow2(j), r0, r1)
    {
      j := j - 1;
      Prefix(e, j);
      r0, r1 := TraceRung(m, cMont, two, c, e / Pow2(j + 1), r0, r1, e / Pow2(j) % 2);
    }
    TraceEnd(m, c, e, r0, r1);
    v := m.Times(r0, 1);
  }

  lemma TraceEnd(m: Mont, c: int, k: nat, r0: nat, r1: nat)
    requires m.Ok() && Traces(m, c, k, r0, r1)
    ensures m.Times(r0, 1) == V(c, k) % m.w
  {
    hide Cong, V;
    EncOut(m, V(c, k));
  }

  /** The depth of the ladders: one bit less than the modulus is enough for the exponent. */
  lemma Depth(w: nat)
    requires w % 2 == 1 && w > 1
    ensures NumBits(w) >= 2 && Exponent(w) < Pow2(NumBits(w) - 1)
  {
    NumBitsIs(w);
    var n := NumBits(w);
    DepthArith(w, n);
  }

  lemma DepthArith(w: nat, n: nat)
    requires w % 2 == 1 && w > 1 && n > 0 && w < Pow2(n)
    ensures n >= 2 && Exponent(w) < Pow2(n - 1)
  {
    assert Pow2(1) == 2;
    var h := Pow2(n - 1);
    assert Pow2(n) == 2 * h;
    if w % 4 != 3 {
      OddMod4(w);
      EvenPower(n);
      if w == 2 * h - 1 { AllOnes(w, h / 2); }
    }
  }

  lemma EvenPower(n: nat)
    requires n >= 2
    ensures Pow2(n - 1) % 2 == 0
  {
    assert Pow2(n - 1) == 2 * Pow2(n - 2);
  }

  lemma AllOnes(w: nat, k: nat)
    requires k >= 1 && w == 4 * k - 1
    ensures w % 4 == 3
  {
    Mod4(w, k - 1, 3);
  }
}
