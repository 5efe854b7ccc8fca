/**
 The fixed-depth Lucas tests of crypto/bn/bn_prime.c, and what they answer
 for primes and squares.
 */
module LucasTests {
  import opened Primes
  import opened QuadRing
  import opened LucasTheory
  import opened Montgomery
  import opened CtGcd
  import opened JacobiSymbol
  import opened JacobiRoutine
  import DivBound

  datatype Status = Composite | ProbablyPrime

  const SMALL_PRIMES: seq<nat> := [
    3, 5, 7, 11, 13, 17, 19, 23, 29, 31,
    37, 41, 43, 47, 53, 59, 61, 67, 71, 73,
    79, 83, 89, 97, 101, 103, 107, 109, 113, 127,
    131, 137, 139, 149, 151, 157, 163, 167, 173, 179
  ]

  // ---- the search for d -------------------------------------------------------------------

  /** The first candidate with the symbol wanted, by the answers of the symbol routine. */
  ghost function Search(cands: seq<nat>, w: nat): (r: (bool, nat))
    ensures r.0 <==> exists k :: 0 <= k < |cands| && Answer(cands[k], w) == Target(w)
    ensures if r.0 then r.1 in cands && Answer(r.1, w) == Target(w) else r.1 == 0
  {
    if cands == [] then (false, 0)
    else
      var n := |cands| - 1;
      var before := Search(cands[..n], w);
      if before.0 then before
      else if Answer(cands[n], w) == Target(w) then (true, cands[n])
      else (false, 0)
  }

  lemma {:induction false} SearchFirst(cands: seq<nat>, w: nat, k: nat)
    requires k < |cands| && Answer(cands[k], w) == Target(w)
    requires forall j :: 0 <= j < k ==> Answer(cands[j], w) != Target(w)
    ensures Search(cands, w) == (true, cands[k])
    decreases |cands|
  {
    hide Answer, Target;
    var n := |cands| - 1;
    if k < n {
      SearchFirst(cands[..n], w, k);
    }
  }

  /** The search loop: every candidate is looked at, the first match is kept. */
  method FindD(w: nat, cands: seq<nat>) returns (found: bool, d: nat)
    ensures (found, d) == Search(cands, w)
  {
    hide Answer;
    found, d := false, 0;
    assert cands[..0] == [];
    for k := 0 to |cands|
      invariant (found, d) == Search(cands[..k], w)
    {
      assert cands[..k + 1][..k] == cands[..k];
      var j := JacobiBy(cands[k], w);
      var update := j == Target(w) && !found;
      if update { d := cands[k]; }
      found := found || update;
    }
    assert cands[..|cands|] == cands;
  }

  /** Looking further when the first candidates gave no d. */
  lemma {:induction false} SearchOn(a: seq<nat>, b: seq<nat>, w: nat)
    ensures Search(a + b, w) == if Search(a, w).0 then Search(a, w) else Search(b, w)
    decreases |b|
  {
    hide Answer;
    if b == [] {
      assert a + b == a;
    } else {
      var n := |b| - 1;
      assert (a + b)[..|a + b| - 1] == a + b[..n];
      SearchOn(a, b[..n], w);
    }
  }

  /** Over a positive modulus that fits, the answer is the Jacobi symbol. */
  lemma AnswerIs(a: nat, w: nat)
    requires w % 2 == 1
    ensures Answer(a, w) == if Fits(w) && (Fits(a) || w == 1) then Jacobi(a, w) else 0
  {
    hide Fits, Jacobi;
  }

  /** Candidates as the tests have them: drawn below w, or from the list. */
  predicate Drawn(cands: seq<nat>, w: nat) {
    forall k :: 0 <= k < |cands| ==> cands[k] < w || cands[k] <= 179
  }

  lemma {:induction false} NumBitsMono(a: nat, b: nat)
    requires a <= b
    ensures NumBits(a) <= NumBits(b)
    decreases b
  {
    if a > 0 { NumBitsMono(a / 2, b / 2); }
  }

  lemma DrawnFits(c: nat, w: nat)
    requires Fits(w) && (c < w || c <= 179)
    ensures Fits(c)
  {
    assert NumBits(179) <= INPUT_BITS by { EightBits(); }
    hide NumBits;
    if c < w { NumBitsMono(c, w); } else { NumBitsMono(c, 179); }
  }

  lemma EightBits()
    ensures NumBits(179) == 8
  {
    assert NumBits(11) == 4;
  }

  /** A candidate is found if and only if w fits and one of them has the wanted Jacobi symbol. */
  lemma FoundIff(w: nat, cands: seq<nat>)
    requires w % 2 == 1 && Drawn(cands, w)
    ensures Search(cands, w).0
       <==> Fits(w) && exists k :: 0 <= k < |cands| && Jacobi(cands[k], w) == Target(w)
  {
    hide Search, Jacobi, Fits;
    forall k | 0 <= k < |cands|
      ensures Answer(cands[k], w) == if Fits(w) then Jacobi(cands[k], w) else 0
    {
      AnswerIs(cands[k], w);
      if Fits(w) { DrawnFits(cands[k], w); }
    }
    hide Answer;
  }

  /** The symbol that was found. */
  lemma FoundSymbol(w: nat, d: nat)
    requires w % 2 == 1 && Answer(d, w) == Target(w)
    ensures Fits(w) && Jacobi(d, w) == Target(w)
  {
    hide Fits, Jacobi;
    AnswerIs(d, w);
  }

  /** A modulus of more than 2048 bits is read as zero: every answer is 0, and nothing is found. */
  lemma LongFindsNothing(w: nat, cands: seq<nat>)
    requires !Fits(w)
    ensures Search(cands, w) == (false, 0)
  {
    hide Search, Fits;
    assert forall k :: 0 <= k < |cands| ==> Answer(cands[k], w) == 0;
  }

  // ---- strong rounds ------------------------------------------------------------------------

  method StrongRounds(m: Mont, d: nat, ps: seq<nat>) returns (pass: bool)
    requires m.Ok() && m.w > 1
    ensures pass <==> forall i :: 0 <= i < |ps| ==> StrongHolds(m.w, d, ps[i])
  {
    hide Cong, QPow, Pow2, NumBits, Exponent;
    var e, bits := Exponent(m.w), NumBits(m.w) - 1;
    Depth(m.w);
    pass := true;
    for i := 0 to |ps|
      invariant pass <==> forall k :: 0 <= k < i ==> StrongHolds(m.w, d, ps[k])
    {
      var a, b := RingLadder(m, ps[i], d, e, bits);
      var good := a == 0 || b == 0;
      assert good == StrongHolds(m.w, d, ps[i]);
      pass := pass && good;
    }
  }

  // ---- trace rounds ---------------------------------------------------------------------------

  /** p^2 modulo w, through the Montgomery form. */
  method SquareOf(m: Mont, p: nat) returns (s: nat)
    requires m.Ok()
    ensures s == p * p % m.w
  {
    hide Cong;
    var x := m.Times(p, m.RR());
    EncIn(m, p);
    x := m.Times(x, x);
    EncTimes(m, p, p);
    s := m.Times(x, 1);
    EncOut(m, p * p);
  }

  /** What ct_mod_sub leaves in the register for p^2 - d. */
  function NormRegister(m: Mont, d: nat, p: nat): nat
    requires m.w > 0 && m.r > 0
  {
    m.Minus(p * p % m.w, d)
  }

  /** The difference does not leave its range: d is at most w above p^2 modulo w. */
  predicate Within(m: Mont, d: nat, p: nat)
    requires m.w > 0
  {
    d <= p * p % m.w + m.w
  }

  /** The numbers to invert, p^2 - d as far as the register holds it. */
  method Norms(m: Mont, d: nat, ps: seq<nat>) returns (xs: seq<nat>)
    requires m.Ok()
    ensures |xs| == |ps| && forall i :: 0 <= i < |ps| ==> xs[i] == NormRegister(m, d, ps[i])
  {
    hide Cong;
    xs := [];
    for k := 0 to |ps|
      invariant |xs| == k && forall i :: 0 <= i < k ==> xs[i] == NormRegister(m, d, ps[i])
    {
      var s := SquareOf(m, ps[k]);
      xs := xs + [m.Minus(s, d)];
    }
  }

  lemma SumOfSquare(p: nat, d: int, w: nat)
    requires w > 0
    ensures Cong(p * p % w + d, p * p + d, w)
  {
    hide Cong;
    CongMod(p * p, w);
    CongRefl(d, w);
    CongAdd(p * p % w, p * p, d, d, w);
  }

  lemma PlusAway(m: Mont, s: nat, d: nat)
    requires m.Ok() && s < m.w && d < m.r
    ensures Cong(m.Plus(s, d), s + d, m.w)
  {
    hide Cong;
    var w := m.w;
    if s + d >= m.r || s + d >= w {
      SmallMod(s + d - w, m.r);
      AddModulus(s + d - w, w);
      CongSym(s + d, s + d - w, w);
    } else {
      CongRefl(s + d, w);
    }
  }

  /** The sum is always the sum, whatever d is. */
  lemma SumIs(m: Mont, p: nat, d: nat)
    requires m.Ok() && d < m.r
    ensures Cong(m.Plus(p * p % m.w, d), p * p + d, m.w)
  {
    hide Cong;
    var s := p * p % m.w;
    PlusAway(m, s, d);
    SumOfSquare(p, d, m.w);
    CongTrans(m.Plus(s, d), s + d, p * p + d, m.w);
  }

  /** The register holds p^2 - d modulo w exactly when the difference stays within its range. */
  lemma NormIs(m: Mont, p: nat, d: nat)
    requires m.Ok() && m.w > 1 && d < m.r
    ensures Cong(NormRegister(m, d, p), Delta(p, d), m.w) <==> Within(m, d, p)
  {
    hide Cong;
    var w, s := m.w, p * p % m.w;
    var x, n := NormRegister(m, d, p), s - d;
    SumOfSquare(p, 0 - d, w);
    assert Cong(n, Delta(p, d), w);
    CongSym(n, Delta(p, d), w);
    if s >= d {
    } else if Within(m, d, p) {
      SmallMod(n + w, m.r);
      AddModulus(n, w);
      CongTrans(x, n, Delta(p, d), w);
    } else {
      Borrowed(n + w, m.r);
      AddModulus(n, w);
      if Cong(x, Delta(p, d), w) {
        CongTrans(x, Delta(p, d), n, w);
        CongSym(n + w, n, w);
        CongTrans(x, n, n + w, w);
        RadixIsUnit(m, n + w);
        assert false;
      }
    }
  }

  lemma Borrowed(x: int, r: nat)
    requires -(r as int) < x < 0
    ensures x % r == x + r
  {
    Shifted(x, 1, r);
    SmallMod(x + r, r);
  }

  lemma AddModulus(x: int, w: nat)
    requires w > 0
    ensures Cong(x + w, x, w)
  {
    DivBy(w, 1);
    assert x + w - x == w * 1;
  }

  lemma RadixIsUnit(m: Mont, x: int)
    requires m.Ok() && m.w > 1
    ensures !Cong(x + m.r, x, m.w)
  {
    assert x + m.r - x == m.r - 0;
    if Cong(m.r, 0, m.w) {
      hide Cong;
      ZeroNotCoprime(m.w);
      assert Coprime(m.r, m.w);
      CongSym(m.r, 0, m.w);
      CoprimeCong(0, m.r, m.w);
      assert false;
    }
  }

  /** The registers' value of 2 (p^2 + d) times the inverse. */
  function InitialOf(m: Mont, d: nat, p: nat, inv: nat): nat
    requires m.w > 0 && m.r > 0
  {
    var z := m.Plus(p * p % m.w, d) * inv % m.w;
    m.Plus(z, z)
  }

  /** Whether the V sequence from there gives 2 or w - 2. */
  predicate TraceAnswer(m: Mont, d: nat, p: nat, inv: nat)
    requires m.w > 0 && m.r > 0
  {
    var v := V(InitialOf(m, d, p, inv), Exponent(m.w)) % m.w;
    v == 2 || v == m.w - 2
  }

  /** A trace round passes: the register can be inverted, and the sequence from its inverse ends well. */
  ghost predicate TracePasses(m: Mont, d: nat, p: nat)
    requires m.w > 0 && m.r > 0
  {
    exists inv: nat :: inv < m.w && Cong(inv * NormRegister(m, d, p), 1, m.w) && TraceAnswer(m, d, p, inv)
  }

  /** The initial value of the V sequence: 2 (p^2 + d) times the inverse. */
  method Initial(m: Mont, d: nat, p: nat, inv: nat) returns (c: nat)
    requires m.Ok() && inv < m.w
    ensures c == InitialOf(m, d, p, inv)
  {
    hide Cong;
    var s := SquareOf(m, p);
    var sum := m.Plus(s, d);
    var x, y := m.Times(sum, m.RR()), m.Times(inv, m.RR());
    EncIn(m, sum);
    EncIn(m, inv);
    var z := m.Times(x, y);
    EncTimes(m, sum, inv);
    z := m.Times(z, 1);
    EncOut(m, sum * inv);
    c := m.Plus(z, z);
  }

  lemma InitialIs(m: Mont, d: nat, p: nat, inv: nat)
    requires m.Ok() && d < m.r && inv < m.w
    ensures Cong(InitialOf(m, d, p, inv), 2 * (p * p + d) * inv, m.w)
  {
    hide Cong;
    var sum := m.Plus(p * p % m.w, d);
    var z := sum * inv % m.w;
    SumIs(m, p, d);
    PlusIs(m, z, z);
    Doubled(m.w, z, sum, inv, p * p + d, m.Plus(z, z));
  }

  lemma Doubled(w: nat, z: nat, sum: nat, inv: nat, t: int, c: nat)
    requires w > 0 && z == sum * inv % w && Cong(sum, t, w) && c == (z + z) % w
    ensures Cong(c, 2 * t * inv, w)
  {
    hide Cong;
    CongMod(sum * inv, w);
    CongRefl(inv, w);
    CongMul(sum, t, inv, inv, w);
    CongTrans(z, sum * inv, t * inv, w);
    CongAdd(z, t * inv, z, t * inv, w);
    CongMod(z + z, w);
    CongTrans(c, z + z, t * inv + t * inv, w);
    assert t * inv + t * inv == 2 * t * inv;
  }

  /** One trace round. */
  method TraceRound(m: Mont, d: nat, p: nat, inv: nat) returns (pass: bool)
    requires m.Ok() && m.w > 2 && inv < m.w
    ensures pass == TraceAnswer(m, d, p, inv)
  {
    hide Cong, V, Pow2, NumBits, InitialOf;
    var e, bits := Exponent(m.w), NumBits(m.w) - 1;
    Depth(m.w);
    var c := Initial(m, d, p, inv);
    var v := TraceLadder(m, c, e, bits);
    TwoOrMinusTwo(m, V(c, e), v);
    pass := m.Minus(v, 2) == 0 || m.Minus(v, m.w - 2) == 0;
  }

  lemma TwoOrMinusTwo(m: Mont, big: int, v: nat)
    requires m.Ok() && m.w > 2 && v == big % m.w
    ensures m.Minus(v, 2) == 0 <==> v == 2
    ensures m.Minus(v, m.w - 2) == 0 <==> v == m.w - 2
    ensures v == 2 <==> Cong(big, 2, m.w)
    ensures v == m.w - 2 <==> Cong(big, -2, m.w)
  {
    hide Cong;
    var w := m.w;
    CongSame(big, 2, w);
    CongSame(big, -2, w);
    SmallMod(2, w);
    SmallMod(w - 2, w);
    Shifted(-2, 1, w);
    MinusZero(m, v, 2);
    MinusZero(m, v, w - 2);
  }

  lemma MinusZero(m: Mont, x: nat, y: nat)
    requires m.Ok() && x < m.w && y < m.w
    ensures m.Minus(x, y) == 0 <==> x == y
  {
    hide Cong;
    if x < y { SmallMod(x - y + m.w, m.r); }
  }

  /** The inverse of the register is the inverse of the norm, and the initial value fits. */
  lemma TraceUnits(w: nat, p: nat, d: nat, c: nat, inv: nat, x: nat)
    requires w > 0 && Cong(x, Delta(p, d), w) && Cong(inv * x, 1, w) && Cong(c, 2 * (p * p + d) * inv, w)
    ensures Cong(Delta(p, d) * inv, 1, w) && Cong(c * Delta(p, d), 2 * (p * p + d), w)
  {
    hide Cong;
    var n, t := Delta(p, d), 2 * (p * p + d);
    hide Delta;
    CongSym(x, n, w);
    CongRefl(inv, w);
    CongMul(n, x, inv, inv, w);
    assert x * inv == inv * x;
    CongTrans(n * inv, x * inv, 1, w);
    CongRefl(n, w);
    CongMul(c, t * inv, n, n, w);
    CongRefl(t, w);
    CongMul(t, t, n * inv, 1, w);
    assert t * inv * n == t * (n * inv) && t * 1 == t;
    CongTrans(c * n, t * inv * n, t, w);
  }

  /** There is one inverse below w, so the answer does not depend on it. */
  lemma OneInverse(m: Mont, d: nat, p: nat, inv: nat)
    requires m.w > 0 && m.r > 0 && inv < m.w && Cong(inv * NormRegister(m, d, p), 1, m.w)
    ensures TracePasses(m, d, p) <==> TraceAnswer(m, d, p, inv)
  {
    hide Cong, TraceAnswer, NormRegister;
    if TracePasses(m, d, p) {
      var other: nat :| other < m.w && Cong(other * NormRegister(m, d, p), 1, m.w) && TraceAnswer(m, d, p, other);
      SameInverse(m.w, NormRegister(m, d, p), inv, other);
    }
  }

  lemma SameInverse(w: nat, x: nat, s: nat, t: nat)
    requires s < w && t < w && Cong(s * x, 1, w) && Cong(t * x, 1, w)
    ensures s == t
  {
    hide Cong;
    CongRefl(t, w);
    CongRefl(s, w);
    CongMul(s * x, 1, t, t, w);
    CongMul(t * x, 1, s, s, w);
    assert s * x * t == t * x * s;
    CongSym(s * x * t, 1 * t, w);
    CongTrans(1 * t, s * x * t, 1 * s, w);
    CongSame(t, s, w);
    SmallMod(t, w);
    SmallMod(s, w);
  }

  lemma PassNeedsUnit(m: Mont, d: nat, p: nat)
    requires m.w > 0 && m.r > 0 && TracePasses(m, d, p)
    ensures Coprime(NormRegister(m, d, p), m.w)
  {
    hide Cong, TraceAnswer, NormRegister;
    var x := NormRegister(m, d, p);
    var inv: nat :| inv < m.w && Cong(inv * x, 1, m.w) && TraceAnswer(m, d, p, inv);
    assert x * inv == inv * x;
  }

  /** Within the range a round passes exactly when the norm is a unit and the trace is right. */
  lemma PassIff(m: Mont, d: nat, p: nat)
    requires m.Ok() && m.w > 2 && d < m.r && Within(m, d, p)
    ensures TracePasses(m, d, p) <==> Coprime(Delta(p, d), m.w) && TraceHolds(m.w, d, p)
  {
    hide Cong, V, TraceHolds, Delta, Coprime, NormRegister, TraceAnswer, TracePasses, Within;
    var w, x := m.w, NormRegister(m, d, p);
    NormIs(m, p, d);
    CongSym(x, Delta(p, d), w);
    if TracePasses(m, d, p) {
      PassNeedsUnit(m, d, p);
      CoprimeCong(Delta(p, d), x, w);
    }
    if Coprime(Delta(p, d), w) {
      CoprimeCong(x, Delta(p, d), w);
      var inv := InverseBelow(x, w);
      OneInverse(m, d, p, inv);
      AnswerIsTrace(m, d, p, inv);
    }
  }

  lemma InverseBelow(x: nat, w: nat) returns (inv: nat)
    requires w > 0 && Coprime(x, w)
    ensures inv < w && Cong(inv * x, 1, w)
  {
    hide Cong;
    var t: int :| Cong(x * t, 1, w);
    inv := t % w;
    CongMod(t, w);
    CongRefl(x, w);
    CongMul(inv, t, x, x, w);
    assert t * x == x * t;
    CongTrans(inv * x, t * x, 1, w);
  }

  lemma AnswerIsTrace(m: Mont, d: nat, p: nat, inv: nat)
    requires m.Ok() && m.w > 2 && d < m.r && inv < m.w
    requires Cong(NormRegister(m, d, p), Delta(p, d), m.w) && Cong(inv * NormRegister(m, d, p), 1, m.w)
    ensures TraceAnswer(m, d, p, inv) <==> TraceHolds(m.w, d, p)
  {
    hide Cong, V, TraceHolds, Delta, NormRegister, InitialOf, Exponent;
    var c := InitialOf(m, d, p, inv);
    InitialIs(m, d, p, inv);
    var big := V(c, Exponent(m.w));
    TwoOrMinusTwo(m, big, big % m.w);
    TraceUnits(m.w, p, d, c, inv, NormRegister(m, d, p));
    TraceIsTwo(m.w, p, d, c, inv);
  }

  method TraceRounds(m: Mont, width: nat, d: nat, ps: seq<nat>) returns (pass: bool)
    requires m.Ok() && m.w > 2 && m.r == Pow2(width)
    ensures pass <==> forall i :: 0 <= i < |ps| ==> TracePasses(m, d, ps[i])
  {
    hide Cong, Pow2, TracePasses, TraceAnswer, Coprime, NormRegister;
    pass := true;
    if ps == [] { return; }
    var xs := Norms(m, d, ps);
    var invs, composite := BatchInvert(m, width, xs);
    pass := !composite;
    for k := 0 to |ps|
      invariant composite ==> !pass
      invariant !composite ==> (pass <==> forall i :: 0 <= i < k ==> TracePasses(m, d, ps[i]))
    {
      var good := TraceRound(m, d, ps[k], invs[k]);
      if !composite { OneInverse(m, d, ps[k], invs[k]); }
      pass := pass && good;
    }
    if forall i :: 0 <= i < |ps| ==> TracePasses(m, d, ps[i]) { AllUnits(m, d, ps, xs); }
  }

  lemma AllUnits(m: Mont, d: nat, ps: seq<nat>, xs: seq<nat>)
    requires m.w > 0 && m.r > 0 && |xs| == |ps|
    requires forall i :: 0 <= i < |ps| ==> xs[i] == NormRegister(m, d, ps[i])
    requires forall i :: 0 <= i < |ps| ==> TracePasses(m, d, ps[i])
    ensures forall i :: 0 <= i < |ps| ==> Coprime(xs[i], m.w)
  {
    hide TracePasses, Coprime, NormRegister;
    forall i | 0 <= i < |ps|
      ensures Coprime(xs[i], m.w)
    {
      PassNeedsUnit(m, d, ps[i]);
    }
  }

  // ---- the Lucas test -------------------------------------------------------------------------

  const STRONG_MAX := 6

  /** The first six draws go to strong rounds. */
  function StrongCount(n: nat): nat {
    if n < STRONG_MAX then n else STRONG_MAX
  }

  /** What the rounds have to show. */
  ghost predicate LucasAccepts(m: Mont, d: nat, ps: seq<nat>)
    requires m.w > 0 && m.r > 0
  {
    && (forall i :: 0 <= i < StrongCount(|ps|) ==> StrongHolds(m.w, d, ps[i]))
    && (forall i :: StrongCount(|ps|) <= i < |ps| ==> TracePasses(m, d, ps[i]))
  }

  /** The verdict of the test: a candidate is found, and the rounds accept. */
  ghost predicate LucasPasses(m: Mont, cands: seq<nat>, ps: seq<nat>)
    requires m.w > 0 && m.r > 0
  {
    var (found, d) := Search(cands, m.w);
    found && LucasAccepts(m, d, ps)
  }

  /**
   ossl_bn_CHVL_is_prime and ossl_bn_CHVL_is_prime_random, by the candidates for d;
   ps are the numbers drawn for the rounds.
   */
  method LucasTest(m: Mont, width: nat, cands: seq<nat>, ps: seq<nat>) returns (status: Status)
    requires m.Ok() && m.w > 2 && m.r == Pow2(width)
    ensures status == ProbablyPrime <==> LucasPasses(m, cands, ps)
  {
    hide Cong, Pow2, TracePasses, StrongHolds, Search;
    var found, d := FindD(m.w, cands);
    var composite := !found;
    var k := StrongCount(|ps|);
    var strong := StrongRounds(m, d, ps[..k]);
    composite := composite || !strong;
    var trace := TraceRounds(m, width, d, ps[k..]);
    composite := composite || !trace;
    assert forall i :: k <= i < |ps| ==> ps[i] == ps[k..][i - k];
    status := if composite then Composite else ProbablyPrime;
  }

  /** The exponent of the rounds: the odd half of w - 1 or the half of w + 1. */
  function RoundExponent(w: nat): nat {
    if w % 4 == 3 then (w - 1) / 2 else (w + 1) / 2
  }

  /** A strong round: w divides the rational or the other part of (p + sqrt(d))^e. */
  ghost predicate PartVanishes(w: nat, d: nat, p: nat)
    requires w > 0
  {
    var q := QPow(Quad(p, 1), RoundExponent(w), d);
    q.a % w == 0 || q.b % w == 0
  }

  /** A trace round: p^2 - d is a unit, and half the trace of (p + sqrt(d))^(2e) is its e-th power, up to sign. */
  ghost predicate TraceIsPower(w: nat, d: nat, p: nat)
    requires w > 0
  {
    var e := RoundExponent(w);
    var half, norm := QPow(Quad(p, 1), 2 * e, d).a, Pow(p * p - d, e);
    Coprime(p * p - d, w) && ((half - norm) % w == 0 || (half + norm) % w == 0)
  }

  /** The candidate at k is the first with the symbol wanted: 1 for w = 3 mod 4, and otherwise -1. */
  ghost predicate FirstWanted(w: nat, cands: seq<nat>, k: nat)
    requires w % 2 == 1 && k < |cands|
  {
    var wanted := if w % 4 == 3 then 1 else -1;
    Jacobi(cands[k], w) == wanted && forall j :: 0 <= j < k ==> Jacobi(cands[j], w) != wanted
  }

  lemma FirstIsFound(w: nat, cands: seq<nat>, k: nat)
    requires w % 2 == 1 && Drawn(cands, w) && k < |cands|
    ensures Fits(w) && FirstWanted(w, cands, k) ==> Search(cands, w) == (true, cands[k])
  {
    hide Search, Jacobi, Fits, Answer;
    forall i | 0 <= i < |cands|
      ensures Answer(cands[i], w) == if Fits(w) then Jacobi(cands[i], w) else 0
    {
      AnswerIs(cands[i], w);
      if Fits(w) { DrawnFits(cands[i], w); }
    }
    if Fits(w) && FirstWanted(w, cands, k) { SearchFirst(cands, w, k); }
  }

  lemma {:induction false} FirstExists(w: nat, cands: seq<nat>, k: nat) returns (j: nat)
    requires w % 2 == 1 && k < |cands| && Jacobi(cands[k], w) == Target(w)
    ensures j <= k && FirstWanted(w, cands, j)
    decreases k
  {
    hide Jacobi;
    if i :| 0 <= i < k && Jacobi(cands[i], w) == Target(w) {
      j := FirstExists(w, cands, i);
    } else {
      j := k;
    }
  }

  lemma DrawMeans(m: Mont, d: nat, p: nat)
    requires m.Ok() && m.w > 2 && d < m.r
    ensures StrongHolds(m.w, d, p) <==> PartVanishes(m.w, d, p)
    ensures Within(m, d, p) ==> (TracePasses(m, d, p) <==> TraceIsPower(m.w, d, p))
  {
    ExponentIs(m.w);
    hide QPow, Pow, Exponent, RoundExponent, Coprime, TracePasses, Within;
    if Within(m, d, p) {
      PassIff(m, d, p);
      TraceSigns(QPow(Quad(p, 1), 2 * RoundExponent(m.w), d).a, Pow(p * p - d, RoundExponent(m.w)), m.w);
    }
  }

  lemma ExponentIs(w: nat)
    requires w % 2 == 1
    ensures RoundExponent(w) == Exponent(w)
  {
  }

  lemma TraceSigns(x: int, n: int, w: nat)
    requires w > 0
    ensures (Cong(x, n, w) <==> (x - n) % w == 0) && (Cong(x, -n, w) <==> (x + n) % w == 0)
  {
    assert x - -n == x + n;
  }

  /** The first six draws have a part of their power vanish, the later ones the trace that they should. */
  ghost predicate RoundsShow(w: nat, d: nat, ps: seq<nat>)
    requires w > 0
  {
    && (forall i :: 0 <= i < |ps| && i < 6 ==> PartVanishes(w, d, ps[i]))
    && (forall i :: 6 <= i < |ps| ==> TraceIsPower(w, d, ps[i]))
  }

  lemma RoundsMean(m: Mont, d: nat, ps: seq<nat>)
    requires m.Ok() && m.w > 2 && d < m.r && forall i :: 6 <= i < |ps| ==> Within(m, d, ps[i])
    ensures LucasAccepts(m, d, ps) <==> RoundsShow(m.w, d, ps)
  {
    hide StrongHolds, TracePasses, PartVanishes, TraceIsPower, Within, Cong;
    forall i | 0 <= i < |ps|
      ensures StrongHolds(m.w, d, ps[i]) <==> PartVanishes(m.w, d, ps[i])
      ensures i >= 6 ==> (TracePasses(m, d, ps[i]) <==> TraceIsPower(m.w, d, ps[i]))
    {
      DrawMeans(m, d, ps[i]);
    }
  }

  /**
   The verdict on any odd number, by arithmetic alone: w fits, and for the first candidate
   with the symbol wanted the rounds show what they should.
   */
  lemma LucasMeans(m: Mont, cands: seq<nat>, ps: seq<nat>)
    requires m.Ok() && m.w > 2 && Drawn(cands, m.w) && forall k :: 0 <= k < |cands| ==> cands[k] < m.r
    requires forall k, i :: 0 <= k < |cands| && 6 <= i < |ps| ==> Within(m, cands[k], ps[i])
    ensures LucasPasses(m, cands, ps)
       <==> Fits(m.w) && exists k: nat :: k < |cands| && FirstWanted(m.w, cands, k) && RoundsShow(m.w, cands[k], ps)
  {
    hide Search, Jacobi, Fits, Answer, LucasAccepts, RoundsShow, Within, Cong, FirstWanted, Target;
    FoundIff(m.w, cands);
    if Search(cands, m.w).0 {
      var k :| 0 <= k < |cands| && Jacobi(cands[k], m.w) == Target(m.w);
      var j := FirstExists(m.w, cands, k);
      FirstIsFound(m.w, cands, j);
      RoundsMean(m, cands[j], ps);
    }
    if k: nat :| Fits(m.w) && k < |cands| && FirstWanted(m.w, cands, k) && RoundsShow(m.w, cands[k], ps) {
      WantedSymbol(m.w, cands, k);
      FirstIsFound(m.w, cands, k);
      RoundsMean(m, cands[k], ps);
    }
  }

  /** The same with no condition on the draws: which rounds are strong ones, and on what candidate they run. */
  lemma LucasSplits(m: Mont, cands: seq<nat>, ps: seq<nat>)
    requires m.Ok() && m.w > 2 && Drawn(cands, m.w) && forall k :: 0 <= k < |cands| ==> cands[k] < m.r
    ensures LucasPasses(m, cands, ps)
       <==> Fits(m.w) && exists k: nat :: k < |cands| && FirstWanted(m.w, cands, k) && FirstSixShow(m, cands[k], ps)
  {
    hide Search, Jacobi, Fits, Answer, LucasAccepts, FirstSixShow, Cong, FirstWanted, Target;
    FoundIff(m.w, cands);
    if Search(cands, m.w).0 {
      var k :| 0 <= k < |cands| && Jacobi(cands[k], m.w) == Target(m.w);
      var j := FirstExists(m.w, cands, k);
      FirstIsFound(m.w, cands, j);
      FirstSix(m, cands[j], ps);
    }
    if k: nat :| Fits(m.w) && k < |cands| && FirstWanted(m.w, cands, k) && FirstSixShow(m, cands[k], ps) {
      WantedSymbol(m.w, cands, k);
      FirstIsFound(m.w, cands, k);
      FirstSix(m, cands[k], ps);
    }
  }

  ghost predicate FirstSixShow(m: Mont, d: nat, ps: seq<nat>)
    requires m.w > 0 && m.r > 0
  {
    && (forall i :: 0 <= i < |ps| && i < 6 ==> PartVanishes(m.w, d, ps[i]))
    && (forall i :: 6 <= i < |ps| ==> TracePasses(m, d, ps[i]))
  }

  lemma FirstSix(m: Mont, d: nat, ps: seq<nat>)
    requires m.Ok() && m.w > 2 && d < m.r
    ensures LucasAccepts(m, d, ps) <==> FirstSixShow(m, d, ps)
  {
    hide StrongHolds, TracePasses, PartVanishes, TraceIsPower, Within, Cong;
    forall i | 0 <= i < |ps|
      ensures StrongHolds(m.w, d, ps[i]) <==> PartVanishes(m.w, d, ps[i])
    {
      DrawMeans(m, d, ps[i]);
    }
  }

  lemma WantedSymbol(w: nat, cands: seq<nat>, k: nat)
    requires w % 2 == 1 && k < |cands| && FirstWanted(w, cands, k)
    ensures Jacobi(cands[k], w) == Target(w)
  {
    hide Jacobi;
  }

  /** No number drawn is a square root of d. */
  ghost predicate NoRootDrawn(w: nat, d: nat, ps: seq<nat>)
    requires w > 0
  {
    forall i :: 0 <= i < |ps| ==> !Div(w, Delta(ps[i], d))
  }

  /** Every draw of the trace rounds stays within the range. */
  ghost predicate AllWithin(m: Mont, d: nat, ps: seq<nat>)
    requires m.w > 0
  {
    forall i :: 0 <= i < |ps| ==> Within(m, d, ps[i])
  }

  /** The routine's answer for a prime modulus is Euler's criterion. */
  lemma EulerOf(w: nat, d: nat)
    requires Prime(w) && w % 2 == 1 && Answer(d, w) == Target(w)
    ensures w > 0 && Euler(w, d)
  {
    hide Cong, Pow, Jacobi, Fits, Prime, Answer;
    FoundSymbol(w, d);
    JacobiEuler(d, w);
  }

  /** One draw on a prime: both kinds of round pass exactly when it is no square root of d. */
  lemma DrawOnPrime(m: Mont, d: nat, p: nat)
    requires m.Ok() && Prime(m.w) && m.w > 2 && d < m.r && Euler(m.w, d)
    ensures StrongHolds(m.w, d, p) <==> !Div(m.w, Delta(p, d))
    ensures Within(m, d, p) ==> (TracePasses(m, d, p) <==> !Div(m.w, Delta(p, d)))
  {
    hide Prime, StrongHolds, TraceHolds, TracePasses, Within, Coprime, Delta, Div, Euler, Cong;
    StrongOnPrime(m.w, d, p);
    UnitOfPrime(m.w, Delta(p, d));
    if Within(m, d, p) { PassIff(m, d, p); }
    if !Div(m.w, Delta(p, d)) { TraceOnPrime(m.w, d, p); }
  }

  /** A prime is accepted exactly when a candidate is found and no number drawn is a square root of it. */
  lemma LucasOnPrime(m: Mont, cands: seq<nat>, ps: seq<nat>)
    requires m.Ok() && Prime(m.w) && forall k :: 0 <= k < |cands| ==> cands[k] < m.r
    ensures var (found, d) := Search(cands, m.w);
            AllWithin(m, d, ps) ==> (LucasPasses(m, cands, ps) <==> found && NoRootDrawn(m.w, d, ps))
  {
    hide Prime, StrongHolds, TracePasses, Within, Delta, Div, Euler, Search, Answer, Cong;
    PrimeBig(m.w);
    var (found, d) := Search(cands, m.w);
    if found && AllWithin(m, d, ps) {
      EulerOf(m.w, d);
      OddPrime(m.w);
      forall i | 0 <= i < |ps|
        ensures StrongHolds(m.w, d, ps[i]) <==> !Div(m.w, Delta(ps[i], d))
        ensures TracePasses(m, d, ps[i]) <==> !Div(m.w, Delta(ps[i], d))
      {
        DrawOnPrime(m, d, ps[i]);
      }
    }
  }

  /** For a prime that is 1 modulo 4 no number is a square root of a candidate found. */
  lemma NeverARoot(w: nat, d: nat, ps: seq<nat>)
    requires Prime(w) && w % 4 == 1 && Answer(d, w) == Target(w)
    ensures w > 0 && NoRootDrawn(w, d, ps)
  {
    hide Prime, Delta, Div, Euler, Answer, Target;
    PrimeBig(w);
    OddOf4(w);
    EulerOf(w, d);
    forall i | 0 <= i < |ps|
      ensures !Div(w, Delta(ps[i], d))
    {
      NoRoot(w, d, ps[i]);
    }
  }

  /** A prime that is 1 modulo 4 is accepted whatever is drawn, once a candidate is found. */
  lemma LucasAcceptsPrime(m: Mont, cands: seq<nat>, ps: seq<nat>)
    requires m.Ok() && Prime(m.w) && m.w % 4 == 1 && forall k :: 0 <= k < |cands| ==> cands[k] < m.r
    ensures AllWithin(m, Search(cands, m.w).1, ps) ==> (LucasPasses(m, cands, ps) <==> Search(cands, m.w).0)
  {
    hide Prime, LucasPasses, AllWithin, NoRootDrawn, Search, Answer, Cong;
    LucasOnPrime(m, cands, ps);
    var (found, d) := Search(cands, m.w);
    if found { NeverARoot(m.w, d, ps); }
  }

  /** Candidates below w keep every draw within the range, as do all of the list above 179. */
  lemma BelowIsWithin(m: Mont, cands: seq<nat>, ps: seq<nat>)
    requires m.w > 0
    requires (forall k :: 0 <= k < |cands| ==> cands[k] < m.w) || (cands == SMALL_PRIMES && m.w > 179)
    ensures AllWithin(m, Search(cands, m.w).1, ps)
  {
    hide Search, Answer, SMALL_PRIMES;
    AllSmall();
  }

  /** No number of more than 2048 bits is accepted, prime or not. */
  lemma LongRefused(m: Mont, cands: seq<nat>, ps: seq<nat>)
    requires m.Ok() && !Fits(m.w)
    ensures !LucasPasses(m, cands, ps)
  {
    hide Search, LucasAccepts, Fits;
    LongFindsNothing(m.w, cands);
  }

  /** The draws that refuse a prime are at most two modulo w, each the negative of the other. */
  lemma TwoRoots(w: nat, d: int, p: int, q: int)
    requires w > 0 && Prime(w) && Div(w, Delta(p, d)) && Div(w, Delta(q, d))
    ensures Cong(p, q, w) || Cong(p, -q, w)
  {
    hide Prime;
    PrimeBig(w);
    DivAdd(w, Delta(p, d), Delta(q, d));
    assert Delta(p, d) - Delta(q, d) == (p - q) * (p + q);
    Euclid(w, p - q, p + q);
    assert p - -q == p + q;
  }

  /** No candidate has the symbol -1 modulo a square, so squares are refused. */
  lemma SquaresRefused(m: Mont, s: nat, cands: seq<nat>, ps: seq<nat>)
    requires m.Ok() && m.w == s * s
    ensures !LucasPasses(m, cands, ps)
  {
    hide Search, LucasAccepts, Jacobi, Cong, Answer;
    OddRoot(s);
    SquareMod4(s);
    var (found, d) := Search(cands, m.w);
    if found {
      FoundSymbol(m.w, d);
      JacobiOfSquare(d, s);
      assert false;
    }
  }

  lemma OddRoot(s: nat)
    requires s * s % 2 == 1
    ensures s % 2 == 1
  {
    if s % 2 == 0 { EvenTimes(s, s); }
  }

  lemma SquareMod4(s: nat)
    requires s % 2 == 1
    ensures s * s % 4 == 1 && s * s > 0
  {
    var k := s / 2;
    assert s * s == 4 * (k * k + k) + 1 by {
      assert s == 2 * k + 1;
      assert (2 * k + 1) * (2 * k + 1) == 4 * (k * k) + 4 * k + 1;
    }
    Mod4(s * s, k * k + k, 1);
  }

  // ---- the fixed list ---------------------------------------------------------------------------

  /** Divisible by none of the primes up to 13, or one of these. */
  predicate Sifted(n: nat) {
    || n == 3 || n == 5 || n == 7 || n == 11 || n == 13
    || (n > 13 && n % 2 != 0 && n % 3 != 0 && n % 5 != 0 && n % 7 != 0 && n % 11 != 0 && n % 13 != 0)
  }

  /** A factor up to 13 has a prime factor up to 13. */
  lemma SmallFactor(e: nat, n: nat)
    requires 1 < e <= 13 && Div(e, n) && e < n
    ensures !Sifted(n)
  {
    var p := if e % 2 == 0 then 2 else if e % 3 == 0 then 3 else e;
    hide Div, Sifted;
    assert Div(p, e) by { DivisorOfSmall(e, p); }
    DivTrans(p, e, n);
    SmallPrimeDivides(p, n);
  }

  lemma DivisorOfSmall(e: nat, p: nat)
    requires 1 < e <= 13 && p == if e % 2 == 0 then 2 else if e % 3 == 0 then 3 else e
    ensures p > 0 && Div(p, e)
  {
  }

  lemma SmallPrimeDivides(p: nat, n: nat)
    requires (p == 2 || p == 3 || p == 5 || p == 7 || p == 11 || p == 13) && Div(p, n) && p < n
    ensures !Sifted(n)
  {
  }

  /** Below 17 squared the sifted numbers are primes. */
  lemma SiftedIsPrime(n: nat)
    requires Sifted(n) && n < 289
    ensures Prime(n) && n % 2 == 1
  {
    forall d: nat | 1 < d < n
      ensures !Div(d, n)
    {
      if Div(d, n) {
        var e := Witness(d, n);
        Cofactor(d, e, n);
        hide Sifted;
        if d <= 13 {
          SmallFactor(d, n);
        } else if e <= 13 {
          DivBy(e, d);
          SmallFactor(e, n);
        } else {
          BothLarge(d, e, n);
        }
        assert false;
      }
    }
  }

  lemma Cofactor(d: nat, e: int, n: nat)
    requires d * e == n && 1 < d < n
    ensures 1 < e < n && e * d == n
  {
    if e <= 1 { LeOne(d, e); }
    MulLe(2, d, e);
  }

  lemma LeOne(d: nat, e: int)
    requires e <= 1
    ensures d * e <= d
  {
  }

  lemma BothLarge(d: nat, e: nat, n: nat)
    requires d > 13 && e > 13 && d * e == n && n < 289
    ensures !Sifted(n)
  {
    hide Sifted, Div;
    if d < 17 {
      DivBy(d, e);
      SmallerFactorOf(d, e);
      OneOfThree(d, n);
    } else if e < 17 {
      DivBy(e, d);
      SmallerFactorOf(e, d);
      OneOfThree(e, n);
    } else {
      TooBig(d, e);
    }
  }

  lemma SmallerFactorOf(d: nat, e: nat)
    requires d > 1 && e > 1
    ensures d * e > d && e * d == d * e
  {
    MulLe(2, e, d);
  }

  lemma TooBig(d: nat, e: nat)
    requires d >= 17 && e >= 17
    ensures d * e >= 289
  {
    MulLe(17, d, e);
    MulLe(17, e, 17);
  }

  lemma OneOfThree(d: nat, n: nat)
    requires 13 < d < 17 && Div(d, n) && n > d
    ensures !Sifted(n)
  {
    var k := Witness(d, n);
    if d == 14 { Shifted(0, 7 * k, 2); } else if d == 15 { Shifted(0, 5 * k, 3); } else { Shifted(0, 8 * k, 2); }
  }

  /** The fixed list is forty odd primes in ascending order, from 3 to 179. */
  lemma SmallPrimesAre()
    ensures |SMALL_PRIMES| == 40 && SMALL_PRIMES[0] == 3 && SMALL_PRIMES[39] == 179
    ensures forall k :: 0 <= k < 40 ==> Prime(SMALL_PRIMES[k]) && SMALL_PRIMES[k] % 2 == 1
    ensures forall j, k :: 0 <= j < k < 40 ==> SMALL_PRIMES[j] < SMALL_PRIMES[k]
  {
    ListSifted();
    ListAscends();
    hide SMALL_PRIMES, Prime, Sifted;
    forall k | 0 <= k < 40
      ensures Prime(SMALL_PRIMES[k]) && SMALL_PRIMES[k] % 2 == 1
    {
      SiftedIsPrime(SMALL_PRIMES[k]);
    }
    forall j, k | 0 <= j < k < 40
      ensures SMALL_PRIMES[j] < SMALL_PRIMES[k]
    {
      Ascends(j, k);
    }
  }

  lemma ListSifted()
    ensures |SMALL_PRIMES| == 40 && SMALL_PRIMES[0] == 3 && SMALL_PRIMES[39] == 179
    ensures forall k :: 0 <= k < 40 ==> Sifted(SMALL_PRIMES[k]) && SMALL_PRIMES[k] < 289
  {
  }

  lemma ListAscends()
    ensures |SMALL_PRIMES| == 40 && forall k :: 0 <= k < 39 ==> SMALL_PRIMES[k] < SMALL_PRIMES[k + 1]
  {
  }

  lemma {:induction false} Ascends(j: nat, k: nat)
    requires j < k < |SMALL_PRIMES|
    ensures SMALL_PRIMES[j] < SMALL_PRIMES[k]
    decreases k - j
  {
    ListAscends();
    hide SMALL_PRIMES;
    if j + 1 < k { Ascends(j, k - 1); }
  }

  // ---- where a prime is refused ---------------------------------------------------------------

  lemma SevenIsPrime()
    ensures Prime(7)
  {
    forall d: nat | 1 < d < 7
      ensures !Div(d, 7)
    {
      assert d == 2 || d == 3 || d == 4 || d == 5 || d == 6;
    }
  }

  lemma SymbolModSeven()
    ensures Jacobi(2, 7) == 1 && Jacobi(3, 7) == -1 && Jacobi(5, 7) == -1 && Jacobi(7, 7) == 0 && Jacobi(11, 7) == 1
  {
    hide Jacobi, Prime;
    SevenIsPrime();
    JacobiEuler(2, 7);
    JacobiEuler(3, 7);
    JacobiEuler(5, 7);
    JacobiEuler(7, 7);
    JacobiEuler(11, 7);
    PowersModSeven();
  }

  lemma PowersModSeven()
    ensures Pow(2, 3) == 8 && Pow(3, 3) == 27 && Pow(5, 3) == 125 && Pow(7, 3) == 343 && Pow(11, 3) == 1331
  {
    assert Pow(2, 1) == 2 && Pow(3, 1) == 3 && Pow(5, 1) == 5 && Pow(7, 1) == 7 && Pow(11, 1) == 11;
  }

  lemma SevenFits()
    ensures Fits(7)
  {
    assert NumBits(7) == 3;
  }

  /** 3 is a square root of 2 modulo 7: drawing it refuses the prime. */
  lemma RootRefuses(m: Mont)
    requires m.Ok() && m.w == 7
    ensures Prime(7) && Search([2], 7) == (true, 2) && !LucasPasses(m, [2], [3])
  {
    hide Jacobi, LucasPasses, Search, Prime, Fits;
    SevenIsPrime();
    SymbolModSeven();
    SevenFits();
    FoundIff(7, [2]);
    assert Jacobi([2][0], 7) == 1;
    LucasOnPrime(m, [2], [3]);
    BelowIsWithin(m, [2], [3]);
    assert Delta([3][0], 2) == 7;
    DivBy(7, 1);
  }

  lemma AllSmall()
    ensures forall p :: p in SMALL_PRIMES ==> p <= 179
  {
  }

  /** The fixed list gives 7 the candidate 11. */
  lemma SevenGetsEleven()
    ensures Search(SMALL_PRIMES, 7) == (true, 11)
  {
    hide Jacobi, Prime, SMALL_PRIMES, Fits, Answer, Search;
    SymbolModSeven();
    SevenFits();
    FirstFour();
    var a := [3, 5, 7, 11];
    AnswerModSeven(3);
    AnswerModSeven(5);
    AnswerModSeven(7);
    AnswerModSeven(11);
    SearchOn(a, SMALL_PRIMES[4..], 7);
    assert Answer(a[3], 7) == 1;
  }

  lemma AnswerModSeven(c: nat)
    requires c <= 179
    ensures Answer(c, 7) == Jacobi(c, 7)
  {
    hide Jacobi, Fits, Answer;
    SevenFits();
    DrawnFits(c, 7);
    AnswerIs(c, 7);
  }

  lemma FirstFour()
    ensures |SMALL_PRIMES| == 40 && SMALL_PRIMES == [3, 5, 7, 11] + SMALL_PRIMES[4..]
  {
    var four := [3, 5, 7, 11];
    assert SMALL_PRIMES[0] == 3 && SMALL_PRIMES[1] == 5 && SMALL_PRIMES[2] == 7 && SMALL_PRIMES[3] == 11;
    assert SMALL_PRIMES[..4] == four;
  }

  /** The draws of the example below: one for each strong round, then 0 for the trace round. */
  const DRAWS: seq<nat> := [1, 1, 1, 1, 1, 1, 0]

  /**
   When d leaves the range of ct_mod_sub a prime may be refused: the fixed list gives 7 the
   candidate 11, none of the draws is a square root of it, and the draw 0 refuses.
   */
  lemma LargeCandidateRefuses()
    ensures var m := Mont(7, Pow2(64), 4);
            && m.Ok() && Prime(7) && Search(SMALL_PRIMES, 7) == (true, 11) && NoRootDrawn(7, 11, DRAWS)
            && !Within(m, 11, 0) && !LucasPasses(m, SMALL_PRIMES, DRAWS)
  {
    hide Search, Prime, TracePasses, StrongHolds, SMALL_PRIMES, Pow2;
    SevenIsPrime();
    SevenGetsEleven();
    ZeroDrawFails();
    assert DRAWS[6] == 0;
  }

  lemma ZeroDrawFails()
    ensures var m := Mont(7, Pow2(64), 4); m.Ok() && !TracePasses(m, 11, 0)
  {
    hide Pow2, TracePasses;
    WordPower();
    assert 0x1_0000_0000_0000_0000 * 4 - 1 == 7 * 10540996613548315209;
    var m := Mont(7, 0x1_0000_0000_0000_0000, 4);
    assert NormRegister(m, 11, 0) == 0x1_0000_0000_0000_0000 - 4;
    OneInverse(m, 11, 0, 3);
    assert InitialOf(m, 11, 0, 3) == 3;
    assert V(3, 1) == 3 && V(3, 2) == 7 && V(3, 3) == 18;
  }

  // ---- a composite that the first rounds refuse ------------------------------------------------

  /** (63 + sqrt(11))^n modulo 189 from that of half of n. */
  lemma PowerStep(h: nat, x: Quad, odd: bool, y: Quad)
    requires QCong(QPow(Quad(63, 1), h, 11), x, 189)
    requires var z := if odd then Mul(Quad(63, 1), Mul(x, x, 11), 11) else Mul(x, x, 11); QCong(z, y, 189)
    ensures QCong(QPow(Quad(63, 1), if odd then 2 * h + 1 else 2 * h, 11), y, 189)
  {
    hide QPow, Mul, Cong;
    var g, p := Quad(63, 1), QPow(Quad(63, 1), h, 11);
    QPowAdd(g, h, h, 11);
    QMul(p, x, p, x, 11, 189);
    if odd {
      QPowNext(g, 2 * h, 11);
      QRefl(g, 189);
      QMul(g, g, QPow(g, 2 * h, 11), Mul(x, x, 11), 11, 189);
      QTrans(QPow(g, 2 * h + 1, 11), Mul(g, Mul(x, x, 11), 11), y, 189);
    } else {
      QTrans(QPow(g, 2 * h, 11), Mul(x, x, 11), y, 189);
    }
  }

  lemma QPowNext(x: Quad, n: nat, d: int)
    ensures QPow(x, n + 1, d) == Mul(x, QPow(x, n, d), d)
  {
  }

  lemma FirstPower(x: Quad, d: int)
    ensures QPow(x, 1, d) == x
  {
    QPowNext(x, 0, d);
    assert QPow(x, 0, d) == ONE;
  }

  /** The power of the round with the draw 63, modulo 189. */
  lemma PowerOf63()
    ensures QCong(QPow(Quad(63, 1), 95, 11), Quad(63, 149), 189)
  {
    hide QPow;
    FirstPower(Quad(63, 1), 11);
    QRefl(Quad(63, 1), 189);
    PowerStep(1, Quad(63, 1), false, Quad(11, 126));
    PowerStep(2, Quad(11, 126), true, Quad(126, 121));
    PowerStep(5, Quad(126, 121), true, Quad(63, 23));
    PowerStep(11, Quad(63, 23), true, Quad(63, 149));
    PowerStep(23, Quad(63, 149), true, Quad(63, 23));
    PowerStep(47, Quad(63, 23), true, Quad(63, 149));
  }

  lemma NeitherPart(x: Quad)
    requires QCong(x, Quad(63, 149), 189)
    ensures !Div(189, x.a) && !Div(189, x.b)
  {
    CongSame(x.a, 63, 189);
    CongSame(x.b, 149, 189);
  }

  /** The candidates for 189: 3 and 7 divide it, 5 has the symbol 1, and 11 the symbol -1. */
  lemma Candidates189()
    ensures Jacobi(3, 189) == 0 && Jacobi(5, 189) != -1 && Jacobi(7, 189) == 0 && Jacobi(11, 189) == -1
  {
    hide Jacobi;
    SharedFactor(3, 63);
    SharedFactor(7, 27);
    JacobiSwap(5, 189);
    DivBy(5, 37);
    JacobiCong(189, 4, 5);
    JacobiTimes(2, 2, 5);
    JacobiSwap(11, 189);
    DivBy(11, 17);
    JacobiCong(189, 2, 11);
    JacobiTwo(1, 11);
    JacobiOfUnit(11);
  }

  lemma SharedFactor(p: nat, k: nat)
    requires p > 1 && p * k % 2 == 1
    ensures Jacobi(p, p * k) == 0
  {
    if Coprime(p, p * k) {
      DivBy(p, 1);
      DivBy(p, k);
      DivBound.CommonIsOne(p, p, p * k);
      assert false;
    }
  }

  lemma JacobiOfUnit(n: nat)
    requires n % 2 == 1
    ensures Jacobi(1, n) == 1
  {
    CongRefl(1, n);
    assert Cong(1 * 1, 1, n);
    SquareHasOne(1, n);
  }

  lemma Fits189()
    ensures Fits(189)
  {
    assert NumBits(11) == 4;
  }

  /** The composite 189 is refused with the draws 0 and 63: both go to strong rounds, and 63 fails its own. */
  lemma CompositeRefused(m: Mont)
    requires m.Ok() && m.w == 189
    ensures Search(SMALL_PRIMES, 189) == (true, 11) && !LucasPasses(m, SMALL_PRIMES, [0, 63])
  {
    hide Search, Jacobi, TracePasses, SMALL_PRIMES, QPow, Cong, Fits;
    Candidates189();
    FirstFour();
    AllSmall();
    assert forall i :: 0 <= i < |SMALL_PRIMES| ==> SMALL_PRIMES[i] in SMALL_PRIMES;
    Fits189();
    FirstIsFound(189, SMALL_PRIMES, 3);
    PowerOf63();
    NeitherPart(QPow(Quad(63, 1), 95, 11));
    assert [0, 63][1] == 63;
  }

  // ---- where no candidate is found ------------------------------------------------------------

  /** Candidates that are squares modulo w = 1 mod 4 are of no use: w is refused, prime or not. */
  lemma SquareCandidatesRefuse(m: Mont, cands: seq<nat>, roots: seq<nat>, ps: seq<nat>)
    requires m.Ok() && m.w % 4 == 1 && |roots| == |cands|
    requires forall k :: 0 <= k < |cands| ==> Cong(cands[k], roots[k] * roots[k], m.w)
    ensures !LucasPasses(m, cands, ps)
  {
    hide Search, LucasAccepts, Jacobi, Cong, Answer;
    var (found, d) := Search(cands, m.w);
    if found {
      FoundSymbol(m.w, d);
      var k :| 0 <= k < |cands| && cands[k] == d;
      JacobiCong(d, roots[k] * roots[k], m.w);
      JacobiTimes(roots[k], roots[k], m.w);
      assert false;
    }
  }

  /** 5 is a prime that the candidates 4 and 1 do not settle. */
  lemma FiveRefused(m: Mont, ps: seq<nat>)
    requires m.Ok() && m.w == 5
    ensures Prime(5) && !LucasPasses(m, [4, 1], ps)
  {
    hide LucasPasses;
    CongRefl(4, 5);
    CongRefl(1, 5);
    SquareCandidatesRefuse(m, [4, 1], [2, 1], ps);
    FiveIsPrime();
  }

  lemma FiveIsPrime()
    ensures Prime(5)
  {
    forall d: nat | 1 < d < 5
      ensures !Div(d, 5)
    {
      assert d == 2 || d == 3 || d == 4;
    }
  }

  function ProductOf(s: seq<nat>): nat {
    if s == [] then 1 else ProductOf(s[..|s| - 1]) * s[|s| - 1]
  }

  lemma {:induction false} DividesProduct(s: seq<nat>, k: nat)
    requires k < |s| && s[k] > 0
    ensures Div(s[k], ProductOf(s))
    decreases |s|
  {
    hide Div;
    var n := |s| - 1;
    if k < n {
      DividesProduct(s[..n], k);
      DivMul(s[k], ProductOf(s[..n]), s[n]);
    } else {
      DivBy(s[n], ProductOf(s[..n]));
    }
  }

  /**
   The fixed list is blind to a whole progression of moduli, and with it to every prime in
   it: each of the forty candidates has the symbol 1, and -1 is wanted.
   */
  lemma FixedListBlind(m: Mont, k: nat, ps: seq<nat>)
    requires m.Ok() && m.w == 4 * (k * ProductOf(SMALL_PRIMES)) + 1
    ensures !LucasPasses(m, SMALL_PRIMES, ps)
  {
    hide Search, LucasAccepts, Jacobi, Fits, Cong, SMALL_PRIMES, ProductOf;
    Mod4(m.w, k * ProductOf(SMALL_PRIMES), 1);
    AllOdd();
    forall i | 0 <= i < |SMALL_PRIMES|
      ensures Jacobi(SMALL_PRIMES[i], m.w) == 1
    {
      DividesProduct(SMALL_PRIMES, i);
      OneModulo(SMALL_PRIMES[i], ProductOf(SMALL_PRIMES), k, m.w);
      OneByReciprocity(SMALL_PRIMES[i], m.w);
    }
    AllSmall();
    assert forall i :: 0 <= i < |SMALL_PRIMES| ==> SMALL_PRIMES[i] in SMALL_PRIMES;
    FoundIff(m.w, SMALL_PRIMES);
  }

  lemma AllOdd()
    ensures forall i :: 0 <= i < |SMALL_PRIMES| ==> SMALL_PRIMES[i] % 2 == 1
  {
  }

  lemma OneModulo(p: nat, n: nat, k: nat, w: nat)
    requires p > 0 && Div(p, n) && w == 4 * (k * n) + 1
    ensures Cong(w, 1, p)
  {
    DivMul(p, n, 4 * k);
    assert w - 1 == n * (4 * k);
  }

  lemma OneByReciprocity(p: nat, w: nat)
    requires p % 2 == 1 && w % 4 == 1 && Cong(w, 1, p)
    ensures w % 2 == 1 && Jacobi(p, w) == 1
  {
    hide Jacobi, Cong;
    OddOf4(w);
    JacobiSwap(p, w);
    JacobiCong(w, 1, p);
    CongRefl(1, p);
    assert Cong(1 * 1, 1, p);
    SquareHasOne(1, p);
  }

  lemma OddOf4(w: nat)
    requires w % 4 == 1
    ensures w % 2 == 1
  {
    var k := w / 4;
    assert w == 4 * k + 1;
    Mod2(w, 2 * k, 1);
  }
}
