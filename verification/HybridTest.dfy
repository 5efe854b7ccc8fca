/**
 The Solovay-Strassen test and the hybrid of it with the trace rounds
 (crypto/bn/bn_prime.c).
 */
module HybridTest {
  import opened Primes
  import opened QuadRing
  import opened LucasTheory
  import opened Montgomery
  import opened CtGcd
  import opened JacobiSymbol
  import opened JacobiRoutine
  import opened LucasTests

  /** Euler's criterion holds for base a with symbol j, and the symbol is not zero. */
  predicate EulerHolds(w: nat, a: nat, j: int)
    requires w > 0
  {
    j != 0 && Cong(Pow(a, w / 2), j, w)
  }

  /** One round: the power by the ladder, compared with 1 or w - 1. */
  method EulerRound(m: Mont, a: nat, j: int) returns (pass: bool)
    requires m.Ok() && m.w > 2 && (j == -1 || j == 0 || j == 1)
    ensures pass <==> EulerHolds(m.w, a, j)
  {
    hide Cong, Pow;
    var x := ModExp(m, a, m.w / 2);
    var expected := if j == -1 then m.w - 1 else 1;
    MinusZero(m, x, expected);
    CongSame(Pow(a, m.w / 2), j, m.w);
    SmallMod(1, m.w);
    SmallMod(m.w - 1, m.w);
    Shifted(-1, 1, m.w);
    pass := m.Minus(x, expected) == 0 && j != 0;
  }

  /** The verdict of the Solovay-Strassen test. */
  ghost predicate EulerPasses(w: nat, bases: seq<nat>)
    requires w > 0
  {
    w == 3 || forall i :: 0 <= i < |bases| ==> EulerHolds(w, bases[i], Answer(bases[i], w))
  }

  /** ossl_bn_solovay_strassen_is_prime with the given bases. */
  method SolovayStrassen(m: Mont, bases: seq<nat>) returns (status: Status)
    requires m.Ok() && m.w > 2
    ensures status == ProbablyPrime <==> EulerPasses(m.w, bases)
  {
    hide Cong, EulerHolds, Answer;
    if m.w == 3 { return ProbablyPrime; }
    var composite := false;
    for i := 0 to |bases|
      invariant !composite <==> forall k :: 0 <= k < i ==> EulerHolds(m.w, bases[k], Answer(bases[k], m.w))
    {
      var j := JacobiBy(bases[i], m.w);
      var pass := EulerRound(m, bases[i], j);
      composite := composite || !pass;
    }
    status := if composite then Composite else ProbablyPrime;
  }

  /** The verdict of the hybrid test. */
  ghost predicate HybridPasses(m: Mont, bases: seq<nat>, fallback: seq<nat>, ps: seq<nat>)
    requires m.w > 0 && m.r > 0
  {
    var (found, d) := Search(bases + fallback, m.w);
    m.w == 3 || (EulerPasses(m.w, bases) && found && forall i :: 0 <= i < |ps| ==> TracePasses(m, d, ps[i]))
  }

  /** Phase 1A: Euler rounds that also look for d. */
  method EulerAndSearch(m: Mont, bases: seq<nat>) returns (pass: bool, found: bool, d: nat)
    requires m.Ok() && m.w > 3
    ensures pass <==> EulerPasses(m.w, bases)
    ensures (found, d) == Search(bases, m.w)
  {
    hide Cong, EulerHolds, Target, Answer;
    pass, found, d := true, false, 0;
    assert bases[..0] == [];
    for i := 0 to |bases|
      invariant pass <==> forall k :: 0 <= k < i ==> EulerHolds(m.w, bases[k], Answer(bases[k], m.w))
      invariant (found, d) == Search(bases[..i], m.w)
    {
      assert bases[..i + 1][..i] == bases[..i];
      var j := JacobiBy(bases[i], m.w);
      var update := j == Target(m.w) && !found;
      if update { d := bases[i]; }
      found := found || update;
      var good := EulerRound(m, bases[i], j);
      pass := pass && good;
    }
    assert bases[..|bases|] == bases;
  }

  /**
   ossl_bn_CHVSS_is_prime and ossl_bn_CHVSS_is_prime_random, by the fallback candidates
   for d; bases are the numbers drawn for the Euler rounds, ps those for the trace rounds.
   */
  method Hybrid(m: Mont, width: nat, bases: seq<nat>, fallback: seq<nat>, ps: seq<nat>) returns (status: Status)
    requires m.Ok() && m.w > 2 && m.r == Pow2(width)
    ensures status == ProbablyPrime <==> HybridPasses(m, bases, fallback, ps)
  {
    hide Cong, Pow2, EulerPasses, TracePasses, Search, Target;
    if m.w == 3 { return ProbablyPrime; }
    var pass, found, d := EulerAndSearch(m, bases);
    var composite := !pass;
    var later, e := FindD(m.w, fallback);
    SearchOn(bases, fallback, m.w);
    if !found { found, d := later, e; }
    composite := composite || !found;
    var trace := TraceRounds(m, width, d, ps);
    composite := composite || !trace;
    status := if composite then Composite else ProbablyPrime;
  }

  // ---- any number ---------------------------------------------------------------------------

  /** Bases as they are drawn. */
  predicate DrawnBases(bases: seq<nat>, w: nat) {
    forall i :: 0 <= i < |bases| ==> 0 < bases[i] < w
  }

  /** A base whose Jacobi symbol is not 0 and is its power to half of w - 1 modulo w. */
  ghost predicate SymbolIsPower(w: nat, a: nat)
    requires w % 2 == 1
  {
    Jacobi(a, w) != 0 && (Pow(a, (w - 1) / 2) - Jacobi(a, w)) % w == 0
  }

  lemma EulerMeans(w: nat, a: nat)
    requires w % 2 == 1 && w > 1 && a < w
    ensures EulerHolds(w, a, Answer(a, w)) <==> Fits(w) && SymbolIsPower(w, a)
  {
    hide Pow, Jacobi, Fits, Answer;
    AnswerIs(a, w);
    if Fits(w) { DrawnFits(a, w); }
    assert (w - 1) / 2 == w / 2;
  }

  /** The verdict of the Solovay-Strassen test on any odd number, by arithmetic alone. */
  lemma SolovayStrassenMeans(w: nat, bases: seq<nat>)
    requires w % 2 == 1 && w > 3 && DrawnBases(bases, w)
    ensures EulerPasses(w, bases) <==> bases == [] || (Fits(w) && forall i :: 0 <= i < |bases| ==> SymbolIsPower(w, bases[i]))
  {
    hide SymbolIsPower, EulerHolds, Answer, Fits;
    forall i | 0 <= i < |bases|
      ensures EulerHolds(w, bases[i], Answer(bases[i], w)) <==> Fits(w) && SymbolIsPower(w, bases[i])
    {
      EulerMeans(w, bases[i]);
    }
    assert bases != [] ==> (EulerHolds(w, bases[0], Answer(bases[0], w)) ==> Fits(w));
  }

  /** Whatever the fallback and the later draws are, acceptance needs the Euler rounds. */
  lemma HybridNeedsEuler(m: Mont, bases: seq<nat>, fallback: seq<nat>, ps: seq<nat>)
    requires m.Ok() && m.w > 3 && DrawnBases(bases, m.w) && HybridPasses(m, bases, fallback, ps)
    ensures Fits(m.w) && forall i :: 0 <= i < |bases| ==> SymbolIsPower(m.w, bases[i])
  {
    hide Search, SymbolIsPower, Answer, Fits, EulerPasses, TracePasses, Cong, Jacobi;
    SolovayStrassenMeans(m.w, bases);
    FoundSymbol(m.w, Search(bases + fallback, m.w).1);
  }

  /** The composite 15 is refused once 2 is drawn, although 2 would do as a candidate. */
  lemma FifteenRefused(m: Mont, bases: seq<nat>, fallback: seq<nat>, ps: seq<nat>)
    requires m.Ok() && m.w == 15 && DrawnBases(bases, 15) && 2 in bases
    ensures Jacobi(2, 15) == 1 && !HybridPasses(m, bases, fallback, ps)
  {
    hide Jacobi, HybridPasses, Fits;
    JacobiTwo(1, 15);
    JacobiOfUnit(15);
    assert Pow(2, 1) == 2 && Pow(2, 3) == 8 && Pow(2, 7) == 128;
    assert !SymbolIsPower(15, 2);
    if HybridPasses(m, bases, fallback, ps) {
      HybridNeedsEuler(m, bases, fallback, ps);
      assert false;
    }
  }

  lemma TraceMeans(m: Mont, d: nat, ps: seq<nat>)
    requires m.Ok() && m.w > 2 && d < m.r && AllWithin(m, d, ps)
    ensures (forall i :: 0 <= i < |ps| ==> TracePasses(m, d, ps[i]))
       <==> (forall i :: 0 <= i < |ps| ==> TraceIsPower(m.w, d, ps[i]))
  {
    hide TracePasses, TraceIsPower, Within, Cong, StrongHolds, PartVanishes;
    forall i | 0 <= i < |ps|
      ensures TracePasses(m, d, ps[i]) <==> TraceIsPower(m.w, d, ps[i])
    {
      DrawMeans(m, d, ps[i]);
    }
  }

  /**
   The verdict of the hybrid test on any odd number above 3, by arithmetic alone: w fits, every
   base has its symbol as power, and for the first number among bases and fallback that has the
   symbol wanted every later draw has the trace that it should.
   */
  lemma HybridMeans(m: Mont, bases: seq<nat>, fallback: seq<nat>, ps: seq<nat>)
    requires m.Ok() && m.w > 3 && DrawnBases(bases, m.w) && Drawn(fallback, m.w)
    requires forall k :: 0 <= k < |fallback| ==> fallback[k] < m.r
    requires forall k :: 0 <= k < |bases + fallback| ==> AllWithin(m, (bases + fallback)[k], ps)
    ensures var all := bases + fallback;
            HybridPasses(m, bases, fallback, ps)
            <==> (&& Fits(m.w) && (forall i :: 0 <= i < |bases| ==> SymbolIsPower(m.w, bases[i]))
                  && exists k: nat :: k < |all| && FirstWanted(m.w, all, k)
                       && forall i :: 0 <= i < |ps| ==> TraceIsPower(m.w, all[k], ps[i]))
  {
    hide Search, Jacobi, Fits, Answer, EulerPasses, TracePasses, TraceIsPower, AllWithin, Cong, FirstWanted, Target,
         SymbolIsPower;
    var all := bases + fallback;
    SolovayStrassenMeans(m.w, bases);
    FoundIff(m.w, all);
    if Search(all, m.w).0 {
      var k :| 0 <= k < |all| && Jacobi(all[k], m.w) == Target(m.w);
      var j := FirstExists(m.w, all, k);
      FirstIsFound(m.w, all, j);
      TraceMeans(m, all[j], ps);
    }
    forall k: nat | k < |all| && FirstWanted(m.w, all, k)
      ensures Fits(m.w) ==> Search(all, m.w) == (true, all[k])
    {
      FirstIsFound(m.w, all, k);
    }
    if k: nat :| k < |all| && FirstWanted(m.w, all, k) {
      WantedSymbol(m.w, all, k);
      TraceMeans(m, all[k], ps);
    }
  }

  // ---- primes -------------------------------------------------------------------------------

  /** On a prime a round with a base in range passes exactly when the prime fits. */
  lemma EulerOnPrime(w: nat, a: nat)
    requires Prime(w) && w % 2 == 1 && 0 < a < w
    ensures EulerHolds(w, a, Answer(a, w)) <==> Fits(w)
  {
    hide Pow, Cong, Jacobi, Fits, Prime, Answer;
    PrimeBig(w);
    AnswerIs(a, w);
    JacobiEuler(a, w);
    BelowNot(a, w);
    UnitOfPrime(w, a);
    if Fits(w) { DrawnFits(a, w); }
  }

  /** A prime passes the Solovay-Strassen test exactly when it fits, whatever bases are drawn. */
  lemma EulerAcceptsPrime(w: nat, bases: seq<nat>)
    requires Prime(w) && w % 2 == 1 && DrawnBases(bases, w)
    ensures w > 0 && (EulerPasses(w, bases) <==> Fits(w) || bases == [])
  {
    hide Prime, EulerHolds, Answer, Fits;
    PrimeBig(w);
    ThreeFits();
    forall i | 0 <= i < |bases|
      ensures EulerHolds(w, bases[i], Answer(bases[i], w)) <==> Fits(w)
    {
      EulerOnPrime(w, bases[i]);
    }
    assert bases != [] ==> (EulerHolds(w, bases[0], Answer(bases[0], w)) <==> Fits(w));
  }

  lemma ThreeFits()
    ensures Fits(3)
  {
    assert NumBits(3) == 2;
  }

  /** A number that does not fit is not accepted by the Solovay-Strassen test, unless it has no round to run. */
  lemma EulerRefusesLong(w: nat, bases: seq<nat>)
    requires !Fits(w)
    ensures w > 3 && (EulerPasses(w, bases) <==> bases == [])
  {
    hide Cong, Pow, Fits;
    LongIsLarge(w);
    if bases != [] { assert !EulerHolds(w, bases[0], Answer(bases[0], w)); }
  }

  lemma LongIsLarge(w: nat)
    requires !Fits(w)
    ensures w > 3
  {
    assert NumBits(0) == 0 && NumBits(1) == 1 && NumBits(2) == 2 && NumBits(3) == 2;
  }

  /** Nor is it by the hybrid test. */
  lemma HybridRefusesLong(m: Mont, bases: seq<nat>, fallback: seq<nat>, ps: seq<nat>)
    requires m.Ok() && !Fits(m.w)
    ensures !HybridPasses(m, bases, fallback, ps)
  {
    hide Search, Answer, Cong, Fits;
    LongIsLarge(m.w);
    LongFindsNothing(m.w, bases + fallback);
  }

  /** A prime passes the hybrid test exactly when a candidate is found and no number drawn is a square root of it. */
  lemma HybridOnPrime(m: Mont, bases: seq<nat>, fallback: seq<nat>, ps: seq<nat>)
    requires m.Ok() && Prime(m.w) && m.w > 3 && DrawnBases(bases, m.w)
    requires forall k :: 0 <= k < |fallback| ==> fallback[k] < m.r
    ensures var (found, d) := Search(bases + fallback, m.w);
            AllWithin(m, d, ps) ==>
              (HybridPasses(m, bases, fallback, ps) <==> found && NoRootDrawn(m.w, d, ps))
  {
    hide Prime, EulerPasses, TracePasses, Within, Delta, Div, Euler, Search, Answer, Fits, Cong, Jacobi;
    var (found, d) := Search(bases + fallback, m.w);
    EulerAcceptsPrime(m.w, bases);
    if found && AllWithin(m, d, ps) {
      FoundSymbol(m.w, d);
      EulerOf(m.w, d);
      forall i | 0 <= i < |ps|
        ensures TracePasses(m, d, ps[i]) <==> !Div(m.w, Delta(ps[i], d))
      {
        DrawOnPrime(m, d, ps[i]);
      }
    }
  }
}
