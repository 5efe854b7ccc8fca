/**
 The functional agreement of the primality tests of crypto/bn/bn_prime.c
 that test_prime_tests.c looks for, on primes.
 */
module PrimeAgreement {
  import opened Primes
  import opened QuadRing
  import opened LucasTheory
  import opened Montgomery
  import opened JacobiSymbol
  import opened JacobiRoutine
  import opened LucasTests
  import opened HybridTest
  import opened MillerRabin

  /** One of the candidates has the symbol the Lucas rounds want. */
  ghost predicate HasCandidate(w: nat, cands: seq<nat>)
    requires w % 2 == 1
  {
    exists k :: 0 <= k < |cands| && Jacobi(cands[k], w) == Target(w)
  }

  /**
   What each of the tests answers for a prime of at most 2048 bits, whatever is drawn: both
   Miller-Rabin tests and the Solovay-Strassen test accept it; the Lucas and the hybrid test
   do so exactly when some candidate has the wanted symbol and no number drawn is a square
   root of the first such, which for a prime that is 1 modulo 4 none can be.
   */
  lemma TestsOnPrimes(m: Mont, strong: seq<nat>, euler: seq<nat>, cands: seq<nat>, ps: seq<nat>)
    requires m.Ok() && Prime(m.w) && m.w > 3 && Fits(m.w)
    requires DrawnBases(strong, m.w) && DrawnBases(euler, m.w) && DrawnBases(cands, m.w)
    ensures forall i :: 0 <= i < |strong| ==> StrongBase(m.w, strong[i])
    ensures EulerPasses(m.w, euler)
    ensures LucasPasses(m, cands, ps)
       <==> HasCandidate(m.w, cands) && NoRootDrawn(m.w, Search(cands, m.w).1, ps)
    ensures HybridPasses(m, euler, cands, ps)
       <==> HasCandidate(m.w, euler + cands) && NoRootDrawn(m.w, Search(euler + cands, m.w).1, ps)
    ensures m.w % 4 == 1 ==> (LucasPasses(m, cands, ps) <==> HasCandidate(m.w, cands))
    ensures m.w % 4 == 1 ==> (HybridPasses(m, euler, cands, ps) <==> HasCandidate(m.w, euler + cands))
  {
    hide Prime, StrongBase, EulerPasses, LucasPasses, HybridPasses, Search, Fits, NoRootDrawn, AllWithin, Cong, Jacobi;
    StrongOnPrimes(m.w, strong);
    EulerAcceptsPrime(m.w, euler);
    LucasOnPrimes(m, cands, ps);
    HybridOnPrimes(m, euler, cands, ps);
  }

  lemma LucasOnPrimes(m: Mont, cands: seq<nat>, ps: seq<nat>)
    requires m.Ok() && Prime(m.w) && Fits(m.w) && DrawnBases(cands, m.w)
    ensures LucasPasses(m, cands, ps)
       <==> HasCandidate(m.w, cands) && NoRootDrawn(m.w, Search(cands, m.w).1, ps)
    ensures m.w % 4 == 1 ==> (LucasPasses(m, cands, ps) <==> HasCandidate(m.w, cands))
  {
    hide Prime, LucasPasses, Search, Fits, NoRootDrawn, AllWithin, Cong, Jacobi;
    FoundIff(m.w, cands);
    LucasOnPrime(m, cands, ps);
    BelowIsWithin(m, cands, ps);
    if m.w % 4 == 1 { LucasAcceptsPrime(m, cands, ps); }
  }

  lemma HybridOnPrimes(m: Mont, euler: seq<nat>, cands: seq<nat>, ps: seq<nat>)
    requires m.Ok() && Prime(m.w) && m.w > 3 && Fits(m.w)
    requires DrawnBases(euler, m.w) && DrawnBases(cands, m.w)
    ensures HybridPasses(m, euler, cands, ps)
       <==> HasCandidate(m.w, euler + cands) && NoRootDrawn(m.w, Search(euler + cands, m.w).1, ps)
    ensures m.w % 4 == 1 ==> (HybridPasses(m, euler, cands, ps) <==> HasCandidate(m.w, euler + cands))
  {
    hide Prime, HybridPasses, Search, Fits, NoRootDrawn, AllWithin, Cong, Jacobi, Answer;
    var all := euler + cands;
    FoundIff(m.w, all);
    HybridOnPrime(m, euler, cands, ps);
    BelowIsWithin(m, all, ps);
    if m.w % 4 == 1 && Search(all, m.w).0 { NeverARoot(m.w, Search(all, m.w).1, ps); }
  }

  lemma StrongOnPrimes(w: nat, strong: seq<nat>)
    requires Prime(w) && DrawnBases(strong, w)
    ensures w > 1 && forall i :: 0 <= i < |strong| ==> StrongBase(w, strong[i])
  {
    hide Prime, StrongBase;
    PrimeBig(w);
    forall i | 0 <= i < |strong|
      ensures StrongBase(w, strong[i])
    {
      BelowNot(strong[i], w);
      StrongBaseOfPrime(w, strong[i]);
    }
  }

  /**
   Above 2048 bits the tests part on every prime: Miller-Rabin accepts it, and the tests
   that use the symbol refuse it, Solovay-Strassen as soon as it runs a round.
   */
  lemma TestsOnLongPrimes(m: Mont, strong: seq<nat>, euler: seq<nat>, cands: seq<nat>, ps: seq<nat>)
    requires m.Ok() && Prime(m.w) && !Fits(m.w) && DrawnBases(strong, m.w)
    ensures m.w > 3 && forall i :: 0 <= i < |strong| ==> StrongBase(m.w, strong[i])
    ensures EulerPasses(m.w, euler) <==> euler == []
    ensures !LucasPasses(m, cands, ps) && !HybridPasses(m, euler, cands, ps)
  {
    hide Prime, StrongBase, EulerPasses, LucasPasses, HybridPasses, Fits, Cong;
    StrongOnPrimes(m.w, strong);
    EulerRefusesLong(m.w, euler);
    LongRefused(m, cands, ps);
    HybridRefusesLong(m, euler, cands, ps);
  }
}
