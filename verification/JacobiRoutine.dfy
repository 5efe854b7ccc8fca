/**
 The constant-time Jacobi symbol of crypto/bn/bn_prime.c, on numbers of any
 size and sign.
 */
module JacobiRoutine {
  import opened Primes
  import opened QuadRing
  import opened LucasTheory
  import opened Montgomery
  import opened CtGcd
  import opened JacobiSymbol
  import opened DivSteps
  import opened DivBound

  const INPUT_BITS: nat := 2048
  const WORK_BITS: nat := 2176
  const BATCH: nat := 60

  /** How many batches the loop runs. */
  function Loops(bits: nat): nat {
    ((45907 * bits + 26313) / 19929 + BATCH - 1) / BATCH + 2
  }

  /** The number fits the buffer. */
  predicate Fits(x: int) {
    NumBits(Abs(x)) <= INPUT_BITS
  }

  /** The absolute value as the buffer holds it: a number too long for it is left as zero. */
  function Loaded(x: int): nat {
    if Fits(x) then Abs(x) else 0
  }

  lemma LoadedFits(x: int)
    ensures Loaded(x) <= Pow2(INPUT_BITS)
  {
    hide Pow2;
    NumBitsIs(Abs(x));
    var n := NumBits(Abs(x));
    if n <= INPUT_BITS {
      Pow2Mono(n, INPUT_BITS);
    }
  }

  lemma Pow2Mono(m: nat, n: nat)
    requires m <= n
    ensures Pow2(m) <= Pow2(n)
  {
    hide Pow2;
    Pow2Add(m, n - m);
    MulLe(1, Pow2(n - m), Pow2(m));
  }

  lemma LoadedOdd(y: int)
    requires Odd(Loaded(y))
    ensures Odd(y) && Loaded(y) == Abs(y)
  {
    hide NumBits;
    OddAbs(Abs(y));
    if y < 0 { OddNegated(y); }
  }

  lemma OddNegated(y: int)
    requires Odd(-y)
    ensures Odd(y)
  {
    var k := -y / 2;
    assert y == 2 * (-k - 1) + 1;
  }

  /** The symbol of x over an odd y of any sign. */
  ghost function Kronecker(x: int, y: int): (j: int)
    requires Odd(y)
  {
    OddAbs(y);
    (if x < 0 && y < 0 then -1 else 1) * Jacobi(x, Abs(y))
  }

  /** The steps that all batches together run. */
  function Turns(): nat {
    Loops(INPUT_BITS) * BATCH
  }

  /** They are enough for the buffer. */
  lemma TurnsAre()
    ensures Turns() == 45 * 108 && 19 * 108 == INPUT_BITS + 4
  {
  }

  /**
   The answer of the routine: the symbol for an odd y that fits, and otherwise 0. An x that
   does not fit is read as zero.
   */
  ghost function Answer(x: int, y: int): (j: int)
    ensures j == -1 || j == 0 || j == 1
  {
    if Odd(y) && Fits(y) && (Fits(x) || Abs(y) == 1) then Kronecker(x, y) else 0
  }

  /** The loaded numbers and the sign worked out beside them give the symbol of the arguments. */
  lemma LoadedSymbol(x: int, y: int, k: nat)
    requires Odd(Loaded(y)) && Abs(Steps(Pair(Loaded(x), Loaded(y), 0), k).y) == 1
    ensures Odd(y)
    ensures Kronecker(x, y)
         == (if x < 0 && y < 0 then -1 else 1) * ((if x < 0 then MinusSign(Loaded(y)) else 1) * Jacobi(Loaded(x), Loaded(y)))
  {
    hide Jacobi, Odd, Step, NumBits;
    LoadedOdd(y);
    var n := Abs(y);
    JacobiAbs(x, n);
    if Loaded(x) != Abs(x) {
      ZeroStays(Pair(0, n, 0), k);
      JacobiOne(Abs(x));
      JacobiOne(0);
    }
  }

  /** Numbers that fit end at 1 or -1 exactly when they are coprime. */
  lemma ShortEnds(x: int, n: nat)
    requires Odd(n) && n <= Pow2(INPUT_BITS) && Abs(x) <= Pow2(INPUT_BITS)
    ensures Abs(Steps(Pair(Abs(x), n, 0), Turns()).y) == 1 <==> Jacobi(x, n) != 0
  {
    hide Jacobi, Step, Steps, Coprime, Pow2, Turns, MinusSign, Track, BitsValue;
    var s := Pair(Abs(x), n, 0);
    TurnsAre();
    NotZeroOdd(n);
    AbsOfNat(Abs(x));
    JacobiAbs(x, n);
    MinusIsSign(n);
    if Abs(Steps(s, Turns()).y) == 1 { EndSymbol(s, Turns()); }
    if Jacobi(x, n) != 0 { CoprimeEnds(s, INPUT_BITS, 108); }
  }

  lemma MinusIsSign(n: nat)
    ensures MinusSign(n) == 1 || MinusSign(n) == -1
  {
  }

  /** The steps on the loaded numbers end at 1 or -1 exactly when the answer is not 0. */
  lemma EndsIff(x: int, y: int)
    requires Odd(Loaded(y))
    ensures Abs(Steps(Pair(Loaded(x), Loaded(y), 0), Turns()).y) == 1 <==> Answer(x, y) != 0
  {
    hide Jacobi, Odd, Step, Steps, Fits, Pow2, Turns, Kronecker;
    LoadedOdd(y);
    KroneckerIs(x, y);
    NotZeroOdd(y);
    LoadedFits(x);
    LoadedFits(y);
    if Fits(x) {
      ShortEnds(x, Abs(y));
    } else {
      ZeroStays(Pair(0, Abs(y), 0), Turns());
      JacobiOne(x);
    }
  }

  lemma KroneckerIs(x: int, y: int)
    requires Odd(y)
    ensures Odd(Abs(y)) && (Kronecker(x, y) == 0 <==> Jacobi(x, Abs(y)) == 0)
  {
    OddAbs(y);
    hide Jacobi;
  }

  /**
   ossl_bn_jacobi_by: on every pair of numbers, of any sign, the answer is the symbol if they
   fit the buffers, which hold 2048 bits.
   */
  method JacobiBy(x: int, y: int) returns (j: int)
    ensures j == Answer(x, y)
  {
    hide Odd, Step, Steps, Pow2, Loaded, Track, Flips, SymbolBits, WithSign, Jacobi, Kronecker, BitsValue, Abs,
         MinusSign, Loops, Answer;
    var a: int, b: int := Loaded(x), Loaded(y);
    if !Odd(b) {
      NotLoaded(x, y);
      return 0;
    }
    EndsIff(x, y);
    NotZeroOdd(b);
    LoadedFits(x);
    LoadedFits(y);
    AbsOfNat(Loaded(x));
    AbsOfNat(Loaded(y));
    var sign := if x < 0 && y < 0 then -1 else 1;
    if x < 0 { sign := sign * MinusSign(Loaded(y)); }
    ghost var s := Pair(a, b, 0);
    var delta: int, t: nat := 0, 0;
    StepsZero(s);
    for i := 0 to Loops(INPUT_BITS)
      invariant Odd(b) && Pair(a, b, delta) == Steps(s, i * BATCH) && t == Track(s, 0, i * BATCH)
      invariant TracksSign(t, b)
      invariant Abs(a) <= Pow2(INPUT_BITS) && Abs(b) <= Pow2(INPUT_BITS)
    {
      var na, nb, next, u := Batch(a, b, delta, BATCH, t, INPUT_BITS, WORK_BITS);
      StepsAdd(s, i * BATCH, BATCH);
      TrackAdd(s, 0, i * BATCH, BATCH);
      TrackSymbol(s, 0, i * BATCH + BATCH);
      a, b, delta, t := na, nb, next, WithSign((t + u) % 4, nb);
    }
    j := if Abs(b) == 1 then sign * BitsValue(t) else 0;
    if Abs(b) == 1 {
      EndSymbol(s, Turns());
      LoadedSymbol(x, y, Turns());
      NotZeroAnswer(x, y);
    }
  }

  lemma NotLoaded(x: int, y: int)
    requires !Odd(Loaded(y))
    ensures Answer(x, y) == 0
  {
    hide Jacobi, NumBits;
    if Odd(y) { OddAbs(y); }
  }

  lemma NotZeroAnswer(x: int, y: int)
    requires Answer(x, y) != 0
    ensures Odd(y) && Answer(x, y) == Kronecker(x, y)
  {
  }

  lemma AbsOfNat(n: nat)
    ensures Abs(n) == n
  {
  }

  lemma StepsZero(s: Pair)
    ensures Steps(s, 0) == s && Track(s, 0, 0) == 0
  {
  }
}
