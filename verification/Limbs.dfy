/**
 The word loops under the constant-time tests: sums, differences, masked
 swaps and shifts on arrays of 64-bit words (crypto/bn/bn_prime.c,
 crypto/bn/bn_asm.c).
 */
module Limbs {
  import opened Primes
  import opened LucasTheory
  import opened Montgomery
  import opened CtGcd

  const WORD := 0x1_0000_0000_0000_0000
  const HALF := 0x8000_0000_0000_0000

  type word = x: int | 0 <= x < WORD

  /** WORD^n */
  function Base(n: nat): (b: nat)
    ensures b > 0
  {
    if n == 0 then 1 else WORD * Base(n - 1)
  }

  /** The number held in words, least significant first. */
  function Value(s: seq<word>): nat {
    if s == [] then 0 else Value(s[..|s| - 1]) + s[|s| - 1] * Base(|s| - 1)
  }

  lemma ValueStep(s: seq<word>, i: nat)
    requires i < |s|
    ensures Value(s[..i + 1]) == Value(s[..i]) + s[i] * Base(i)
  {
    assert s[..i + 1][..i] == s[..i];
  }

  lemma {:induction false} ValueBound(s: seq<word>)
    ensures Value(s) < Base(|s|)
    decreases |s|
  {
    if s != [] {
      var n := |s| - 1;
      ValueBound(s[..n]);
      TopWord(s[n], Base(n));
    }
  }

  lemma TopWord(x: word, b: nat)
    requires b > 0
    ensures x * b + b <= WORD * b
  {
    MulLe(x + 1, WORD, b);
    assert (x + 1) * b == x * b + b;
  }

  // ---- sums and differences ---------------------------------------------------------------

  lemma AddStep(vr: int, va: int, vb: int, c: int, x: int, a: int, b: int, c': int, base: int)
    requires vr + c * base == va + vb && x + c' * WORD == a + b + c
    ensures vr + x * base + c' * (WORD * base) == va + a * base + (vb + b * base)
  {
    assert (x + c' * WORD) * base == x * base + c' * (WORD * base);
    assert (a + b + c) * base == a * base + b * base + c * base;
  }

  /** bn_add_words; the sum may overwrite an operand. */
  method AddWords(r: array<word>, a: array<word>, b: array<word>) returns (carry: nat)
    requires r.Length == a.Length == b.Length
    modifies r
    ensures carry <= 1
    ensures Value(r[..]) + carry * Base(r.Length) == old(Value(a[..])) + old(Value(b[..]))
  {
    hide Value, Base;
    ghost var n, sa, sb := r.Length, a[..], b[..];
    carry := 0;
    Starts(sa);
    Starts(sb);
    Starts(r[..]);
    for i := 0 to r.Length
      invariant carry <= 1 && r.Length == n
      invariant forall k :: i <= k < n ==> a[k] == sa[k] && b[k] == sb[k]
      invariant Value(r[..i]) + carry * Base(i) == Value(sa[..i]) + Value(sb[..i])
    {
      ValueStep(sa, i);
      ValueStep(sb, i);
      BaseStep(i);
      ghost var before := r[..i];
      var sum := a[i] + b[i] + carry;
      var x, c := sum % WORD, sum / WORD;
      AddStep(Value(before), Value(sa[..i]), Value(sb[..i]), carry, x, sa[i], sb[i], c, Base(i));
      r[i], carry := x, c;
      ValueStep(r[..i + 1], i);
      assert r[..i + 1][..i + 1] == r[..i + 1] && r[..i + 1][..i] == before;
    }
    assert r[..n] == r[..] && sa[..n] == sa && sb[..n] == sb;
  }

  lemma Starts(s: seq<word>)
    ensures Value(s[..0]) == 0 && Base(0) == 1
  {
  }

  lemma BaseStep(i: nat)
    ensures Base(i + 1) == WORD * Base(i)
  {
  }

  /** bn_sub_words; the difference may overwrite an operand. */
  method SubWords(r: array<word>, a: array<word>, b: array<word>) returns (borrow: nat)
    requires r.Length == a.Length == b.Length
    modifies r
    ensures borrow <= 1
    ensures Value(r[..]) == old(Value(a[..])) - old(Value(b[..])) + borrow * Base(r.Length)
  {
    hide Value, Base;
    ghost var n, sa, sb := r.Length, a[..], b[..];
    borrow := 0;
    Starts(sa);
    Starts(sb);
    Starts(r[..]);
    for i := 0 to r.Length
      invariant borrow <= 1 && r.Length == n
      invariant forall k :: i <= k < n ==> a[k] == sa[k] && b[k] == sb[k]
      invariant Value(r[..i]) + Value(sb[..i]) == Value(sa[..i]) + borrow * Base(i)
    {
      ValueStep(sa, i);
      ValueStep(sb, i);
      BaseStep(i);
      ghost var before := r[..i];
      var diff := a[i] - b[i] - borrow;
      var x, c := if diff < 0 then diff + WORD else diff, if diff < 0 then 1 else 0;
      SubStep(Value(before), Value(sa[..i]), Value(sb[..i]), borrow, x, sa[i], sb[i], c, Base(i));
      r[i], borrow := x, c;
      ValueStep(r[..i + 1], i);
      assert r[..i + 1][..i + 1] == r[..i + 1] && r[..i + 1][..i] == before;
    }
    assert r[..n] == r[..] && sa[..n] == sa && sb[..n] == sb;
  }

  lemma SubStep(vr: int, va: int, vb: int, c: int, x: int, a: int, b: int, c': int, base: int)
    requires vr + vb == va + c * base && x + b + c == a + c' * WORD
    ensures vr + x * base + (vb + b * base) == va + a * base + c' * (WORD * base)
  {
    assert (x + b + c) * base == x * base + b * base + c * base;
    assert (a + c' * WORD) * base == a * base + c' * (WORD * base);
  }

  // ---- masked swaps -----------------------------------------------------------------------

  /** Bitwise exclusive or, and bitwise and. */
  function Xor(a: nat, b: nat): nat
    decreases a + b
  {
    if a == 0 && b == 0 then 0 else 2 * Xor(a / 2, b / 2) + (a + b) % 2
  }

  function And(a: nat, b: nat): nat {
    if a == 0 then 0 else 2 * And(a / 2, b / 2) + a % 2 * (b % 2)
  }

  lemma {:induction false} XorBack(a: nat, b: nat)
    ensures Xor(a, Xor(a, b)) == b && Xor(b, Xor(a, b)) == a
    decreases a + b
  {
    if a != 0 || b != 0 {
      XorBack(a / 2, b / 2);
      XorStep(a, b);
      XorStep(a, Xor(a, b));
      XorStep(b, Xor(a, b));
      hide Xor;
      var x, r := Xor(a / 2, b / 2), (a + b) % 2;
      Split(2 * x + r, x, r);
      Parities(a, b, r);
    }
  }

  lemma XorStep(a: nat, b: nat)
    ensures Xor(a, b) == 2 * Xor(a / 2, b / 2) + (a + b) % 2
  {
  }

  lemma Split(n: nat, x: nat, r: nat)
    requires n == 2 * x + r && r < 2
    ensures n / 2 == x && n % 2 == r
  {
  }

  lemma Parities(a: nat, b: nat, r: nat)
    requires r == (a + b) % 2
    ensures forall n: nat :: n % 2 == r ==> (a + n) % 2 == b % 2 && (b + n) % 2 == a % 2
  {
  }

  lemma {:induction false} XorZero(a: nat)
    ensures Xor(a, 0) == a && And(a, 0) == 0
    decreases a
  {
    if a != 0 { XorZero(a / 2); }
  }

  lemma {:induction false} AndOnes(t: nat, n: nat)
    requires t < Pow2(n)
    ensures And(t, Pow2(n) - 1) == t
    decreases n
  {
    if t != 0 {
      AndOnes(t / 2, n - 1);
      Split(Pow2(n) - 1, Pow2(n - 1) - 1, 1);
    }
  }

  lemma {:induction false} XorFits(a: nat, b: nat, n: nat)
    requires a < Pow2(n) && b < Pow2(n)
    ensures Xor(a, b) < Pow2(n)
    decreases n
  {
    if a != 0 || b != 0 { XorFits(a / 2, b / 2, n - 1); }
  }

  /** 0 - swap, as a word. */
  function Mask(swap: bool): word {
    if swap then WORD - 1 else 0
  }

  /** The difference of two words under the mask. */
  function Masked(x: word, y: word, swap: bool): nat {
    And(Xor(x, y), Mask(swap))
  }

  /** The exclusive-or swap of ct_swap_arrays: all ones exchange two words, all zeros leave them. */
  lemma MaskedSwap(x: word, y: word, swap: bool)
    ensures Xor(x, Masked(x, y, swap)) == if swap then y else x
    ensures Xor(y, Masked(x, y, swap)) == if swap then x else y
  {
    hide Xor, And;
    WordPower();
    hide Pow2;
    if swap {
      XorFits(x, y, 64);
      AndOnes(Xor(x, y), 64);
      XorBack(x, y);
    } else {
      XorZero(Xor(x, y));
      XorZero(x);
      XorZero(y);
    }
  }

  /** ct_swap_arrays */
  method SwapWords(swap: bool, a: array<word>, b: array<word>)
    requires a.Length == b.Length && a != b
    modifies a, b
    ensures a[..] == if swap then old(b[..]) else old(a[..])
    ensures b[..] == if swap then old(a[..]) else old(b[..])
  {
    hide Xor, Masked;
    for i := 0 to a.Length
      invariant forall k :: 0 <= k < i ==>
                  a[k] == (if swap then old(b[k]) else old(a[k])) && b[k] == if swap then old(a[k]) else old(b[k])
      invariant forall k :: i <= k < a.Length ==> a[k] == old(a[k]) && b[k] == old(b[k])
    {
      var tmp := Masked(a[i], b[i], swap);
      MaskedSwap(a[i], b[i], swap);
      a[i], b[i] := Xor(a[i], tmp), Xor(b[i], tmp);
    }
  }

  /** The sign bit of v | -v. */
  function SignBit(v: bv64): bv64 {
    (v | (!v + 1)) >> 63
  }

  /** The sign-bit test of ct_bn_equal: one exactly when a word is not zero. */
  lemma NonZeroBit(v: bv64)
    ensures SignBit(v) == if v == 0 then 0 else 1
  {
  }

  /** The difference of two words, and differences put together. */
  function Difference(a: bv64, b: bv64): bv64 {
    a ^ b
  }

  function Together(v: bv64, t: bv64): bv64 {
    v | t
  }

  lemma DifferenceZero(a: bv64, b: bv64)
    ensures Difference(a, b) == 0 <==> a == b
  {
    if Difference(a, b) == 0 { XorSame(a, b); } else { XorSame(a, a); }
  }

  lemma XorSame(a: bv64, b: bv64)
    ensures a ^ (a ^ b) == b && a ^ a == 0 && a ^ 0 == a
  {
  }

  lemma TogetherZero(v: bv64, t: bv64)
    ensures Together(v, t) == 0 <==> v == 0 && t == 0
  {
  }

  /** ct_bn_equal: equal words or not, by way of one accumulated difference. */
  method EqualWords(a: array<bv64>, b: array<bv64>) returns (equal: bool)
    requires a.Length == b.Length
    ensures equal <==> a[..] == b[..]
  {
    hide Difference, Together, SignBit;
    var diff: bv64 := 0;
    for k := 0 to a.Length
      invariant diff == 0 <==> forall i :: 0 <= i < k ==> a[i] == b[i]
    {
      var t := Difference(a[k], b[k]);
      DifferenceZero(a[k], b[k]);
      TogetherZero(diff, t);
      diff := Together(diff, t);
    }
    NonZeroBit(diff);
    equal := SignBit(diff) == 0;
    assert a[..] == b[..] ==> forall i :: 0 <= i < a.Length ==> a[i] == a[..][i] && b[i] == b[..][i];
  }

  /** The registers of a test as a context, for ct_mod_add and ct_mod_sub. */
  ghost function Registers(m: seq<word>): Mont {
    Mont(Value(m), Base(|m|), 0)
  }

  /** ct_mod_add: sum, trial subtraction, swap. */
  method ModAddWords(r: array<word>, a: array<word>, b: array<word>, m: array<word>, tmp: array<word>)
    requires r.Length == a.Length == b.Length == m.Length == tmp.Length
    requires tmp != r && tmp != a && tmp != b && tmp != m && r != m
    modifies r, tmp
    ensures Value(r[..]) == old(Registers(m[..]).Plus(Value(a[..]), Value(b[..])))
  {
    hide Value, Base;
    ghost var x, y, w, base := Value(a[..]), Value(b[..]), Value(m[..]), Base(r.Length);
    ValueBound(m[..]);
    var carry := AddWords(r, a, b);
    ghost var sum := Value(r[..]);
    ValueBound(r[..]);
    var borrow := SubWords(tmp, r, m);
    ValueBound(tmp[..]);
    PlusBits(x, y, w, base, sum, carry, Value(tmp[..]), borrow);
    SwapWords(carry == 1 || borrow == 0, r, tmp);
  }

  lemma PlusBits(x: nat, y: nat, w: nat, base: nat, sum: nat, carry: nat, diff: nat, borrow: nat)
    requires base > 0 && carry <= 1 && borrow <= 1 && sum < base && diff < base
    requires sum + carry * base == x + y && diff == sum - w + borrow * base && w < base
    ensures Mont(w, base, 0).Plus(x, y) == if carry == 1 || borrow == 0 then diff else sum
  {
    if carry == 1 {
      assert x + y - w == diff + base * (1 - borrow);
      Shifted(diff, 1 - borrow, base);
      SmallMod(diff, base);
    } else if borrow == 0 {
      SmallMod(diff, base);
    }
  }

  /** ct_mod_sub: difference, trial addition, swap. */
  method ModSubWords(r: array<word>, a: array<word>, b: array<word>, m: array<word>, tmp: array<word>)
    requires r.Length == a.Length == b.Length == m.Length == tmp.Length
    requires tmp != r && tmp != a && tmp != b && tmp != m && r != m
    modifies r, tmp
    ensures Value(r[..]) == old(Registers(m[..]).Minus(Value(a[..]), Value(b[..])))
  {
    hide Value, Base;
    ghost var x, y, w, base := Value(a[..]), Value(b[..]), Value(m[..]), Base(r.Length);
    ValueBound(a[..]);
    ValueBound(b[..]);
    var borrow := SubWords(r, a, b);
    ghost var diff := Value(r[..]);
    ValueBound(r[..]);
    var carry := AddWords(tmp, r, m);
    ValueBound(tmp[..]);
    MinusBits(x, y, w, base, diff, borrow, Value(tmp[..]), carry);
    SwapWords(borrow == 1, r, tmp);
  }

  lemma MinusBits(x: nat, y: nat, w: nat, base: nat, diff: nat, borrow: nat, sum: nat, carry: nat)
    requires base > 0 && carry <= 1 && borrow <= 1 && sum < base && diff < base && x < base && y < base
    requires diff == x - y + borrow * base && sum + carry * base == diff + w
    ensures Mont(w, base, 0).Minus(x, y) == if borrow == 1 then sum else diff
  {
    if borrow == 1 {
      assert x - y + w == sum + base * (carry - 1);
      Shifted(sum, carry - 1, base);
      SmallMod(sum, base);
    }
  }

  // ---- the exponent ---------------------------------------------------------------------------

  lemma {:induction false} ValueFront(s: seq<word>)
    requires s != []
    ensures Value(s) == s[0] + WORD * Value(s[1..])
    decreases |s|
  {
    hide Value;
    var n := |s| - 1;
    ValueSplit(s);
    if n == 0 {
      assert s[..0] == [] && s[1..] == [];
      ValueEmpty();
    } else {
      ValueFront(s[..n]);
      ValueSplit(s[1..]);
      assert s[1..][..n - 1] == s[..n][1..] && s[1..][n - 1] == s[n];
      BaseStep(n - 1);
      var v, x, b := Value(s[..n][1..]), s[n], Base(n - 1);
      assert WORD * (v + x * b) == WORD * v + x * (WORD * b);
    }
  }

  lemma ValueEmpty()
    ensures Value([]) == 0 && Base(0) == 1
  {
  }

  lemma ValueSplit(s: seq<word>)
    requires s != []
    ensures Value(s) == Value(s[..|s| - 1]) + s[|s| - 1] * Base(|s| - 1)
  {
  }

  /** ct_bn_rshift1, from the top word down. */
  method ShiftRight(a: array<word>)
    modifies a
    ensures Value(a[..]) == old(Value(a[..])) / 2
  {
    hide Value;
    ghost var s := a[..];
    var carry: nat, i := 0, a.Length;
    ValueEmpty();
    assert s[a.Length..] == [] && a[a.Length..] == [];
    while i > 0
      invariant 0 <= i <= a.Length && carry <= 1
      invariant forall k :: 0 <= k < i ==> a[k] == s[k]
      invariant 2 * Value(a[i..]) + carry == Value(s[i..])
    {
      i := i - 1;
      ValueFront(s[i..]);
      assert s[i..][1..] == s[i + 1..];
      ghost var rest := a[i + 1..];
      var next := a[i] % 2;
      a[i] := a[i] / 2 + carry * HALF;
      carry := next;
      ValueFront(a[i..]);
      assert a[i..][1..] == rest;
    }
    assert a[0..] == a[..] && s[0..] == s;
  }

  /** A sum of two words as a word. */
  function Wrap(x: nat): word
    requires x < 2 * WORD
  {
    if x >= WORD then x - WORD else x
  }

  /** The loop of ct_bn_add_word, with its last carry. */
  method AddWordCarry(a: array<word>, x: word) returns (c: word)
    modifies a
    ensures Value(a[..]) + c * Base(a.Length) == old(Value(a[..])) + x
  {
    hide Value, Base;
    ghost var n, s := a.Length, a[..];
    c := x;
    Starts(s);
    for i := 0 to a.Length
      invariant forall k :: i <= k < n ==> a[k] == s[k]
      invariant Value(a[..i]) + c * Base(i) == Value(s[..i]) + x
    {
      ValueStep(s, i);
      BaseStep(i);
      ghost var before := a[..i];
      var sum := Wrap(a[i] + c);
      var next: word := if sum < a[i] then 1 else 0;
      AddStep(Value(before), Value(s[..i]), x, c, sum, s[i], 0, next, Base(i));
      a[i], c := sum, next;
      ValueStep(a[..i + 1], i);
      assert a[..i + 1][..i + 1] == a[..i + 1] && a[..i + 1][..i] == before;
    }
    assert a[..n] == a[..] && s[..n] == s;
  }

  /** ct_bn_add_word: a carry out of the top word is lost. */
  method AddWord(a: array<word>, x: word)
    modifies a
    ensures Value(a[..]) == (old(Value(a[..])) + x) % Base(a.Length)
  {
    hide Value, Base;
    var c := AddWordCarry(a, x);
    ValueBound(a[..]);
    Shifted(Value(a[..]), c, Base(a.Length));
    SmallMod(Value(a[..]), Base(a.Length));
    assert Value(a[..]) + Base(a.Length) * c == Value(a[..]) + c * Base(a.Length);
  }

  lemma LowBits(s: seq<word>)
    requires s != []
    ensures Value(s) % 4 == s[0] % 4 && Value(s) % 2 == s[0] % 2
  {
    hide Value;
    ValueFront(s);
    var v, q, r := Value(s[1..]), s[0] / 4, s[0] % 4;
    assert s[0] == 4 * q + r;
    Mod4(Value(s), q + WORD / 4 * v, r);
    Halves(Value(s), q + WORD / 4 * v, r);
    Halves(s[0], q, r);
  }

  lemma Halves(x: nat, q: nat, r: nat)
    requires x == 4 * q + r && r < 4
    ensures x % 2 == r % 2
  {
    Mod2(x, 2 * q + r / 2, r % 2);
  }

  /** The exponent of the Lucas tests, computed on words. */
  method ExponentWords(e: array<word>, w: array<word>)
    requires e.Length == w.Length > 0 && e != w && Value(w[..]) % 2 == 1 && Value(w[..]) > 1
    modifies e
    ensures Value(e[..]) == Exponent(Value(w[..]))
  {
    hide Value, Base;
    for i := 0 to w.Length
      invariant forall k :: 0 <= k < i ==> e[k] == w[k]
    {
      e[i] := w[i];
    }
    assert e[..] == w[..];
    ShiftRight(e);
    var threeMod4 := w[0] / 2 % 2 == 1;
    LowBits(w[..]);
    BitOne(w[0]);
    AddWord(e, if threeMod4 then 0 else 1);
    ValueBound(w[..]);
    SmallMod(Exponent(Value(w[..])), Base(e.Length));
  }

  lemma BitOne(x: word)
    requires x % 2 == 1
    ensures x / 2 % 2 == 1 <==> x % 4 == 3
  {
    var b := x / 2;
    assert x == 2 * b + 1;
    var c, s := b / 2, b % 2;
    assert b == 2 * c + s;
    Mod4(x, c, 2 * s + 1);
  }
}
