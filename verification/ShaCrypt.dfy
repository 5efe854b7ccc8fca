/**
 SHA-crypt (apps/passwd.c): the specification of Ulrich Drepper's "Unix crypt
 using SHA-256 and SHA-512" as short functions over an abstract hash, and the
 loops of shacrypt proved against it.
 */
module ShaCrypt {
  import opened CText
  import opened Crypt64
  import opened CryptText

  /** A digest algorithm: a function of the concatenated updates with a fixed output length. */
  datatype Md = Md(kind: Kind, hash: bytes -> bytes) {
    ghost predicate Ok() {
      forall m: bytes :: |hash(m)| == kind.Size()
    }
  }

  // ---- the specification -----------------------------------------------------------------

  /** The first n bytes of d, d, d, ... */
  function Cyclic(d: bytes, n: nat): (r: bytes)
    requires d != []
    ensures |r| == n
  {
    seq(n, i requires 0 <= i < n => d[i % |d|])
  }

  function Repeat(s: bytes, n: nat): bytes {
    if n == 0 then [] else s + Repeat(s, n - 1)
  }

  /** For each bit of n, lowest first: `one` for a set bit, `zero` for a clear one. */
  function Mix(n: nat, one: bytes, zero: bytes): bytes {
    if n == 0 then [] else (if n % 2 == 1 then one else zero) + Mix(n / 2, one, zero)
  }

  ghost function DigestB(md: Md, pw: bytes, salt: bytes): bytes {
    md.hash(pw + salt + pw)
  }

  ghost function DigestA(md: Md, pw: bytes, salt: bytes): bytes
    requires md.Ok()
  {
    var b := DigestB(md, pw, salt);
    md.hash(pw + salt + Cyclic(b, |pw|) + Mix(|pw|, b, pw))
  }

  ghost function P(md: Md, pw: bytes): bytes
    requires md.Ok()
  {
    Cyclic(md.hash(Repeat(pw, |pw|)), |pw|)
  }

  ghost function S(md: Md, a: bytes, salt: bytes): bytes
    requires md.Ok() && a != []
  {
    Cyclic(md.hash(Repeat(salt, a[0] as int + 16)), |salt|)
  }

  function RoundInput(n: nat, c: bytes, p: bytes, s: bytes): bytes {
    (if n % 2 == 1 then p else c)
    + (if n % 3 != 0 then s else [])
    + (if n % 7 != 0 then p else [])
    + (if n % 2 == 1 then c else p)
  }

  ghost function Rounds(md: Md, a: bytes, p: bytes, s: bytes, n: nat): bytes {
    if n == 0 then a else md.hash(RoundInput(n - 1, Rounds(md, a, p, s, n - 1), p, s))
  }

  ghost function Digest(md: Md, pw: bytes, salt: bytes, rounds: nat): (d: bytes)
    requires md.Ok()
    ensures |d| == md.kind.Size()
  {
    var a := DigestA(md, pw, salt);
    Rounds(md, a, P(md, pw), S(md, a, salt), rounds)
  }

  /** "$5$" or "$6$", the rounds field if one was given, and the salt. */
  function Header(magic: byte, p: SaltSpec): bytes {
    [DOLLAR, magic, DOLLAR] + SaltText(p)
  }

  /** The algorithms behind the two magic strings. */
  ghost predicate Algorithms(sha256: Md, sha512: Md) {
    sha256.Ok() && sha512.Ok() && sha256.kind == Sha256 && sha512.kind == Sha512
  }

  function Select(sha256: Md, sha512: Md, magic: bytes): Option<Md> {
    if magic == [0x35] then Some(sha256) else if magic == [0x36] then Some(sha512) else None
  }

  /**
   The whole result. An empty password or salt fails, because a buffer of no
   bytes cannot be allocated.
   */
  ghost function Crypt(sha256: Md, sha512: Md, pw: bytes, magic: bytes, arg: bytes): Option<bytes>
    requires Algorithms(sha256, sha512)
  {
    var md := Select(sha256, sha512, magic);
    var p := ParseSalt(arg);
    if md.None? || p.None? || pw == [] || p.value.salt == [] then None
    else
      Some(Header(magic[0], p.value) + [DOLLAR]
           + Print(md.value.kind, Digest(md.value, pw, p.value.salt, p.value.rounds)))
  }

  // ---- what is fed to the hash, by position ------------------------------------------------

  function TwoTo(k: nat): (p: nat)
    ensures p > 0
  {
    if k == 0 then 1 else 2 * TwoTo(k - 1)
  }

  /** Bit k of n. */
  predicate BitSet(n: nat, k: nat) {
    n / TwoTo(k) % 2 == 1
  }

  /**
   One block for each bit of n up to its highest, lowest first, cut at `cuts`: `one` where the
   bit is set and `zero` where it is not.
   */
  ghost predicate BitBlocks(n: nat, one: bytes, zero: bytes, m: bytes, cuts: seq<nat>) {
    && cuts != [] && cuts[0] == 0 && cuts[|cuts| - 1] == |m|
    && n < TwoTo(|cuts| - 1) && (n > 0 ==> |cuts| > 1 && TwoTo(|cuts| - 2) <= n) && (n == 0 ==> |cuts| == 1)
    && forall k :: 0 <= k < |cuts| - 1 ==> BlockIs(m, cuts, k, if BitSet(n, k) then one else zero)
  }

  predicate BlockIs(m: bytes, cuts: seq<nat>, k: nat, block: bytes)
    requires k + 1 < |cuts|
  {
    cuts[k] <= cuts[k + 1] <= |m| && m[cuts[k]..cuts[k + 1]] == block
  }

  lemma BitShift(n: nat, k: nat)
    ensures BitSet(n, k + 1) == BitSet(n / 2, k)
  {
    var p := TwoTo(k);
    assert TwoTo(k + 1) == 2 * p;
    hide TwoTo;
    HalfThen(n, p);
  }

  lemma HalfThen(n: nat, p: nat)
    requires p > 0
    ensures n / (2 * p) == n / 2 / p
  {
    var h, b := n / 2, n % 2;
    var q, r := h / p, h % p;
    assert n == 2 * h + b && h == q * p + r;
    assert n == q * (2 * p) + (2 * r + b) by { assert 2 * (q * p) == q * (2 * p); }
    QuotNat(h, p);
    ModUnique(n, 2 * p, q, 2 * r + b);
  }

  lemma QuotNat(h: nat, p: nat)
    requires p > 0
    ensures h / p >= 0
  {
    var q := h / p;
    assert h == q * p + h % p;
  }

  /** The mixing is such a row of blocks. */
  lemma {:induction false} MixBlocks(n: nat, one: bytes, zero: bytes) returns (cuts: seq<nat>)
    ensures BitBlocks(n, one, zero, Mix(n, one, zero), cuts)
    decreases n
  {
    if n == 0 {
      cuts := [0];
    } else {
      var rest := MixBlocks(n / 2, one, zero);
      var block := if n % 2 == 1 then one else zero;
      var f := |block|;
      cuts := [0] + seq(|rest|, i requires 0 <= i < |rest| => rest[i] + f);
      MixStep(n, one, zero, rest, cuts);
    }
  }

  lemma MixStep(n: nat, one: bytes, zero: bytes, rest: seq<nat>, cuts: seq<nat>)
    requires n > 0 && BitBlocks(n / 2, one, zero, Mix(n / 2, one, zero), rest)
    requires |cuts| == |rest| + 1 && cuts[0] == 0
    requires forall i :: 0 <= i < |rest| ==> cuts[i + 1] == rest[i] + |if n % 2 == 1 then one else zero|
    ensures BitBlocks(n, one, zero, Mix(n, one, zero), cuts)
  {
    hide BitSet, TwoTo, BlockIs;
    var block, tail := if n % 2 == 1 then one else zero, Mix(n / 2, one, zero);
    MixFirst(n, one, zero);
    hide Mix;
    LowestBit(n);
    FirstBlock(block, tail, cuts);
    forall k | 0 < k < |cuts| - 1
      ensures BlockIs(block + tail, cuts, k, if BitSet(n, k) then one else zero)
    {
      BitShift(n, k - 1);
      assert BlockIs(tail, rest, k - 1, if BitSet(n / 2, k - 1) then one else zero);
      LaterBlock(block, tail, rest, cuts, k, if BitSet(n, k) then one else zero);
    }
    MoreBits(n, |rest|);
  }

  lemma MixFirst(n: nat, one: bytes, zero: bytes)
    requires n > 0
    ensures Mix(n, one, zero) == (if n % 2 == 1 then one else zero) + Mix(n / 2, one, zero)
  {
  }

  lemma FirstBlock(block: bytes, tail: bytes, cuts: seq<nat>)
    requires |cuts| > 1 && cuts[0] == 0 && cuts[1] == |block|
    ensures BlockIs(block + tail, cuts, 0, block)
  {
  }

  lemma LaterBlock(block: bytes, tail: bytes, rest: seq<nat>, cuts: seq<nat>, k: nat, b: bytes)
    requires 0 < k < |rest| && |cuts| == |rest| + 1 && BlockIs(tail, rest, k - 1, b)
    requires forall i :: 0 <= i < |rest| ==> cuts[i + 1] == rest[i] + |block|
    ensures BlockIs(block + tail, cuts, k, b)
  {
    assert cuts[k - 1 + 1] == rest[k - 1] + |block|;
    assert (block + tail)[cuts[k]..cuts[k + 1]] == tail[rest[k - 1]..rest[k]];
  }

  /** As many bits more as halvings. */
  lemma MoreBits(n: nat, r: nat)
    requires n > 0 && r > 0 && n / 2 < TwoTo(r - 1)
    requires (n / 2 > 0 ==> r > 1 && TwoTo(r - 2) <= n / 2) && (n / 2 == 0 ==> r == 1)
    ensures n < TwoTo(r) && TwoTo(r - 1) <= n
  {
    hide TwoTo;
    TwoToNext(r - 1);
    if r > 1 { TwoToNext(r - 2); }
  }

  lemma LowestBit(n: nat)
    ensures BitSet(n, 0) <==> n % 2 == 1
  {
    assert TwoTo(0) == 1;
  }

  lemma TwoToNext(k: nat)
    ensures TwoTo(k + 1) == 2 * TwoTo(k) && TwoTo(0) == 1
  {
  }

  /** `m` is s over and over, n times. */
  ghost predicate Repeated(s: bytes, n: nat, m: bytes) {
    |m| == n * |s| && forall j :: 0 <= j < n ==> SliceIs(m, j * |s|, s)
  }

  /** `s` stands at position i of m. */
  predicate SliceIs(m: bytes, i: nat, s: bytes) {
    i + |s| <= |m| && m[i..i + |s|] == s
  }

  lemma {:induction false} RepeatIs(s: bytes, n: nat)
    ensures Repeated(s, n, Repeat(s, n))
    decreases n
  {
    if n > 0 {
      RepeatIs(s, n - 1);
      var m, tail := Repeat(s, n), Repeat(s, n - 1);
      assert n * |s| == (n - 1) * |s| + |s|;
      forall j | 0 <= j < n
        ensures SliceIs(m, j * |s|, s)
      {
        if j > 0 {
          assert j * |s| == (j - 1) * |s| + |s|;
          assert SliceIs(tail, (j - 1) * |s|, s);
          assert m[j * |s|..j * |s| + |s|] == tail[(j - 1) * |s|..(j - 1) * |s| + |s|];
        }
      }
    }
  }

  /** `m` is the first n bytes of d, d, d, ... */
  ghost predicate Wrapped(d: bytes, n: nat, m: bytes) {
    |m| == n && d != [] && forall i :: 0 <= i < n ==> m[i] == d[i % |d|]
  }

  /**
   The input of round n. It holds the last digest and P, one at each end, the digest first in
   even rounds; between them S unless 3 divides n, and then P unless 7 does.
   */
  ghost predicate RoundFed(n: nat, c: bytes, p: bytes, s: bytes, m: bytes) {
    var first, last := if n % 2 == 0 then c else p, if n % 2 == 0 then p else c;
    var salt, extra := if n % 3 == 0 then 0 else |s|, if n % 7 == 0 then 0 else |p|;
    && |m| == |c| + |p| + salt + extra
    && SliceIs(m, 0, first)
    && (n % 3 != 0 ==> SliceIs(m, |first|, s))
    && (n % 7 != 0 ==> SliceIs(m, |first| + salt, p))
    && SliceIs(m, |m| - |last|, last)
  }

  lemma RoundInputIs(n: nat, c: bytes, p: bytes, s: bytes)
    ensures RoundFed(n, c, p, s, RoundInput(n, c, p, s))
  {
    hide SliceIs;
    var b, e: bytes := if n % 3 != 0 then s else [], if n % 7 != 0 then p else [];
    if n % 2 == 0 { FourSlices(c, b, e, p); } else { FourSlices(p, b, e, c); }
  }

  lemma FourSlices(a: bytes, b: bytes, c: bytes, d: bytes)
    ensures var m := a + b + c + d;
            && |m| == |a| + |b| + |c| + |d|
            && SliceIs(m, 0, a) && SliceIs(m, |a|, b) && SliceIs(m, |a| + |b|, c) && SliceIs(m, |m| - |d|, d)
  {
    var m := a + b + c + d;
    assert m[..|a|] == a && m[|a|..|a| + |b|] == b;
    assert m[|a| + |b|..|a| + |b| + |c|] == c && m[|m| - |d|..] == d;
  }

  /** What a start feeds: the head, the first digest cut or repeated to length n, and a block for each bit of n. */
  ghost predicate StartFed(head: bytes, b: bytes, n: nat, one: bytes, zero: bytes, m: bytes, cuts: seq<nat>) {
    && |head| + n <= |m| && SliceIs(m, 0, head)
    && Wrapped(b, n, m[|head|..|head| + n])
    && BitBlocks(n, one, zero, m[|head| + n..], cuts)
  }

  lemma StartIs(head: bytes, b: bytes, n: nat, one: bytes, zero: bytes) returns (cuts: seq<nat>)
    requires b != []
    ensures StartFed(head, b, n, one, zero, head + Cyclic(b, n) + Mix(n, one, zero), cuts)
  {
    hide Mix;
    cuts := MixBlocks(n, one, zero);
    var x, y := Cyclic(b, n), Mix(n, one, zero);
    var m := head + x + y;
    assert m[|head|..|head| + n] == x && m[|head| + n..] == y && m[..|head|] == head;
  }

  /** Digest after digest, and what each was made from. */
  ghost predicate Chain(md: Md, a: bytes, p: bytes, s: bytes, digests: seq<bytes>, inputs: seq<bytes>) {
    && |digests| == |inputs| + 1 && digests[0] == a
    && forall n :: 0 <= n < |inputs| ==>
         RoundFed(n, digests[n], p, s, inputs[n]) && digests[n + 1] == md.hash(inputs[n])
  }

  lemma {:induction false} RoundsChain(md: Md, a: bytes, p: bytes, s: bytes, n: nat)
    returns (digests: seq<bytes>, inputs: seq<bytes>)
    ensures Chain(md, a, p, s, digests, inputs) && |inputs| == n && digests[n] == Rounds(md, a, p, s, n)
    decreases n
  {
    hide RoundFed, RoundInput;
    if n == 0 {
      digests, inputs := [a], [];
    } else {
      digests, inputs := RoundsChain(md, a, p, s, n - 1);
      var m := RoundInput(n - 1, digests[n - 1], p, s);
      RoundInputIs(n - 1, digests[n - 1], p, s);
      digests, inputs := digests + [md.hash(m)], inputs + [m];
    }
  }

  /** All that goes into a SHA-crypt digest. */
  datatype Transcript = Transcript(b: bytes, start: bytes, cuts: seq<nat>, a: bytes, pInput: bytes, p: bytes,
                                   sInput: bytes, s: bytes, digests: seq<bytes>, inputs: seq<bytes>)

  /**
   A transcript of the digest d: password, salt and password give B; password, salt, B cut to the
   password's length, and B or the password for each bit of that length give A; the password as
   often as it is long gives P, the salt 16 + A[0] times gives S; the rounds start from A.
   */
  ghost predicate Records(md: Md, pw: bytes, salt: bytes, rounds: nat, d: bytes, t: Transcript) {
    && t.b == md.hash(pw + salt + pw)
    && StartFed(pw + salt, t.b, |pw|, t.b, pw, t.start, t.cuts) && t.a == md.hash(t.start)
    && Repeated(pw, |pw|, t.pInput) && Wrapped(md.hash(t.pInput), |pw|, t.p)
    && t.a != [] && Repeated(salt, 16 + t.a[0] as int, t.sInput) && Wrapped(md.hash(t.sInput), |salt|, t.s)
    && Chain(md, t.a, t.p, t.s, t.digests, t.inputs) && |t.inputs| == rounds && t.digests[rounds] == d
  }

  /** The specified digest has a transcript. */
  lemma DigestRecorded(md: Md, pw: bytes, salt: bytes, rounds: nat) returns (t: Transcript)
    requires md.Ok()
    ensures Records(md, pw, salt, rounds, Digest(md, pw, salt, rounds), t)
  {
    hide Mix, Rounds, Chain, StartFed, Repeated, Repeat;
    var b := DigestB(md, pw, salt);
    assert |b| == md.kind.Size();
    var cuts := StartIs(pw + salt, b, |pw|, b, pw);
    var start := pw + salt + Cyclic(b, |pw|) + Mix(|pw|, b, pw);
    var a := md.hash(start);
    assert |a| == md.kind.Size();
    RepeatIs(pw, |pw|);
    RepeatIs(salt, a[0] as int + 16);
    var pInput, sInput := Repeat(pw, |pw|), Repeat(salt, a[0] as int + 16);
    assert |md.hash(pInput)| == md.kind.Size() == |md.hash(sInput)|;
    var p, s := P(md, pw), S(md, a, salt);
    var digests, inputs := RoundsChain(md, a, p, s, rounds);
    t := Transcript(b, start, cuts, a, pInput, p, sInput, s, digests, inputs);
  }

  // ---- the loops -----------------------------------------------------------------------------

  lemma CyclicStep(d: bytes, n: nat)
    requires d != []
    ensures n > |d| ==> Cyclic(d, n) == d + Cyclic(d, n - |d|)
    ensures n <= |d| ==> Cyclic(d, n) == d[..n]
  {
    var k := |d|;
    forall i | 0 <= i < n
      ensures i < k ==> i % k == i
      ensures i >= k ==> i % k == (i - k) % k
    {
      if i < k { SmallMod(i, k); } else { ModMinus(i, k); }
    }
  }

  lemma SmallMod(i: nat, k: nat)
    requires i < k
    ensures i % k == i
  {
  }

  lemma ModMinus(i: nat, k: nat)
    requires 0 < k <= i
    ensures i % k == (i - k) % k
  {
    var q, r := (i - k) / k, (i - k) % k;
    assert i == (q + 1) * k + r;
    ModUnique(i, k, q + 1, r);
  }

  lemma ModUnique(i: nat, k: nat, q: nat, r: nat)
    requires 0 < k && r < k && i == q * k + r
    ensures i % k == r && i / k == q
  {
    var q', r' := i / k, i % k;
    assert i == q' * k + r';
    if q < q' { MulGrows(q, q', k); }
    if q' < q { MulGrows(q', q, k); }
  }

  lemma {:induction false} MulGrows(a: nat, b: nat, k: nat)
    requires a < b
    ensures a * k + k <= b * k
    decreases b - a
  {
    if a + 1 < b { MulGrows(a + 1, b, k); }
    assert (a + 1) * k == a * k + k;
  }

  /** Feed length-many bytes of a digest, block by block. */
  method UpdateCyclic(ctx0: bytes, buf: bytes, len: nat) returns (ctx: bytes)
    requires buf != []
    ensures ctx == ctx0 + Cyclic(buf, len)
  {
    ctx := ctx0;
    var n := len;
    while n > |buf|
      invariant 0 <= n
      invariant ctx + Cyclic(buf, n) == ctx0 + Cyclic(buf, len)
    {
      CyclicStep(buf, n);
      assert ctx + (buf + Cyclic(buf, n - |buf|)) == (ctx + buf) + Cyclic(buf, n - |buf|);
      ctx := ctx + buf;
      n := n - |buf|;
    }
    CyclicStep(buf, n);
    ctx := ctx + buf[..n];
  }

  /** Feed one block for each bit of the length. */
  method UpdateMix(ctx0: bytes, len: nat, one: bytes, zero: bytes) returns (ctx: bytes)
    ensures ctx == ctx0 + Mix(len, one, zero)
  {
    ctx := ctx0;
    var n := len;
    while n != 0
      invariant ctx + Mix(n, one, zero) == ctx0 + Mix(len, one, zero)
    {
      var block := if n % 2 == 1 then one else zero;
      assert ctx + (block + Mix(n / 2, one, zero)) == (ctx + block) + Mix(n / 2, one, zero);
      ctx := ctx + block;
      n := n / 2;
    }
    assert ctx + [] == ctx;
  }

  method UpdateRepeat(s: bytes, times: nat) returns (ctx: bytes)
    ensures ctx == Repeat(s, times)
  {
    ctx := [];
    var n := times;
    while n > 0
      invariant ctx + Repeat(s, n) == Repeat(s, times)
    {
      assert ctx + (s + Repeat(s, n - 1)) == (ctx + s) + Repeat(s, n - 1);
      ctx := ctx + s;
      n := n - 1;
    }
    assert ctx + [] == ctx;
  }

  method Memcpy(p: array<byte>, cp: nat, src: bytes, n: nat)
    requires n <= |src| && cp + n <= p.Length
    modifies p
    ensures p[..cp + n] == old(p[..cp]) + src[..n]
  {
    for i := 0 to n
      invariant p[..cp + i] == old(p[..cp]) + src[..i]
    {
      p[cp + i] := src[i];
    }
  }

  /** Allocate len bytes and fill them with a digest, over and over; no bytes cannot be allocated. */
  method FillCyclic(temp: bytes, len: nat) returns (r: Option<bytes>)
    requires temp != []
    ensures r == if len == 0 then None else Some(Cyclic(temp, len))
  {
    if len == 0 { return None; }
    var p := new byte[len];
    var cp, n := 0, len;
    while n > |temp|
      invariant 0 <= cp && 0 <= n && cp + n == len
      invariant p[..cp] + Cyclic(temp, n) == Cyclic(temp, len)
    {
      CyclicStep(temp, n);
      ghost var done := p[..cp];
      assert done + (temp + Cyclic(temp, n - |temp|)) == (done + temp) + Cyclic(temp, n - |temp|);
      Memcpy(p, cp, temp, |temp|);
      assert temp[..|temp|] == temp;
      n, cp := n - |temp|, cp + |temp|;
    }
    CyclicStep(temp, n);
    Memcpy(p, cp, temp, n);
    assert p[..len] == p[..];
    r := Some(p[..]);
  }

  /** The first digest, from which everything else starts. */
  method ComputeA(md: Md, pw: bytes, salt: bytes) returns (buf: bytes)
    requires md.Ok()
    ensures buf == DigestA(md, pw, salt)
  {
    var ctx := pw + salt;
    buf := md.hash(pw + salt + pw);
    ctx := UpdateCyclic(ctx, buf, |pw|);
    ctx := UpdateMix(ctx, |pw|, buf, pw);
    buf := md.hash(ctx);
  }

  /** The main loop. */
  method RunRounds(md: Md, a: bytes, p: bytes, s: bytes, rounds: nat) returns (buf: bytes)
    ensures buf == Rounds(md, a, p, s, rounds)
    ensures exists digests, inputs :: Chain(md, a, p, s, digests, inputs) && |inputs| == rounds && digests[rounds] == buf
  {
    ghost var digests, inputs := RoundsChain(md, a, p, s, rounds);
    hide Chain;
    buf := a;
    for n := 0 to rounds
      invariant buf == Rounds(md, a, p, s, n)
    {
      var ctx := if n % 2 == 1 then p else buf;
      if n % 3 != 0 { ctx := ctx + s; }
      if n % 7 != 0 { ctx := ctx + p; }
      ctx := ctx + if n % 2 == 1 then buf else p;
      assert ctx == RoundInput(n, buf, p, s);
      buf := md.hash(ctx);
    }
  }

  /** The digest, or None when a sequence cannot be allocated. */
  method ComputeDigest(md: Md, pw: bytes, salt: bytes, rounds: nat) returns (r: Option<bytes>)
    requires md.Ok()
    ensures r == if pw == [] || salt == [] then None else Some(Digest(md, pw, salt, rounds))
    ensures r.Some? ==> exists t :: Records(md, pw, salt, rounds, r.value, t)
  {
    hide Records;
    ghost var record := DigestRecorded(md, pw, salt, rounds);
    var a := ComputeA(md, pw, salt);
    var ctx := UpdateRepeat(pw, |pw|);
    var p := FillCyclic(md.hash(ctx), |pw|);
    if p.None? { return None; }
    assert |a| == md.kind.Size();
    ctx := UpdateRepeat(salt, a[0] as int + 16);
    var s := FillCyclic(md.hash(ctx), |salt|);
    if s.None? { return None; }
    var d := RunRounds(md, a, p.value, s.value, rounds);
    r := Some(d);
  }

  const SHA_BUF := 3 + 17 + 17 + 86 + 1

  /** The dollar signs around the magic number. */
  method PutMagic(buf: array<byte>, magic: byte)
    requires buf.Length == SHA_BUF && magic != 0
    modifies buf
    ensures Holds(buf, [DOLLAR, magic, DOLLAR])
  {
    buf[0] := 0;
    assert Holds(buf, []);
    hide Holds;
    Append(buf, [], [DOLLAR]);
    assert [] + [DOLLAR] == [DOLLAR];
    Append(buf, [DOLLAR], [magic]);
    assert [DOLLAR] + [magic] == [DOLLAR, magic];
    Append(buf, [DOLLAR, magic], [DOLLAR]);
    assert [DOLLAR, magic] + [DOLLAR] == [DOLLAR, magic, DOLLAR];
  }

  /** The rounds setting behind text t. */
  method PutRounds(buf: array<byte>, ghost t: bytes, rounds: nat)
    requires buf.Length == SHA_BUF && Holds(buf, t) && |t| == 3 && rounds <= ROUNDS_MAX
    modifies buf
    ensures Holds(buf, t + (ROUNDS_PREFIX + Dec(rounds) + [DOLLAR]))
    ensures |ROUNDS_PREFIX + Dec(rounds) + [DOLLAR]| <= 17
  {
    DecLength(rounds);
    hide Holds, Dec;
    var tmp := ROUNDS_PREFIX + Dec(rounds);
    Append(buf, t, tmp);
    Append(buf, t + tmp, [DOLLAR]);
    Assoc(t, tmp, [DOLLAR]);
  }

  /** The bounded copies that build the header; nothing is cut, and its length is at most 36. */
  method PutHeader(buf: array<byte>, magic: byte, p: SaltSpec)
    requires buf.Length == SHA_BUF
    requires magic != 0 && NoNul(p.salt) && |p.salt| <= SALT_LEN_MAX && p.rounds <= ROUNDS_MAX
    modifies buf
    ensures Holds(buf, Header(magic, p))
    ensures |Header(magic, p)| <= 3 + (if p.custom then 17 else 0) + |p.salt|
  {
    hide Holds, Dec, ROUNDS_PREFIX;
    PutMagic(buf, magic);
    ghost var t := [DOLLAR, magic, DOLLAR];
    ghost var setting: bytes := [];
    if p.custom {
      setting := ROUNDS_PREFIX + Dec(p.rounds) + [DOLLAR];
      PutRounds(buf, t, p.rounds);
    } else {
      assert t + [] == t;
    }
    Append(buf, t + setting, p.salt);
    Assoc(t, setting, p.salt);
  }

  /** shacrypt: the text left in the output buffer is the specified one. */
  method ShaCryptText(sha256: Md, sha512: Md, pw: bytes, magic: bytes, arg: bytes) returns (r: Option<bytes>)
    requires Algorithms(sha256, sha512) && NoNul(arg)
    ensures r == Crypt(sha256, sha512, pw, magic, arg)
  {
    var md := Select(sha256, sha512, magic);
    if md.None? { return None; }
    var p := ParseSalt(arg);
    if p.None? { return None; }
    SaltNoNul(arg);
    var buf := new byte[SHA_BUF];
    PutHeader(buf, magic[0], p.value);
    ghost var header := Header(magic[0], p.value);
    var l := StrLen(buf, header);
    if l > 3 + (if p.value.custom then 17 else 0) + |p.value.salt| {
      assert false;
      return None;
    }
    var d := ComputeDigest(md.value, pw, p.value.salt, p.value.rounds);
    if d.None? { return None; }
    PutDigest(buf, header, md.value.kind, d.value);
    ghost var out := header + [DOLLAR] + Print(md.value.kind, d.value);
    var n := StrLen(buf, out);
    r := Some(buf[..n]);
  }

  lemma SaltNoNul(arg: bytes)
    requires NoNul(arg) && ParseSalt(arg).Some?
    ensures NoNul(ParseSalt(arg).value.salt)
  {
  }

  /**
   The whole output by its parts, for a salt argument that names no number of rounds and for one
   that does; other magic strings, an empty password and an empty salt give nothing.
   */
  lemma CryptMeans(sha256: Md, sha512: Md, pw: bytes, magic: bytes, arg: bytes, n: nat)
    requires Algorithms(sha256, sha512)
    ensures sha256.kind == Sha256 && sha512.kind == Sha512
    ensures (magic != Ascii("5") && magic != Ascii("6")) || pw == [] ==> Crypt(sha256, sha512, pw, magic, arg).None?
    ensures Crypt(sha256, sha512, pw, magic, []).None?
    ensures (magic == Ascii("5") || magic == Ascii("6")) && pw != [] && arg != [] ==>
              var md := if magic == Ascii("5") then sha256 else sha512;
              var salt := if |arg| <= 16 then arg else arg[..16];
              var r := if n < 1000 then 1000 else if n > 999999999 then 999999999 else n;
              && (!(Ascii("rounds=") <= arg) ==>
                    Crypt(sha256, sha512, pw, magic, arg)
                    == Some(Ascii("$") + magic + Ascii("$") + salt + Ascii("$") + Print(md.kind, Digest(md, pw, salt, 5000))))
              && Crypt(sha256, sha512, pw, magic, Ascii("rounds=") + (Dec(n) + [0x24] + arg))
                 == Some(Ascii("$") + magic + Ascii("$") + (Ascii("rounds=") + Dec(r) + Ascii("$") + salt) + Ascii("$")
                         + Print(md.kind, Digest(md, pw, salt, r)))
  {
    hide Digest, Print, ParseSalt, Dec, Header;
    SaltMeans(arg, n, arg);
    SaltMeans([], n, []);
    if magic == [0x35] || magic == [0x36] {
      var r := if n < 1000 then 1000 else if n > 999999999 then 999999999 else n;
      var salt := if |arg| <= 16 then arg else arg[..16];
      HeaderIs(magic, 5000, salt);
      HeaderIs(magic, r, salt);
    }
    assert Ascii("$") == [DOLLAR] && Ascii("5") == [0x35] && Ascii("6") == [0x36];
  }

  lemma HeaderIs(magic: bytes, n: nat, salt: bytes)
    requires |magic| == 1
    ensures Header(magic[0], SaltSpec(false, n, salt)) == Ascii("$") + magic + Ascii("$") + salt
    ensures Header(magic[0], SaltSpec(true, n, salt))
            == Ascii("$") + magic + Ascii("$") + (Ascii("rounds=") + Dec(n) + Ascii("$") + salt)
  {
    hide Dec;
    assert Ascii("$") == [DOLLAR] && Ascii("rounds=") == ROUNDS_PREFIX;
    assert [DOLLAR] + magic + [DOLLAR] == [DOLLAR, magic[0], DOLLAR];
    assert [] + salt == salt;
  }

  // ---- using the output as the next salt -------------------------------------------------------

  function LastDollar(s: bytes): (i: nat)
    ensures i <= |s|
    ensures i < |s| ==> s[i] == DOLLAR
    ensures forall k :: (if i < |s| then i + 1 else 0) <= k < |s| ==> s[k] != DOLLAR
  {
    if s == [] then 0
    else
      var n := |s| - 1;
      if s[n] == DOLLAR then n
      else
        var i := LastDollar(s[..n]);
        if i < n then i else |s|
  }

  /** The rounds and salt fields of an output: what stands between the magic and the last dollar sign. */
  function SaltField(out: bytes): bytes
    requires |out| >= 3
  {
    var e := LastDollar(out);
    if e < 3 then [] else out[3..e]
  }

  lemma {:induction false} LastDollarAt(h: bytes, t: bytes)
    requires forall i :: 0 <= i < |t| ==> t[i] != DOLLAR
    ensures LastDollar(h + [DOLLAR] + t) == |h|
    decreases |t|
  {
    var out := h + [DOLLAR] + t;
    if t == [] {
      assert out[|out| - 1] == DOLLAR;
    } else {
      var u := t[..|t| - 1];
      LastDollarAt(h, u);
      assert out[..|out| - 1] == h + [DOLLAR] + u;
      assert out[|out| - 1] == t[|t| - 1];
    }
  }

  lemma FieldIsSaltText(magic: byte, p: SaltSpec, k: Kind, d: bytes)
    requires |d| == k.Size()
    ensures SaltField(Header(magic, p) + [DOLLAR] + Print(k, d)) == SaltText(p)
  {
    hide Print, SaltText, LastDollar;
    var h := Header(magic, p);
    var out := h + [DOLLAR] + Print(k, d);
    PrintNoDollar(k, d);
    LastDollarAt(h, Print(k, d));
    assert out[3..|h|] == SaltText(p);
  }

  /** Running again with the rounds and salt fields of its own output gives the same output. */
  lemma RerunReproduces(sha256: Md, sha512: Md, pw: bytes, magic: bytes, arg: bytes)
    requires Algorithms(sha256, sha512)
    requires Crypt(sha256, sha512, pw, magic, arg).Some?
    ensures var out := Crypt(sha256, sha512, pw, magic, arg).value;
            |out| >= 3 && Crypt(sha256, sha512, pw, magic, SaltField(out)) == Some(out)
  {
    var md := Select(sha256, sha512, magic).value;
    var p := ParseSalt(arg).value;
    FieldIsSaltText(magic[0], p, md.kind, Digest(md, pw, p.salt, p.rounds));
    SaltRoundTrip(arg);
  }

  /** The digest can be read back out of the output. */
  lemma OutputDecodes(sha256: Md, sha512: Md, pw: bytes, magic: bytes, arg: bytes)
    requires Algorithms(sha256, sha512)
    requires Crypt(sha256, sha512, pw, magic, arg).Some?
    ensures var out := Crypt(sha256, sha512, pw, magic, arg).value;
            var md := Select(sha256, sha512, magic).value;
            var p := ParseSalt(arg).value;
            && |out| <= 123
            && |out| >= md.kind.TextLen()
            && Decode(md.kind, out[|out| - md.kind.TextLen()..]) == Digest(md, pw, p.salt, p.rounds)
  {
    var md := Select(sha256, sha512, magic).value;
    var p := ParseSalt(arg).value;
    var d := Digest(md, pw, p.salt, p.rounds);
    var out := Header(magic[0], p) + [DOLLAR] + Print(md.kind, d);
    assert out[|out| - md.kind.TextLen()..] == Print(md.kind, d);
    DecodePrint(md.kind, d);
    DecLength(p.rounds);
    OrderLengths();
  }
}
