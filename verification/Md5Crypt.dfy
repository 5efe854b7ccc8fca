/**
 The MD5-based password hash (apps/passwd.c) for the magic strings "1", "apr1"
 and none: its specification over an abstract hash and its loops, with the
 open-coded output groups.
 */
module Md5Crypt {
  import opened CText
  import opened Crypt64
  import opened CryptText
  import opened ShaCrypt

  const MD5_ROUNDS := 1000
  const MD5_SALT_MAX := 8
  const MD5_BUF := 6 + 9 + 24 + 2

  // ---- the specification -----------------------------------------------------------------

  function MagicText(magic: bytes): bytes {
    if magic == [] then [] else [DOLLAR] + magic + [DOLLAR]
  }

  ghost function Md5A(md: Md, pw: bytes, magic: bytes, salt: bytes): bytes
    requires md.Ok()
  {
    md.hash(pw + MagicText(magic) + salt + Cyclic(DigestB(md, pw, salt), |pw|) + Mix(|pw|, [0], Cut(pw, 1)))
  }

  ghost function Md5Digest(md: Md, pw: bytes, magic: bytes, salt: bytes): (d: bytes)
    requires md.Ok()
    ensures |d| == md.kind.Size()
  {
    Rounds(md, Md5A(md, pw, magic, salt), pw, salt, MD5_ROUNDS)
  }

  ghost function Crypt1(md: Md, pw: bytes, magic: bytes, arg: bytes): Option<bytes>
    requires md.Ok() && md.kind == Md5
  {
    var salt := Cut(arg, MD5_SALT_MAX);
    if |magic| > 4 then None
    else Some(MagicText(magic) + salt + [DOLLAR] + Print(Md5, Md5Digest(md, pw, magic, salt)))
  }

  // ---- what is fed to the hash, by position ------------------------------------------------

  /** All that goes into a digest of md5crypt. */
  datatype Md5Transcript = Md5Transcript(b: bytes, head: bytes, start: bytes, cuts: seq<nat>, a: bytes,
                                         digests: seq<bytes>, inputs: seq<bytes>)

  /**
   A transcript of the digest d: password, salt and password give B; password, the magic number
   between dollar signs if there is one, salt, B cut to the password's length, and for each bit of
   that length a zero byte or the first byte of the password give A; a thousand rounds follow.
   */
  ghost predicate Md5Records(md: Md, pw: bytes, magic: bytes, salt: bytes, d: bytes, t: Md5Transcript) {
    && t.b == md.hash(pw + salt + pw)
    && |t.head| == |pw| + |salt| + (if magic == [] then 0 else |magic| + 2)
    && SliceIs(t.head, 0, pw) && SliceIs(t.head, |t.head| - |salt|, salt)
    && (magic != [] ==> t.head[|pw|] == 0x24 && SliceIs(t.head, |pw| + 1, magic) && t.head[|pw| + 1 + |magic|] == 0x24)
    && (pw != [] ==> StartFed(t.head, t.b, |pw|, [0], [pw[0]], t.start, t.cuts))
    && (pw == [] ==> t.start == t.head)
    && t.a == md.hash(t.start)
    && Chain(md, t.a, pw, salt, t.digests, t.inputs) && |t.inputs| == 1000 && t.digests[1000] == d
  }

  lemma HeadIs(pw: bytes, magic: bytes, salt: bytes)
    ensures var h := pw + MagicText(magic) + salt;
            && |h| == |pw| + |salt| + (if magic == [] then 0 else |magic| + 2)
            && SliceIs(h, 0, pw) && SliceIs(h, |h| - |salt|, salt)
            && (magic != [] ==> h[|pw|] == 0x24 && SliceIs(h, |pw| + 1, magic) && h[|pw| + 1 + |magic|] == 0x24)
  {
    var t := MagicText(magic);
    FourSlices(pw, t, [], salt);
    assert pw + t + [] + salt == pw + t + salt;
    if magic != [] {
      var h := pw + t + salt;
      assert forall k :: 0 <= k < |t| ==> h[|pw| + k] == t[k];
      assert t[1..1 + |magic|] == magic;
      assert h[|pw| + 1..|pw| + 1 + |magic|] == t[1..1 + |magic|];
    }
  }

  lemma FirstOf(pw: bytes)
    requires pw != []
    ensures Cut(pw, 1) == [pw[0]]
  {
  }

  lemma EmptyMix(b: bytes)
    requires b != []
    ensures Cyclic(b, 0) == [] && Mix(0, [0], []) == []
  {
  }

  /** The specified digest has a transcript. */
  lemma Md5Recorded(md: Md, pw: bytes, magic: bytes, salt: bytes) returns (t: Md5Transcript)
    requires md.Ok()
    ensures Md5Records(md, pw, magic, salt, Md5Digest(md, pw, magic, salt), t)
  {
    hide Mix, Rounds, Chain, StartFed, MagicText, Cut, Cyclic;
    var b := DigestB(md, pw, salt);
    assert |b| == md.kind.Size();
    HeadIs(pw, magic, salt);
    var head := pw + MagicText(magic) + salt;
    var cuts: seq<nat> := [];
    if pw != [] {
      FirstOf(pw);
      cuts := StartIs(head, b, |pw|, [0], [pw[0]]);
    } else {
      EmptyMix(b);
      NothingCut();
      assert head + [] + [] == head;
    }
    var start := head + Cyclic(b, |pw|) + Mix(|pw|, [0], Cut(pw, 1));
    var a := md.hash(start);
    var digests, inputs := RoundsChain(md, a, pw, salt, MD5_ROUNDS);
    t := Md5Transcript(b, head, start, cuts, a, digests, inputs);
  }

  lemma NothingCut()
    ensures Cut([], 1) == []
  {
  }

  // ---- the output groups ---------------------------------------------------------------------

  /** The four characters md5crypt writes for three permuted bytes. */
  function OpenCoded(p0: byte, p1: byte, p2: byte): bytes {
    [Cov(p2 % 64), Cov(p1 % 16 * 4 + p2 / 64), Cov(p0 % 4 * 16 + p1 / 16), Cov(p0 / 4)]
  }

  lemma EmitFour(w: nat)
    ensures Emit(w, 4) == [Cov(w % 64), Cov(w / 64 % 64), Cov(w / 64 / 64 % 64), Cov(w / 64 / 64 / 64 % 64)]
    ensures Emit(w, 2) == [Cov(w % 64), Cov(w / 64 % 64)]
  {
    hide Cov;
    var a, b, c := w / 64, w / 64 / 64, w / 64 / 64 / 64;
    assert Emit(c, 1) == [Cov(c % 64)] + Emit(c / 64, 0);
    assert Emit(b, 2) == [Cov(b % 64)] + Emit(c, 1);
    assert Emit(a, 3) == [Cov(a % 64)] + Emit(b, 2);
    assert Emit(a, 1) == [Cov(a % 64)] + Emit(b, 0);
  }

  /** The open-coded shifts and masks are b64_from_24bit on the same bytes. */
  lemma OpenCodedIsEmit(p0: byte, p1: byte, p2: byte)
    ensures OpenCoded(p0, p1, p2) == Emit(Word(p0, p1, p2), 4)
  {
    hide Emit, Cov, Word;
    SixBits(p0, p1, p2);
    EmitFour(Word(p0, p1, p2));
  }

  lemma LastTwo(p0: byte)
    ensures [Cov(p0 % 64), Cov(p0 / 64)] == Emit(Word(0, 0, p0), 2)
  {
    hide Emit, Cov;
    EmitFour(Word(0, 0, p0));
  }

  lemma SixBits(p0: byte, p1: byte, p2: byte)
    ensures var w := Word(p0, p1, p2);
            && w % 64 == p2 % 64
            && w / 64 % 64 == p1 % 16 * 4 + p2 / 64
            && w / 64 / 64 % 64 == p0 % 4 * 16 + p1 / 16
            && w / 64 / 64 / 64 % 64 == p0 / 4
  {
    var w := Word(p0, p1, p2);
    var w1, w2 := p0 * 1024 + p1 * 4 + p2 / 64, p0 * 16 + p1 / 16;
    LowSix(w, w1, p2 % 64);
    LowSix(w1, w2, p1 % 16 * 4 + p2 / 64);
    LowSix(w2, p0 / 4, p0 % 4 * 16 + p1 / 16);
  }

  lemma LowSix(x: nat, q: nat, r: nat)
    requires x == 64 * q + r && r < 64
    ensures x / 64 == q && x % 64 == r
  {
  }

  lemma NextSource(dest: nat)
    ensures (6 * dest % 17 + 6) % 17 == 6 * (dest + 1) % 17
  {
    var q, r := 6 * dest / 17, 6 * dest % 17;
    if r + 6 < 17 {
      Mod17(r + 6, 0, r + 6);
      Mod17(6 * (dest + 1), q, r + 6);
    } else {
      Mod17(r + 6, 1, r - 11);
      Mod17(6 * (dest + 1), q + 1, r - 11);
    }
  }

  lemma Mod17(x: nat, q: nat, r: nat)
    requires x == 17 * q + r && r < 17
    ensures x % 17 == r
  {
  }

  /** The permutation loop. */
  method Permute(d: bytes) returns (perm: bytes)
    requires |d| == 16
    ensures |perm| == 16 && forall i :: 0 <= i < 16 ==> perm[i] == d[Md5Source(i)]
  {
    var p := new byte[16];
    var dest, source := 0, 0;
    while dest < 14
      invariant 0 <= dest <= 14 && source == 6 * dest % 17
      invariant forall i :: 0 <= i < dest ==> p[i] == d[Md5Source(i)]
    {
      assert source == Md5Source(dest);
      NextSource(dest);
      p[dest] := d[source];
      dest, source := dest + 1, (source + 6) % 17;
    }
    p[14], p[15] := d[5], d[11];
    perm := p[..];
  }

  /** The output loop of md5crypt, open-coded as in the source. */
  method PutOpenCoded(buf: array<byte>, ghost text: bytes, d: bytes)
    requires Holds(buf, text) && |d| == 16 && |text| + 23 < buf.Length
    modifies buf
    ensures Holds(buf, text + [DOLLAR] + Print(Md5, d))
  {
    hide Print;
    var perm := Permute(d);
    var cp := PutDollar(buf, text);
    cp := PutOpenPrint(buf, cp, perm, d);
    PrintNoDollar(Md5, d);
    Close(buf, cp, text + [DOLLAR] + Print(Md5, d));
  }

  /** The characters of the digest, from its shuffled bytes. */
  method PutOpenPrint(buf: array<byte>, cp: nat, perm: bytes, ghost d: bytes) returns (q: nat)
    requires |perm| == 16 == |d| && cp + 22 <= buf.Length
    requires forall i :: 0 <= i < 16 ==> perm[i] == d[Md5Source(i)]
    modifies buf
    ensures q == cp + 22 && buf[..q] == old(buf[..cp]) + Print(Md5, d)
  {
    hide Five, Print, Emit;
    q := PutGroups5(buf, cp, perm, d);
    LastTwo(perm[15]);
    Md5Print(d);
    ghost var tail := Emit(Word(0, 0, d[11]), 2);
    Assoc(old(buf[..cp]), Five(d, 5), tail);
    PutTwo(buf, q, Cov(perm[15] % 64), Cov(perm[15] / 64));
    q := q + 2;
  }

  method PutTwo(buf: array<byte>, cp: nat, c0: byte, c1: byte)
    requires cp + 2 <= buf.Length
    modifies buf
    ensures buf[..cp + 2] == old(buf[..cp]) + [c0, c1]
  {
    buf[cp], buf[cp + 1] := c0, c1;
  }

  lemma Md5Within(d: bytes)
    requires |d| == 16
    ensures Within(Md5Order(), |d|)
  {
  }

  ghost function Five(d: bytes, n: nat): bytes
    requires |d| == 16 && n <= 5
  {
    Md5Within(d);
    Groups(Md5Order(), d, n)
  }

  lemma Md5Print(d: bytes)
    requires |d| == 16
    ensures Print(Md5, d) == Five(d, 5) + Emit(Word(0, 0, d[11]), 2)
  {
  }

  lemma FiveStep(d: bytes, g: nat)
    requires |d| == 16 && g < 5
    ensures Five(d, g + 1)
         == Five(d, g) + OpenCoded(d[Md5Source(3 * g)], d[Md5Source(3 * g + 1)], d[Md5Source(3 * g + 2)])
  {
    Md5Within(d);
    Md5OrderIsPerm(g);
    OpenCodedIsEmit(d[Md5Source(3 * g)], d[Md5Source(3 * g + 1)], d[Md5Source(3 * g + 2)]);
  }

  method PutGroups5(buf: array<byte>, cp: nat, perm: bytes, ghost d: bytes) returns (q: nat)
    requires |perm| == 16 == |d| && cp + 20 <= buf.Length
    requires forall i :: 0 <= i < 16 ==> perm[i] == d[Md5Source(i)]
    modifies buf
    ensures q == cp + 20
    ensures buf[..q] == old(buf[..cp]) + Five(d, 5)
  {
    hide Five, Md5Source;
    q := cp;
    FiveZero(d);
    var i := 0;
    ghost var g := 0;
    while i < 15
      invariant 0 <= g <= 5 && i == 3 * g && q == cp + 4 * g
      invariant buf[..q] == old(buf[..cp]) + Five(d, g)
    {
      FiveStep(d, g);
      Assoc(old(buf[..cp]), Five(d, g), OpenCoded(perm[i], perm[i + 1], perm[i + 2]));
      q := PutFour(buf, q, OpenCoded(perm[i], perm[i + 1], perm[i + 2]));
      i := i + 3;
      g := g + 1;
    }
  }

  lemma FiveZero(d: bytes)
    requires |d| == 16
    ensures Five(d, 0) == []
  {
  }

  method PutFour(buf: array<byte>, cp: nat, s: bytes) returns (q: nat)
    requires |s| == 4 && cp + 4 <= buf.Length
    modifies buf
    ensures q == cp + 4 && buf[..q] == old(buf[..cp]) + s
  {
    buf[cp], buf[cp + 1], buf[cp + 2], buf[cp + 3] := s[0], s[1], s[2], s[3];
    q := cp + 4;
  }

  // ---- the loops -----------------------------------------------------------------------------

  method ComputeMd5(md: Md, pw: bytes, magic: bytes, salt: bytes) returns (buf: bytes)
    requires md.Ok()
    ensures buf == Md5Digest(md, pw, magic, salt)
    ensures exists t :: Md5Records(md, pw, magic, salt, buf, t)
  {
    hide Md5Records, Rounds;
    ghost var record := Md5Recorded(md, pw, magic, salt);
    var ctx := pw;
    if |magic| > 0 { ctx := ctx + [DOLLAR] + magic + [DOLLAR]; }
    ctx := ctx + salt;
    assert ctx == pw + MagicText(magic) + salt;
    buf := md.hash(pw + salt + pw);
    assert buf == DigestB(md, pw, salt) && |buf| == md.kind.Size();
    ctx := UpdateCyclic(ctx, buf, |pw|);
    ctx := UpdateMix(ctx, |pw|, [0], Cut(pw, 1));
    buf := md.hash(ctx);
    buf := RunRounds(md, buf, pw, salt, MD5_ROUNDS);
  }

  /** The dollar signs and the magic number, if there is one; false when it is too long. */
  method PutMagicText(buf: array<byte>, magic: bytes) returns (fits: bool)
    requires buf.Length == MD5_BUF && NoNul(magic)
    modifies buf
    ensures fits <==> |magic| <= 4
    ensures fits ==> Holds(buf, MagicText(magic)) && |MagicText(magic)| <= 6
  {
    buf[0] := 0;
    assert Holds(buf, []);
    hide Holds;
    if |magic| > 0 {
      Append(buf, [], [DOLLAR]);
      assert [] + [DOLLAR] == [DOLLAR];
      if |magic| > 4 { return false; }
      Append(buf, [DOLLAR], magic);
      Append(buf, [DOLLAR] + magic, [DOLLAR]);
    }
    fits := true;
  }

  /** md5crypt: the text left in the output buffer is the specified one. */
  method Md5CryptText(md: Md, pw: bytes, magic: bytes, arg: bytes) returns (r: Option<bytes>)
    requires md.Ok() && md.kind == Md5 && NoNul(magic) && NoNul(arg)
    ensures r == Crypt1(md, pw, magic, arg)
  {
    var salt := Cut(arg, MD5_SALT_MAX);
    hide Holds, Print, Md5Digest, Cut, MagicText;
    var buf := new byte[MD5_BUF];
    var fits := PutMagicText(buf, magic);
    if !fits { return None; }
    ghost var t := MagicText(magic);
    Append(buf, t, salt);
    t := t + salt;
    var l := StrLen(buf, t);
    if l > 6 + 8 {
      assert false;
      return None;
    }
    var d := ComputeMd5(md, pw, magic, salt);
    PutOpenCoded(buf, t, d);
    ghost var out := t + [DOLLAR] + Print(Md5, d);
    var n := StrLen(buf, out);
    r := Some(buf[..n]);
  }

  /**
   The whole output by its parts: a magic string of at most four characters between dollar signs,
   unless it is empty, the first eight characters of the salt, a dollar sign and the digest.
   */
  lemma Crypt1Means(md: Md, pw: bytes, magic: bytes, arg: bytes)
    requires md.Ok() && md.kind == Md5
    ensures Crypt1(md, pw, magic, arg).None? <==> |magic| > 4
    ensures var salt := if |arg| <= 8 then arg else arg[..8];
            var tail := Ascii("$") + Print(Md5, Md5Digest(md, pw, magic, salt));
            && (magic == [] ==> Crypt1(md, pw, magic, arg) == Some(salt + tail))
            && (1 <= |magic| <= 4 ==> Crypt1(md, pw, magic, arg) == Some(Ascii("$") + magic + Ascii("$") + salt + tail))
  {
    hide Print, Md5Digest;
    assert Ascii("$") == [DOLLAR];
    var salt := if |arg| <= 8 then arg else arg[..8];
    var text := Print(Md5, Md5Digest(md, pw, magic, salt));
    Assoc(MagicText(magic) + salt, [DOLLAR], text);
    assert [] + salt == salt;
  }

  /** Running again with the salt field of its own output gives the same output. */
  lemma SaltFieldRepeats(md: Md, pw: bytes, magic: bytes, arg: bytes)
    requires md.Ok() && md.kind == Md5 && |magic| <= 4
    ensures var out := Crypt1(md, pw, magic, arg).value;
            && |MagicText(magic)| <= LastDollar(out) < |out|
            && |out| - LastDollar(out) - 1 == Md5.TextLen()
            && Crypt1(md, pw, magic, out[|MagicText(magic)|..LastDollar(out)]) == Some(out)
            && Decode(Md5, out[LastDollar(out) + 1..]) == Md5Digest(md, pw, magic, Cut(arg, MD5_SALT_MAX))
  {
    hide Print, LastDollar;
    var salt := Cut(arg, MD5_SALT_MAX);
    var h, d := MagicText(magic) + salt, Md5Digest(md, pw, magic, salt);
    var out := h + [DOLLAR] + Print(Md5, d);
    PrintNoDollar(Md5, d);
    LastDollarAt(h, Print(Md5, d));
    assert out[|MagicText(magic)|..|h|] == salt;
    assert out[|h| + 1..] == Print(Md5, d);
    DecodePrint(Md5, d);
  }
}
