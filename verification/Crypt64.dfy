/**
 The printed form of a password digest: 24 bits to four characters of a
 64-character table, the bytes of the digest in a fixed shuffled order
 (apps/passwd.c).
 */
module Crypt64 {
  import opened CText

  /** cov_2char: './0-9', then 'A-Z', then 'a-z'. */
  function Cov(v: nat): (c: byte)
    requires v < 64
  {
    if v < 12 then 0x2E + v else if v < 38 then 0x41 + (v - 12) else 0x61 + (v - 38)
  }

  /** The table position of a character. */
  function Uncov(c: byte): (v: nat)
    ensures v < 64
  {
    if 0x2E <= c <= 0x39 then c - 0x2E
    else if 0x41 <= c <= 0x5A then c - 0x41 + 12
    else if 0x61 <= c <= 0x7A then c - 0x61 + 38
    else 0
  }

  /** The table has no repeats, and no entry is a dollar sign or a NUL. */
  lemma CovInjective(v: nat)
    requires v < 64
    ensures Uncov(Cov(v)) == v && Cov(v) != 0x24 && Cov(v) != 0
  {
  }

  /** The table as it is written down: dot, slash and digits, capitals, small letters. */
  lemma CovIs(v: nat)
    requires v < 64
    ensures v < 12 ==> Cov(v) == "./0123456789"[v] as int
    ensures 12 <= v < 38 ==> Cov(v) == "ABCDEFGHIJKLMNOPQRSTUVWXYZ"[v - 12] as int
    ensures 38 <= v ==> Cov(v) == "abcdefghijklmnopqrstuvwxyz"[v - 38] as int
  {
    RunAt("./0123456789", 0x2E, v);
    RunAt("ABCDEFGHIJKLMNOPQRSTUVWXYZ", 0x41, v - 12);
    RunAt("abcdefghijklmnopqrstuvwxyz", 0x61, v - 38);
  }

  lemma RunAt(run: string, first: nat, i: int)
    requires forall k :: 0 <= k < |run| ==> run[k] as int == first + k
    ensures 0 <= i < |run| ==> run[i] as int == first + i
  {
  }

  /** The characters b64_from_24bit writes for w, low bits first. */
  function Emit(w: nat, n: nat): (t: seq<byte>)
    ensures |t| == n
  {
    if n == 0 then [] else [Cov(w % 64)] + Emit(w / 64, n - 1)
  }

  function Absorb(t: seq<byte>): nat {
    if t == [] then 0 else Uncov(t[0]) + 64 * Absorb(t[1..])
  }

  function Pow64(n: nat): nat {
    if n == 0 then 1 else 64 * Pow64(n - 1)
  }

  lemma {:induction false} AbsorbEmit(w: nat, n: nat)
    requires w < Pow64(n)
    ensures Absorb(Emit(w, n)) == w
    decreases n
  {
    if n > 0 {
      AbsorbEmit(w / 64, n - 1);
      CovInjective(w % 64);
      assert Emit(w, n)[1..] == Emit(w / 64, n - 1);
    }
  }

  lemma {:induction false} EmitNoDollar(w: nat, n: nat)
    ensures forall i :: 0 <= i < n ==> Emit(w, n)[i] != 0x24 && Emit(w, n)[i] != 0
    decreases n
  {
    if n > 0 {
      EmitNoDollar(w / 64, n - 1);
      CovInjective(w % 64);
    }
  }

  /** Character k carries the k-th six bits of w from below. */
  lemma {:induction false} EmitAt(w: nat, n: nat, k: nat)
    requires k < n
    ensures Pow64(k) > 0 && Emit(w, n)[k] == Cov(w / Pow64(k) % 64)
    decreases n
  {
    if k > 0 {
      EmitAt(w / 64, n - 1, k - 1);
      DivDiv64(w, Pow64(k - 1));
    }
  }

  lemma DivDiv64(w: nat, p: nat)
    requires p > 0
    ensures w / 64 / p == w / (64 * p)
  {
    var q := w / 64 / p;
    var r := 64 * (w / 64 % p) + w % 64;
    assert w / 64 == q * p + w / 64 % p;
    assert w == q * (64 * p) + r && r < 64 * p;
    QuotOf(w, 64 * p, q, r);
  }

  lemma QuotOf(n: nat, m: nat, q: nat, r: nat)
    requires r < m && n == q * m + r
    ensures n / m == q
  {
    var d := n / m - q;
    assert d * m == r - n % m;
    assert d >= 1 ==> d * m >= m;
    assert d <= -1 ==> d * m <= 0 - m;
  }

  /** Three bytes as one word, the first on top. */
  function Word(b2: byte, b1: byte, b0: byte): nat {
    b2 * 65536 + b1 * 256 + b0
  }

  function ByteOf(w: nat, slot: nat): (b: byte)
    requires slot < 3
  {
    if slot == 2 then w / 65536 % 256 else if slot == 1 then w / 256 % 256 else w % 256
  }

  /** Four characters carry three bytes; three carry two; two carry one. */
  lemma GroupDecodes(b2: byte, b1: byte, b0: byte, n: nat)
    requires n == 4 || (n == 3 && b2 == 0) || (n == 2 && b2 == 0 && b1 == 0)
    ensures var w := Absorb(Emit(Word(b2, b1, b0), n));
            ByteOf(w, 2) == b2 && ByteOf(w, 1) == b1 && ByteOf(w, 0) == b0
  {
    assert Pow64(2) == 4096 && Pow64(3) == 262144 && Pow64(4) == 16777216;
    AbsorbEmit(Word(b2, b1, b0), n);
    WordBytes(b2, b1, b0);
  }

  lemma WordBytes(b2: byte, b1: byte, b0: byte)
    ensures var w := Word(b2, b1, b0);
            ByteOf(w, 2) == b2 && ByteOf(w, 1) == b1 && ByteOf(w, 0) == b0
  {
    var w := Word(b2, b1, b0);
    assert w / 256 == b2 * 256 + b1;
    assert w / 65536 == b2;
  }

  // ---- the orders -----------------------------------------------------------------------

  /** Positions of the three bytes of a group. */
  type Triple = (nat, nat, nat)

  const SHA256_ORDER: seq<Triple> := [
    (0, 10, 20), (21, 1, 11), (12, 22, 2), (3, 13, 23), (24, 4, 14),
    (15, 25, 5), (6, 16, 26), (27, 7, 17), (18, 28, 8), (9, 19, 29)
  ]

  const SHA512_ORDER: seq<Triple> := [
    (0, 21, 42), (22, 43, 1), (44, 2, 23), (3, 24, 45), (25, 46, 4), (47, 5, 26), (6, 27, 48),
    (28, 49, 7), (50, 8, 29), (9, 30, 51), (31, 52, 10), (53, 11, 32), (12, 33, 54), (34, 55, 13),
    (56, 14, 35), (15, 36, 57), (37, 58, 16), (59, 17, 38), (18, 39, 60), (40, 61, 19), (62, 20, 41)
  ]

  /** buf_perm of md5crypt, read in threes: position 6 * i mod 17, then 5, then 11 on its own. */
  function Md5Source(i: nat): (k: nat)
    requires i < 16
    ensures k < 16
  {
    if i < 14 then 6 * i % 17 else if i == 14 then 5 else 11
  }

  function Md5Order(): (o: seq<Triple>) {
    [(0, 6, 12), (1, 7, 13), (2, 8, 14), (3, 9, 15), (4, 10, 5)]
  }

  /** The open-coded permutation of md5crypt, in groups. */
  lemma Md5OrderIsPerm(g: nat)
    requires g < 5
    ensures Md5Order()[g] == (Md5Source(3 * g), Md5Source(3 * g + 1), Md5Source(3 * g + 2))
  {
  }

  predicate Within(order: seq<Triple>, size: nat) {
    forall g :: 0 <= g < |order| ==> order[g].0 < size && order[g].1 < size && order[g].2 < size
  }

  function GroupText(order: seq<Triple>, d: seq<byte>, g: nat): seq<byte>
    requires Within(order, |d|) && g < |order|
  {
    Emit(Word(d[order[g].0], d[order[g].1], d[order[g].2]), 4)
  }

  /** The first n groups of a digest. */
  function Groups(order: seq<Triple>, d: seq<byte>, n: nat): (t: seq<byte>)
    requires Within(order, |d|) && n <= |order|
    ensures |t| == 4 * n
  {
    if n == 0 then [] else Groups(order, d, n - 1) + GroupText(order, d, n - 1)
  }

  lemma GroupsStep(order: seq<Triple>, d: seq<byte>, n: nat)
    requires Within(order, |d|) && n < |order|
    ensures Groups(order, d, n + 1) == Groups(order, d, n) + GroupText(order, d, n)
    ensures |GroupText(order, d, n)| == 4
  {
  }

  lemma {:induction false} GroupsAt(order: seq<Triple>, d: seq<byte>, n: nat, g: nat)
    requires Within(order, |d|) && g < n <= |order|
    ensures Groups(order, d, n)[4 * g..4 * g + 4] == GroupText(order, d, g)
    decreases n
  {
    hide Groups, GroupText, Within;
    GroupsStep(order, d, n - 1);
    var front, last := Groups(order, d, n - 1), GroupText(order, d, n - 1);
    if g < n - 1 {
      GroupsAt(order, d, n - 1, g);
      FrontSlice(front, last, 4 * g, 4 * g + 4);
    } else {
      Halves(front, last);
    }
  }

  lemma {:induction false} GroupsNoDollar(order: seq<Triple>, d: seq<byte>, n: nat)
    requires Within(order, |d|) && n <= |order|
    ensures forall i :: 0 <= i < 4 * n ==> Groups(order, d, n)[i] != 0x24 && Groups(order, d, n)[i] != 0
    decreases n
  {
    if n > 0 {
      GroupsNoDollar(order, d, n - 1);
      EmitNoDollar(Word(d[order[n - 1].0], d[order[n - 1].1], d[order[n - 1].2]), 4);
    }
  }

  datatype Kind = Md5 | Sha256 | Sha512 {
    function Size(): nat {
      match this case Md5 => 16 case Sha256 => 32 case Sha512 => 64
    }

    function Order(): seq<Triple> {
      match this case Md5 => Md5Order() case Sha256 => SHA256_ORDER case Sha512 => SHA512_ORDER
    }

    /** The last, short group: its word and its number of characters. */
    function TailWord(d: seq<byte>): nat
      requires |d| == Size()
    {
      match this
      case Md5 => Word(0, 0, d[11])
      case Sha256 => Word(0, d[31], d[30])
      case Sha512 => Word(0, 0, d[63])
    }

    function TailLen(): nat {
      match this case Md5 => 2 case Sha256 => 3 case Sha512 => 2
    }

    function TextLen(): nat {
      4 * |Order()| + TailLen()
    }
  }

  lemma OrderWithin(k: Kind)
    ensures Within(k.Order(), k.Size())
  {
  }

  /** The digest as printed after the salt. */
  function Print(k: Kind, d: seq<byte>): (t: seq<byte>)
    requires |d| == k.Size()
    ensures |t| == k.TextLen()
  {
    OrderWithin(k);
    Groups(k.Order(), d, |k.Order()|) + Emit(k.TailWord(d), k.TailLen())
  }

  // ---- reading it back --------------------------------------------------------------------

  /** The place in a group's word of its q-th byte, when the group is turned r times. */
  function Turned(q: nat, r: nat): (slot: nat)
    requires q < 3 && r < 3
    ensures slot < 3
  {
    if r == 0 then 2 - q
    else if r == 1 then (if q == 2 then 2 else 1 - q)
    else if q == 0 then 0
    else 3 - q
  }

  /** Where byte i of the digest is printed: its group and its place in the group's word. */
  function Place(k: Kind, i: nat): (p: (nat, nat))
    requires i < k.Size()
    ensures p.1 < 3
  {
    match k
    case Md5 =>
      if i == 11 then (5, 0) else if i == 5 then (4, 0)
      else if i < 5 then (i, 2) else if i < 11 then (i - 6, 1) else (i - 12, 0)
    case Sha256 =>
      if i == 31 then (10, 1) else if i == 30 then (10, 0)
      else (i % 10, Turned(i / 10, i % 10 % 3))
    case Sha512 =>
      if i == 63 then (21, 0)
      else (i % 21, Turned(i / 21, (3 - i % 21 % 3) % 3))
  }

  /** The i-th byte of the digest, read from the printed text. */
  function ByteAt(k: Kind, t: seq<byte>, i: nat): byte
    requires |t| == k.TextLen() && i < k.Size()
  {
    var (g, slot) := Place(k, i);
    if g < |k.Order()| then ByteOf(Absorb(t[4 * g..4 * g + 4]), slot)
    else ByteOf(Absorb(t[4 * |k.Order()|..]), slot)
  }

  function Decode(k: Kind, t: seq<byte>): (d: seq<byte>)
    requires |t| == k.TextLen()
    ensures |d| == k.Size()
  {
    seq(k.Size(), i requires 0 <= i < k.Size() => ByteAt(k, t, i))
  }

  function Slot(t: Triple, slot: nat): nat
    requires slot < 3
  {
    if slot == 2 then t.0 else if slot == 1 then t.1 else t.2
  }

  lemma OrderLengths()
    ensures |SHA256_ORDER| == 10 && |SHA512_ORDER| == 21
  {
  }

  lemma Sha256At(g: nat)
    requires g < 10
    ensures SHA256_ORDER[g] == if g % 3 == 0 then (g, g + 10, g + 20)
                               else if g % 3 == 1 then (g + 20, g, g + 10)
                               else (g + 10, g + 20, g)
  {
  }

  lemma Sha512At(g: nat)
    requires g < 21
    ensures SHA512_ORDER[g] == if g % 3 == 0 then (g, g + 21, g + 42)
                               else if g % 3 == 1 then (g + 21, g + 42, g)
                               else (g + 42, g, g + 21)
  {
  }

  /** The orders by a rule: each group starts 21 or 22 bytes on, and takes every tenth or 21st byte. */
  lemma OrdersAre(g: nat)
    ensures g < 5 ==> Md5Order()[g] == (g, g + 6, if g == 4 then 5 else g + 12)
    ensures |SHA256_ORDER| == 10 && |SHA512_ORDER| == 21
    ensures g < 10 ==> SHA256_ORDER[g] == (21 * g % 30, (21 * g + 10) % 30, (21 * g + 20) % 30)
    ensures g < 21 ==> SHA512_ORDER[g] == (22 * g % 63, (22 * g + 21) % 63, (22 * g + 42) % 63)
  {
    hide SHA256_ORDER, SHA512_ORDER;
    OrderLengths();
    if g < 10 {
      Sha256At(g);
      ByTens(g, g / 3);
    }
    if g < 21 {
      Sha512At(g);
      ByTwentyOnes(g, g / 3);
    }
  }

  lemma ByTens(g: nat, t: nat)
    requires g < 10 && t == g / 3
    ensures 21 * g % 30 == (if g % 3 == 0 then g else if g % 3 == 1 then g + 20 else g + 10)
    ensures (21 * g + 10) % 30 == (if g % 3 == 0 then g + 10 else if g % 3 == 1 then g else g + 20)
    ensures (21 * g + 20) % 30 == (if g % 3 == 0 then g + 20 else if g % 3 == 1 then g + 10 else g)
  {
    assert g == 3 * t + g % 3;
  }

  lemma ByTwentyOnes(g: nat, t: nat)
    requires g < 21 && t == g / 3
    ensures 22 * g % 63 == (if g % 3 == 0 then g else if g % 3 == 1 then g + 21 else g + 42)
    ensures (22 * g + 21) % 63 == (if g % 3 == 0 then g + 21 else if g % 3 == 1 then g + 42 else g)
    ensures (22 * g + 42) % 63 == (if g % 3 == 0 then g + 42 else if g % 3 == 1 then g else g + 21)
  {
    assert g == 3 * t + g % 3;
  }

  /**
   The printed digest character by character: four for each group of three bytes, the first byte
   on top, six bits each from below, and the rest for the bytes left over.
   */
  lemma PrintAt(k: Kind, d: seq<byte>, g: nat, j: nat)
    requires |d| == k.Size() && j < 4
    ensures Within(k.Order(), |d|) && Pow64(j) > 0
    ensures g < |k.Order()| ==>
              var o := k.Order()[g];
              Print(k, d)[4 * g + j] == Cov((d[o.0] * 65536 + d[o.1] * 256 + d[o.2]) / Pow64(j) % 64)
    ensures k.TextLen() == if k == Md5 then 22 else if k == Sha256 then 43 else 86
    ensures 4 * |k.Order()| + j < k.TextLen() ==>
              var w: nat := if k == Md5 then d[11] as int else if k == Sha256 then d[31] as int * 256 + d[30] else d[63];
              Print(k, d)[4 * |k.Order()| + j] == Cov(w / Pow64(j) % 64)
  {
    hide SHA256_ORDER, SHA512_ORDER, Emit, Cov, Pow64, Groups;
    OrderWithin(k);
    OrderLengths();
    EmitAt(0, 4, j);
    if g < |k.Order()| { GroupCharAt(k, d, g, j); }
    if j < k.TailLen() { EmitAt(k.TailWord(d), k.TailLen(), j); }
  }

  lemma GroupCharAt(k: Kind, d: seq<byte>, g: nat, j: nat)
    requires |d| == k.Size() && j < 4 && Within(k.Order(), |d|) && g < |k.Order()|
    ensures Pow64(j) > 0
    ensures Print(k, d)[4 * g + j]
         == Cov(Word(d[k.Order()[g].0], d[k.Order()[g].1], d[k.Order()[g].2]) / Pow64(j) % 64)
  {
    hide SHA256_ORDER, SHA512_ORDER, Emit, Cov, Pow64, Groups, Word;
    var o, n := k.Order()[g], |k.Order()|;
    GroupsAt(k.Order(), d, n, g);
    EmitAt(Word(d[o.0], d[o.1], d[o.2]), 4, j);
    InGroups(Groups(k.Order(), d, n), Emit(k.TailWord(d), k.TailLen()), g, j);
  }

  lemma InGroups(s: seq<byte>, tail: seq<byte>, g: nat, j: nat)
    requires j < 4 && 4 * g + 4 <= |s|
    ensures (s + tail)[4 * g + j] == s[4 * g..4 * g + 4][j]
  {
  }

  lemma Sha256Place(i: nat)
    requires i < 30
    ensures var (g, slot) := Place(Sha256, i); g < 10 && Slot(SHA256_ORDER[g], slot) == i
  {
    hide SHA256_ORDER, SHA512_ORDER;
    OrderLengths();
    Sha256At(i % 10);
  }

  lemma Sha512Place(i: nat)
    requires i < 63
    ensures var (g, slot) := Place(Sha512, i); g < 21 && Slot(SHA512_ORDER[g], slot) == i
  {
    hide SHA256_ORDER, SHA512_ORDER;
    OrderLengths();
    Sha512At(i % 21);
  }

  /** Each order puts every byte where Place says, so it uses every byte exactly once. */
  lemma PlaceIsOrder(k: Kind, i: nat)
    requires i < k.Size()
    ensures var (g, slot) := Place(k, i);
            g < |k.Order()| ==> Slot(k.Order()[g], slot) == i
  {
    hide SHA256_ORDER, SHA512_ORDER, Slot, Turned;
    OrderLengths();
    match k {
      case Md5 => Md5Place(i);
      case Sha256 => if i < 30 { Sha256Place(i); }
      case Sha512 => if i < 63 { Sha512Place(i); }
    }
  }

  lemma Md5Place(i: nat)
    requires i < 16
    ensures var (g, slot) := Place(Md5, i); g < 5 ==> Slot(Md5Order()[g], slot) == i
  {
  }

  lemma TailPlace(k: Kind, d: seq<byte>, i: nat)
    requires |d| == k.Size() && i < k.Size() && Place(k, i).0 >= |k.Order()|
    ensures ByteOf(k.TailWord(d), Place(k, i).1) == d[i]
  {
    match k {
      case Md5 => WordBytes(0, 0, d[11]);
      case Sha256 => WordBytes(0, d[31], d[30]);
      case Sha512 => WordBytes(0, 0, d[63]);
    }
  }

  lemma TailDecodes(k: Kind, d: seq<byte>)
    requires |d| == k.Size()
    ensures Absorb(Emit(k.TailWord(d), k.TailLen())) == k.TailWord(d)
  {
    assert Pow64(2) == 4096 && Pow64(3) == 262144;
    AbsorbEmit(k.TailWord(d), k.TailLen());
  }

  lemma ByteAtPrint(k: Kind, d: seq<byte>, i: nat)
    requires |d| == k.Size() && i < k.Size()
    ensures ByteAt(k, Print(k, d), i) == d[i]
  {
    hide Place, Groups, GroupText, Emit, Absorb;
    var t, o := Print(k, d), k.Order();
    OrderWithin(k);
    PlaceIsOrder(k, i);
    var (g, slot) := Place(k, i);
    if g < |o| {
      GroupsAt(o, d, |o|, g);
      assert t[4 * g..4 * g + 4] == GroupText(o, d, g);
      GroupByte(o, d, g, slot);
    } else {
      assert t[4 * |o|..] == Emit(k.TailWord(d), k.TailLen());
      TailDecodes(k, d);
      TailPlace(k, d, i);
    }
  }

  lemma GroupByte(order: seq<Triple>, d: seq<byte>, g: nat, slot: nat)
    requires Within(order, |d|) && g < |order| && slot < 3
    ensures ByteOf(Absorb(GroupText(order, d, g)), slot) == d[Slot(order[g], slot)]
  {
    GroupDecodes(d[order[g].0], d[order[g].1], d[order[g].2], 4);
  }

  /** The printed digest decodes back to the digest, whatever its bytes. */
  lemma DecodePrint(k: Kind, d: seq<byte>)
    requires |d| == k.Size()
    ensures Decode(k, Print(k, d)) == d
  {
    forall i | 0 <= i < k.Size()
      ensures ByteAt(k, Print(k, d), i) == d[i]
    {
      ByteAtPrint(k, d, i);
    }
  }
}
