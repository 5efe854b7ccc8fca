/**
 Text handling around password hashes: the rounds field of the salt with its
 decimal printer and parser, and the static output buffers (apps/passwd.c).
 */
module CryptText {
  import opened CText
  import opened Crypt64

  type bytes = seq<byte>

  const DOLLAR: byte := 0x24

  /** "rounds=" */
  const ROUNDS_PREFIX: bytes := [0x72, 0x6F, 0x75, 0x6E, 0x64, 0x73, 0x3D]

  predicate NoNul(s: bytes) {
    forall i :: 0 <= i < |s| ==> s[i] != 0
  }

  /** strlcpy of a text that must fit in `n` characters and a NUL. */
  function Cut(s: bytes, n: nat): (t: bytes)
    ensures |t| <= n && t <= s
    ensures |s| <= n ==> t == s
  {
    if |s| <= n then s else s[..n]
  }

  // ---- decimal numbers ------------------------------------------------------------------

  predicate IsDec(c: byte) {
    0x30 <= c <= 0x39
  }

  /** printf("%u") */
  function Dec(n: nat): (s: bytes)
    ensures s != [] && (forall i :: 0 <= i < |s| ==> IsDec(s[i]))
  {
    if n < 10 then [0x30 + n] else Dec(n / 10) + [0x30 + n % 10]
  }

  function DecValue(s: bytes): nat
    requires forall i :: 0 <= i < |s| ==> IsDec(s[i])
  {
    if s == [] then 0
    else
      assert IsDec(s[|s| - 1]);
      10 * DecValue(s[..|s| - 1]) + (s[|s| - 1] as int - 0x30)
  }

  lemma {:induction false} DecRoundTrip(n: nat)
    ensures DecValue(Dec(n)) == n
    decreases n
  {
    if n >= 10 {
      DecRoundTrip(n / 10);
      assert Dec(n)[..|Dec(n)| - 1] == Dec(n / 10);
    } else {
      assert Dec(n)[..0] == [];
    }
  }

  lemma DecLength(n: nat)
    requires n <= ROUNDS_MAX
    ensures |Dec(n)| <= 9
  {
    DecDigits(n, 9);
  }

  function Pow10(k: nat): nat {
    if k == 0 then 1 else 10 * Pow10(k - 1)
  }

  lemma {:induction false} DecDigits(n: nat, k: nat)
    requires k >= 1 && n < Pow10(k)
    ensures |Dec(n)| <= k
    decreases k
  {
    if n >= 10 {
      DecDigits(n / 10, k - 1);
    }
  }

  // ---- strtoul --------------------------------------------------------------------------

  const ULONG := 0x1_0000_0000_0000_0000

  predicate IsSpace(c: byte) {
    c == 0x20 || 0x09 <= c <= 0x0D
  }

  /** The six white space characters of C. */
  lemma SpaceIs(c: byte)
    ensures IsSpace(c) <==> c in {0x20, 0x09, 0x0A, 0x0B, 0x0C, 0x0D}
  {
  }

  function SkipSpace(s: bytes, i: nat): (j: nat)
    requires i <= |s|
    ensures i <= j <= |s|
    decreases |s| - i
  {
    if i < |s| && IsSpace(s[i]) then SkipSpace(s, i + 1) else i
  }

  function SkipDec(s: bytes, i: nat): (j: nat)
    requires i <= |s|
    ensures i <= j <= |s|
    ensures forall k :: i <= k < j ==> IsDec(s[k])
    ensures j < |s| ==> !IsDec(s[j])
    decreases |s| - i
  {
    if i < |s| && IsDec(s[i]) then SkipDec(s, i + 1) else i
  }

  /** strtoul in base 10 with a 64-bit unsigned long: the value and the end position. */
  function Strtoul(s: bytes): (r: (nat, nat))
    ensures r.1 <= |s|
  {
    var w := SkipSpace(s, 0);
    var d := if w < |s| && (s[w] == 0x2B || s[w] == 0x2D) then w + 1 else w;
    var e := SkipDec(s, d);
    if e == d then (0, 0)
    else
      var v := DecValue(s[d..e]);
      var x := if v >= ULONG then ULONG - 1
               else if s[w] == 0x2D && v > 0 then ULONG - v
               else v;
      (x, e)
  }

  /** A number followed by a dollar sign is read back, and reading stops at the sign. */
  lemma StrtoulDec(n: nat, rest: bytes)
    requires n < ULONG
    ensures Strtoul(Dec(n) + [DOLLAR] + rest) == (n, |Dec(n)|)
  {
    var s := Dec(n) + [DOLLAR] + rest;
    assert IsDec(Dec(n)[0]) && s[0] == Dec(n)[0];
    assert SkipSpace(s, 0) == 0;
    var e := SkipDec(s, 0);
    assert s[|Dec(n)|] == DOLLAR;
    assert forall k :: 0 <= k < |Dec(n)| ==> s[k] == Dec(n)[k];
    assert e == |Dec(n)|;
    assert s[0..e] == Dec(n);
    DecRoundTrip(n);
  }

  // ---- the salt argument of shacrypt -------------------------------------------------------

  const SALT_LEN_MAX := 16
  const ROUNDS_DEFAULT := 5000
  const ROUNDS_MIN := 1000
  const ROUNDS_MAX := 999999999

  function Clamp(n: nat): (m: nat)
    ensures ROUNDS_MIN <= m <= ROUNDS_MAX
  {
    if n > ROUNDS_MAX then ROUNDS_MAX else if n < ROUNDS_MIN then ROUNDS_MIN else n
  }

  /** The parts of a salt argument: whether it sets the rounds, the rounds, and the salt itself. */
  datatype SaltSpec = SaltSpec(custom: bool, rounds: nat, salt: bytes)

  /** None when "rounds=" is not followed by a number and a dollar sign. */
  function ParseSalt(arg: bytes): (r: Option<SaltSpec>)
    ensures r.Some? ==> ROUNDS_MIN <= r.value.rounds <= ROUNDS_MAX && |r.value.salt| <= SALT_LEN_MAX
  {
    if ROUNDS_PREFIX <= arg then
      var num := arg[|ROUNDS_PREFIX|..];
      var (v, e) := Strtoul(num);
      if e < |num| && num[e] == DOLLAR then Some(SaltSpec(true, Clamp(v), Cut(num[e + 1..], SALT_LEN_MAX)))
      else None
    else Some(SaltSpec(false, ROUNDS_DEFAULT, Cut(arg, SALT_LEN_MAX)))
  }

  /** The rounds and salt fields as they are printed. */
  function SaltText(p: SaltSpec): bytes {
    (if p.custom then ROUNDS_PREFIX + Dec(p.rounds) + [DOLLAR] else []) + p.salt
  }

  // ---- what the fields mean --------------------------------------------------------------------

  /** A text as ASCII bytes. */
  function Ascii(s: string): (b: bytes)
    requires forall i :: 0 <= i < |s| ==> s[i] < 128 as char
    ensures |b| == |s| && forall i :: 0 <= i < |s| ==> b[i] == s[i] as int
  {
    seq(|s|, i requires 0 <= i < |s| => s[i] as int)
  }

  /** Every decimal digit by its place: k places from the right stands the digit of 10 to the k. */
  lemma {:induction false} DecByPlace(n: nat, k: nat)
    ensures n < Pow10(|Dec(n)|) && (n > 0 ==> Pow10(|Dec(n)| - 1) <= n)
    ensures k < |Dec(n)| ==> Pow10(k) > 0 && Dec(n)[|Dec(n)| - 1 - k] == "0123456789"[n / Pow10(k) % 10] as int
  {
    DigitCode(n % 10);
    assert n / Pow10(0) == n;
    if n >= 10 {
      var d := Dec(n / 10);
      assert Dec(n) == d + [0x30 + n % 10];
      DecByPlace(n / 10, if k == 0 then 0 else k - 1);
      if 0 < k < |Dec(n)| {
        DivDiv10(n, Pow10(k - 1));
        assert Dec(n)[|Dec(n)| - 1 - k] == d[|d| - 1 - (k - 1)];
      }
    }
  }

  lemma DigitCode(d: nat)
    requires d < 10
    ensures "0123456789"[d] as int == 0x30 + d
  {
  }

  lemma DivDiv10(n: nat, p: nat)
    requires p > 0
    ensures n / 10 / p == n / (10 * p)
  {
    var q := n / 10 / p;
    assert n / 10 == q * p + n / 10 % p;
    assert n == 10 * (n / 10) + n % 10;
    assert n == q * (10 * p) + (10 * (n / 10 % p) + n % 10);
    QuotIs(n, 10 * p, q, 10 * (n / 10 % p) + n % 10);
  }

  lemma QuotIs(n: nat, m: nat, q: nat, r: nat)
    requires r < m && n == q * m + r
    ensures n / m == q
  {
    var d := n / m - q;
    assert d * m == r - n % m;
    assert d >= 1 ==> d * m >= m;
    assert d <= -1 ==> d * m <= 0 - m;
  }

  /**
   The salt argument. Without "rounds=" in front: 5000 rounds and its first sixteen bytes. With a
   number and a dollar sign behind that: the number, but at least 1000 and at most 999999999, and
   the first sixteen bytes of what follows.
   */
  lemma SaltMeans(arg: bytes, n: nat, rest: bytes)
    ensures !(Ascii("rounds=") <= arg) ==> ParseSalt(arg) == Some(SaltSpec(false, 5000, if |arg| <= 16 then arg else arg[..16]))
    ensures var num := Dec(n) + [0x24] + rest;
            var r := if n < 1000 then 1000 else if n > 999999999 then 999999999 else n;
            ParseSalt(Ascii("rounds=") + num) == Some(SaltSpec(true, r, if |rest| <= 16 then rest else rest[..16]))
  {
    assert ROUNDS_PREFIX == Ascii("rounds=");
    hide Strtoul, Dec, ROUNDS_PREFIX, Ascii;
    var num := Dec(n) + [DOLLAR] + rest;
    Halves(ROUNDS_PREFIX, num);
    RoundsRead(n, rest);
  }

  lemma RoundsRead(n: nat, rest: bytes)
    ensures var num := Dec(n) + [DOLLAR] + rest;
            var (v, e) := Strtoul(num);
            e < |num| && num[e] == DOLLAR && num[e + 1..] == rest && Clamp(v) == Clamp(n)
  {
    hide Strtoul, Dec;
    StrtoulMeans([], [], n, [DOLLAR] + rest);
    var num := Dec(n) + [DOLLAR] + rest;
    assert [] + ([] + (Dec(n) + ([DOLLAR] + rest))) == num;
    assert num[|Dec(n)|] == DOLLAR && num[|Dec(n)| + 1..] == rest;
  }

  /**
   strtoul on white space, a sign or none, a number and what follows it: the number, or its
   complement to 2 to the 64 behind a minus sign, or the largest 64-bit value when it is too large
   for that, and the end of the digits.
   */
  lemma StrtoulMeans(space: bytes, sign: bytes, n: nat, rest: bytes)
    requires forall i :: 0 <= i < |space| ==> space[i] in {0x20, 0x09, 0x0A, 0x0B, 0x0C, 0x0D}
    requires sign in {[], [0x2B], [0x2D]} && (rest == [] || !(0x30 <= rest[0] <= 0x39))
    ensures var v := if n >= 0x1_0000_0000_0000_0000 then 0xFFFF_FFFF_FFFF_FFFF
                     else if sign == [0x2D] && n > 0 then 0x1_0000_0000_0000_0000 - n
                     else n;
            Strtoul(space + (sign + (Dec(n) + rest))) == (v, |space| + |sign| + |Dec(n)|)
  {
    hide Dec, DecValue, SkipSpace, SkipDec, Strtoul, Laid;
    DecRoundTrip(n);
    assert Spaces(space) && Digits(Dec(n)) && IsDec(Dec(n)[0]);
    hide Spaces, Digits;
    if sign == [] {
      StrtoulPlain(space, Dec(n), rest);
      StrtoulParts(space + (Dec(n) + rest), |space|, |space|, Dec(n));
      assert sign + (Dec(n) + rest) == Dec(n) + rest;
    } else {
      StrtoulSigned(space, sign[0], Dec(n), rest);
      assert sign == [sign[0]];
      StrtoulParts(space + (sign + (Dec(n) + rest)), |space|, |space| + 1, Dec(n));
    }
  }

  /** White space up to w, and from k on the digits d and no more of them. */
  ghost predicate Laid(s: bytes, w: nat, k: nat, d: bytes) {
    && w == SkipSpace(s, 0) && w <= k && w < |s| && k + |d| <= |s|
    && s[k..k + |d|] == d && SkipDec(s, k) == k + |d|
  }

  predicate Digits(d: bytes) {
    forall k :: 0 <= k < |d| ==> IsDec(d[k])
  }

  predicate Spaces(s: bytes) {
    forall k :: 0 <= k < |s| ==> IsSpace(s[k])
  }

  lemma StrtoulPlain(space: bytes, d: bytes, rest: bytes)
    requires Spaces(space) && d != [] && Digits(d) && (rest == [] || !IsDec(rest[0]))
    ensures Laid(space + (d + rest), |space|, |space|, d) && (space + (d + rest))[|space|] == d[0]
  {
    hide SkipSpace, SkipDec;
    assert (d + rest)[0] == d[0] && IsDec(d[0]);
    SpacesSkipped(space, d + rest, 0);
    var s := space + (d + rest);
    assert s[|space|..] == d + rest && s[|space|] == d[0];
    DigitsSkipped(s, |space|, d, rest);
  }

  lemma StrtoulSigned(space: bytes, c: byte, d: bytes, rest: bytes)
    requires Spaces(space) && (c == 0x2B || c == 0x2D) && Digits(d) && (rest == [] || !IsDec(rest[0]))
    ensures Laid(space + ([c] + (d + rest)), |space|, |space| + 1, d) && (space + ([c] + (d + rest)))[|space|] == c
  {
    hide SkipSpace, SkipDec;
    var s := space + ([c] + (d + rest));
    assert ([c] + (d + rest))[0] == c;
    SpacesSkipped(space, [c] + (d + rest), 0);
    assert s[|space| + 1..] == d + rest;
    DigitsSkipped(s, |space| + 1, d, rest);
  }

  lemma StrtoulParts(s: bytes, w: nat, k: nat, d: bytes)
    requires Digits(d) && d != [] && Laid(s, w, k, d)
    requires k == if s[w] == 0x2B || s[w] == 0x2D then w + 1 else w
    ensures var v := DecValue(d);
            Strtoul(s) == (if v >= ULONG then ULONG - 1 else if s[w] == 0x2D && v > 0 then ULONG - v else v, k + |d|)
  {
    hide DecValue, SkipSpace, SkipDec;
  }

  /** No digits: the value 0 and no end, whatever the white space and the sign. */
  lemma StrtoulNothing(space: bytes, sign: bytes, rest: bytes)
    requires forall i :: 0 <= i < |space| ==> space[i] in {0x20, 0x09, 0x0A, 0x0B, 0x0C, 0x0D}
    requires sign in {[0x2B], [0x2D]} && (rest == [] || !(0x30 <= rest[0] <= 0x39))
    ensures Strtoul(space + (sign + rest)) == (0, 0) && Strtoul(space) == (0, 0)
  {
    hide SkipSpace, SkipDec;
    SpacesSkipped(space, sign + rest, 0);
    SpacesSkipped(space, [], 0);
    assert space + [] == space;
    DigitsSkipped(space + (sign + rest), |space| + 1, [], rest);
    DigitsSkipped(space, |space|, [], []);
  }

  lemma {:induction false} SpacesSkipped(space: bytes, rest: bytes, i: nat)
    requires Spaces(space) && i <= |space| && (rest == [] || !IsSpace(rest[0]))
    ensures SkipSpace(space + rest, i) == |space|
    decreases |space| - i
  {
    var s := space + rest;
    if i < |space| {
      assert s[i] == space[i];
      SpacesSkipped(space, rest, i + 1);
    } else if rest != [] {
      assert s[i] == rest[0];
    }
  }

  lemma DigitsSkipped(s: bytes, k: nat, d: bytes, rest: bytes)
    requires Digits(d) && (rest == [] || !IsDec(rest[0]))
    requires k <= |s| && s[k..] == d + rest
    ensures SkipDec(s, k) == k + |d| <= |s| && s[k..k + |d|] == d
  {
    var e := SkipDec(s, k);
    assert forall i :: 0 <= i < |d| ==> s[k + i] == s[k..][i] == d[i];
    assert rest != [] ==> s[k + |d|] == s[k..][|d|] == rest[0];
    assert s[k..k + |d|] == s[k..][..|d|];
  }

  /** Printing the parts of any salt argument and parsing them again gives the same parts. */
  lemma SaltRoundTrip(arg: bytes)
    requires ParseSalt(arg).Some?
    ensures ParseSalt(SaltText(ParseSalt(arg).value)) == ParseSalt(arg)
  {
    var p := ParseSalt(arg).value;
    if p.custom {
      CustomRoundTrip(p);
    } else {
      assert SaltText(p) == p.salt && p.salt <= arg;
    }
  }

  lemma CustomRoundTrip(p: SaltSpec)
    requires p.custom && ROUNDS_MIN <= p.rounds <= ROUNDS_MAX && |p.salt| <= SALT_LEN_MAX
    ensures ParseSalt(SaltText(p)) == Some(p)
  {
    hide Strtoul, Dec, ROUNDS_PREFIX;
    var front := Dec(p.rounds) + [DOLLAR];
    var num := front + p.salt;
    Assoc(ROUNDS_PREFIX, Dec(p.rounds), [DOLLAR]);
    Assoc(ROUNDS_PREFIX, front, p.salt);
    Halves(ROUNDS_PREFIX, num);
    StrtoulDec(p.rounds, p.salt);
    Halves(front, p.salt);
    assert num[|Dec(p.rounds)|] == front[|Dec(p.rounds)|] == DOLLAR;
  }

  // ---- C strings in a fixed buffer ---------------------------------------------------------

  /** The buffer holds a text and its closing NUL. */
  ghost predicate Holds(buf: array<byte>, text: bytes)
    reads buf
  {
    |text| < buf.Length && buf[..|text|] == text && buf[|text|] == 0 && NoNul(text)
  }

  /** A C string: no byte of the text is 0, and the first byte after it is. */
  lemma HoldsMeans(buf: array<byte>, text: bytes)
    ensures Holds(buf, text)
       <==> (&& |text| < buf.Length && buf[|text|] == 0
             && forall i :: 0 <= i < |text| ==> buf[i] == text[i] && text[i] != 0)
  {
    if |text| < buf.Length && forall i :: 0 <= i < |text| ==> buf[i] == text[i] {
      assert buf[..|text|] == text;
    }
    if Holds(buf, text) {
      assert forall i :: 0 <= i < |text| ==> buf[i] == buf[..|text|][i];
    }
  }

  method StrLen(buf: array<byte>, ghost text: bytes) returns (l: nat)
    requires Holds(buf, text)
    ensures l == |text|
  {
    l := 0;
    while buf[l] != 0
      invariant l <= |text|
      decreases |text| - l
    {
      assert buf[l] == 0 || l < |text|;
      l := l + 1;
    }
  }

  /** OPENSSL_strlcat */
  method StrCat(buf: array<byte>, ghost text: bytes, src: bytes)
    requires Holds(buf, text) && NoNul(src)
    modifies buf
    ensures Holds(buf, text + Cut(src, buf.Length - 1 - |text|))
  {
    var l := StrLen(buf, text);
    var k := 0;
    while l + k + 1 < buf.Length && k < |src|
      invariant 0 <= k <= |src| && l + k < buf.Length
      invariant buf[..l + k] == text + src[..k]
    {
      buf[l + k] := src[k];
      k := k + 1;
    }
    buf[l + k] := 0;
    assert src[..k] == Cut(src, buf.Length - 1 - l);
    assert buf[..l + k] == text + src[..k];
  }

  /** StrCat when there is room for all of src. */
  method Append(buf: array<byte>, ghost text: bytes, src: bytes)
    requires Holds(buf, text) && NoNul(src) && |text| + |src| < buf.Length
    modifies buf
    ensures Holds(buf, text + src)
  {
    hide Holds;
    StrCat(buf, text, src);
  }

  /** b64_from_24bit: write n characters at cp. */
  method PutWord(buf: array<byte>, cp: nat, w0: nat, n: nat) returns (q: nat)
    requires cp + n <= buf.Length
    modifies buf
    ensures q == cp + n
    ensures buf[..q] == old(buf[..cp]) + Emit(w0, n)
  {
    var w, i := w0, n;
    q := cp;
    while i > 0
      invariant 0 <= i <= n && q == cp + (n - i)
      invariant buf[..q] + Emit(w, i) == old(buf[..cp]) + Emit(w0, n)
    {
      i := i - 1;
      ghost var before := buf[..q];
      buf[q] := Cov(w % 64);
      assert buf[..q] == before;
      assert buf[..q + 1] == before + [Cov(w % 64)];
      assert Emit(w, i + 1) == [Cov(w % 64)] + Emit(w / 64, i);
      q, w := q + 1, w / 64;
    }
    assert buf[..q] + [] == buf[..q];
  }

  lemma Appended(a: bytes, b: bytes, c: bytes, ab: bytes)
    requires ab == a + b
    ensures ab + c == a + (b + c)
  {
  }

  /** The full groups of a digest. */
  method PutGroups(buf: array<byte>, cp: nat, order: seq<Triple>, d: bytes) returns (q: nat)
    requires Within(order, |d|) && cp + 4 * |order| <= buf.Length
    modifies buf
    ensures q == cp + 4 * |order|
    ensures buf[..q] == old(buf[..cp]) + Groups(order, d, |order|)
  {
    q := cp;
    for g := 0 to |order|
      invariant q == cp + 4 * g
      invariant buf[..q] == old(buf[..cp]) + Groups(order, d, g)
    {
      hide Emit, Groups, Word;
      ghost var before := buf[..q];
      q := PutWord(buf, q, Word(d[order[g].0], d[order[g].1], d[order[g].2]), 4);
      GroupsStep(order, d, g);
      Appended(old(buf[..cp]), Groups(order, d, g), GroupText(order, d, g), before);
    }
  }

  method Close(buf: array<byte>, cp: nat, ghost text: bytes)
    requires cp < buf.Length && buf[..cp] == text && NoNul(text)
    modifies buf
    ensures Holds(buf, text)
  {
    buf[cp] := 0;
    assert buf[..cp] == text;
  }

  /** The output part: a dollar sign, the digest in groups, the closing NUL. */
  method PutDigest(buf: array<byte>, ghost text: bytes, k: Kind, d: bytes)
    requires Holds(buf, text) && |d| == k.Size()
    requires |text| + 1 + k.TextLen() < buf.Length
    modifies buf
    ensures Holds(buf, text + [DOLLAR] + Print(k, d))
  {
    hide Print;
    var cp := PutDollar(buf, text);
    cp := PutPrint(buf, cp, k, d);
    PrintNoDollar(k, d);
    Close(buf, cp, text + [DOLLAR] + Print(k, d));
  }

  /** The closing NUL is replaced by a dollar sign. */
  method PutDollar(buf: array<byte>, ghost text: bytes) returns (cp: nat)
    requires Holds(buf, text)
    modifies buf
    ensures cp == |text| + 1 && buf[..cp] == text + [DOLLAR] && NoNul(text)
  {
    cp := StrLen(buf, text);
    buf[cp] := DOLLAR;
    cp := cp + 1;
  }

  /** The characters of the digest. */
  method PutPrint(buf: array<byte>, cp: nat, k: Kind, d: bytes) returns (q: nat)
    requires |d| == k.Size() && cp + k.TextLen() <= buf.Length
    modifies buf
    ensures q == cp + k.TextLen()
    ensures buf[..q] == old(buf[..cp]) + Print(k, d)
  {
    hide Groups, Emit, Within;
    OrderWithin(k);
    ghost var order := k.Order();
    q := PutGroups(buf, cp, k.Order(), d);
    q := PutWord(buf, q, k.TailWord(d), k.TailLen());
    Assoc(old(buf[..cp]), Groups(order, d, |order|), Emit(k.TailWord(d), k.TailLen()));
  }

  /** No character of a printed digest is a dollar sign or a NUL. */
  lemma PrintNoDollar(k: Kind, d: bytes)
    requires |d| == k.Size()
    ensures forall i :: 0 <= i < |Print(k, d)| ==> Print(k, d)[i] != DOLLAR && Print(k, d)[i] != 0
  {
    OrderWithin(k);
    GroupsNoDollar(k.Order(), d, |k.Order()|);
    EmitNoDollar(k.TailWord(d), k.TailLen());
  }
}
