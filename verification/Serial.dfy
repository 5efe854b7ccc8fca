/**
 Certificate serial numbers as text: the hex form that issue, revocation and
 the responder write, the comparison the serial index uses, and the readers.
 */
module Serial {
  import opened CText

  predicate IsHex(c: char) {
    '0' <= c <= '9' || 'A' <= c <= 'F' || 'a' <= c <= 'f'
  }

  predicate IsUpperHex(c: char) {
    '0' <= c <= '9' || 'A' <= c <= 'F'
  }

  predicate AllHex(s: string) {
    forall i :: 0 <= i < |s| ==> IsHex(s[i])
  }

  predicate AllUpperHex(s: string) {
    forall i :: 0 <= i < |s| ==> IsUpperHex(s[i])
  }

  function HexChar(d: nat): (c: char)
    requires d < 16
    ensures IsUpperHex(c) && DigitOf(c) == d
  {
    if d < 10 then (d + 48) as char else (d + 55) as char
  }

  /** OPENSSL_hexchar2int on a hex digit. */
  function DigitOf(c: char): (d: nat)
    requires IsHex(c)
    ensures d < 16
  {
    if c <= '9' then c as int - 48 else if c <= 'F' then c as int - 55 else c as int - 87
  }

  function HexValue(s: string): nat
    requires AllHex(s)
  {
    if s == "" then 0 else 16 * HexValue(s[..|s| - 1]) + DigitOf(s[|s| - 1])
  }

  /** Magnitude bytes of a big number, most significant first, none for zero. */
  function Bytes(n: nat): (bs: seq<byte>) {
    if n == 0 then [] else Bytes(n / 256) + [n % 256]
  }

  function HexOf(bs: seq<byte>): (s: string)
    ensures |s| == 2 * |bs|
    ensures AllUpperHex(s) && AllHex(s)
  {
    if bs == [] then ""
    else HexOf(bs[..|bs| - 1]) + [HexChar(bs[|bs| - 1] / 16), HexChar(bs[|bs| - 1] % 16)]
  }

  /** The serial column: "00" for zero, BN_bn2hex otherwise. */
  function SerialText(n: int): string {
    if n == 0 then "00" else if n < 0 then "-" + HexOf(Bytes(-n)) else HexOf(Bytes(n))
  }

  /** BN_hex2bn on a whole column: None when the text is not a signed hex number. */
  function Hex2Bn(s: string): Option<int> {
    if s != "" && s[0] == '-' then
      (if |s| > 1 && AllHex(s[1..]) then Some(-(HexValue(s[1..]) as int)) else None)
    else if s != "" && AllHex(s) then Some(HexValue(s))
    else None
  }

  /** What index_serial_hash and index_serial_cmp look at. */
  function Key(s: string): (k: string)
    ensures k == "" || k[0] != '0'
  {
    if s != "" && s[0] == '0' then Key(s[1..]) else s
  }

  /** The serial column test of the load check. */
  predicate SerialOk(s: string) {
    var p := if s != "" && s[0] == '-' then s[1..] else s;
    |p| >= 2 && |p| % 2 == 0 && AllHex(p)
  }

  /** A column of hex digits is their value, behind a minus sign its negative; nothing else is a number. */
  lemma Hex2BnMeans(s: string)
    ensures Hex2Bn(s).Some? <==> (s != "" && AllHex(s)) || (|s| >= 2 && s[0] == '-' && AllHex(s[1..]))
    ensures s != "" && AllHex(s) ==> Hex2Bn(s) == Some(HexValue(s)) && Hex2Bn("-" + s) == Some(-(HexValue(s) as int))
  {
    hide HexValue;
    if s != "" && AllHex(s) {
      assert IsHex(s[0]);
      var t := "-" + s;
      assert t[0] == '-' && t[1..] == s;
    }
  }

  // ---- one text per number ------------------------------------------------

  lemma HexAppend(u: string, b: byte)
    requires AllHex(u)
    ensures AllHex(u + [HexChar(b / 16), HexChar(b % 16)])
    ensures HexValue(u + [HexChar(b / 16), HexChar(b % 16)]) == 256 * HexValue(u) + b
  {
    var v := u + [HexChar(b / 16)];
    var w := u + [HexChar(b / 16), HexChar(b % 16)];
    assert v[..|u|] == u && w[..|v|] == v;
    assert HexValue(v) == 16 * HexValue(u) + b / 16;
    assert HexValue(w) == 16 * HexValue(v) + b % 16;
  }

  lemma {:induction false} HexOfValue(n: nat)
    ensures HexValue(HexOf(Bytes(n))) == n
    decreases n
  {
    if n != 0 {
      HexOfValue(n / 256);
      assert Bytes(n)[..|Bytes(n)| - 1] == Bytes(n / 256);
      HexAppend(HexOf(Bytes(n / 256)), n % 256);
    }
  }

  /** The reader of the CRL loop undoes the writer of the serial column, for every integer. */
  lemma SerialRoundTrip(n: int)
    ensures Hex2Bn(SerialText(n)) == Some(n)
  {
    hide HexOf, Bytes, HexValue;
    if n == 0 {
      ZeroText();
    } else if n > 0 {
      HexOfValue(n);
      HexTextShape(n);
    } else {
      HexOfValue(-n);
      HexTextShape(-n);
      Halves("-", HexOf(Bytes(-n)));
    }
  }

  lemma ZeroText()
    ensures AllHex("00") && HexValue("00") == 0
  {
    assert "00"[..1] == "0" && "0"[..0] == "";
  }

  lemma HexTextShape(m: nat)
    requires m > 0
    ensures var h := HexOf(Bytes(m)); |h| >= 2 && |h| % 2 == 0 && AllHex(h) && h[0] != '-'
  {
    assert Bytes(m) != [];
    assert IsUpperHex(HexOf(Bytes(m))[0]);
  }

  /** Every serial text passes the load check. */
  lemma SerialTextOk(n: int)
    ensures SerialOk(SerialText(n))
  {
    hide HexOf, Bytes;
    if n < 0 {
      HexTextShape(-n);
      Halves("-", HexOf(Bytes(-n)));
    } else if n > 0 {
      HexTextShape(n);
    }
  }

  // ---- the index comparison is comparison of values -------------------------

  lemma {:induction false} KeySuffix(s: string)
    requires AllHex(s)
    ensures AllHex(Key(s)) && HexValue(Key(s)) == HexValue(s)
    ensures AllUpperHex(s) ==> AllUpperHex(Key(s))
    decreases |s|
  {
    if s != "" && s[0] == '0' {
      KeySuffix(s[1..]);
      DropZero(s);
    }
  }

  lemma {:induction false} DropZero(s: string)
    requires AllHex(s) && s != "" && s[0] == '0'
    ensures HexValue(s[1..]) == HexValue(s)
    decreases |s|
  {
    if |s| > 1 {
      var t := s[..|s| - 1];
      DropZero(t);
      assert t[1..] == s[1..][..|s| - 2];
    } else {
      assert s[..0] == "" && s[1..] == "";
    }
  }

  lemma {:induction false} PositiveUnlessZero(s: string)
    requires AllHex(s) && s != "" && s[0] != '0'
    ensures HexValue(s) > 0
    decreases |s|
  {
    if |s| > 1 {
      PositiveUnlessZero(s[..|s| - 1]);
    }
  }

  lemma {:induction false} SameValueSameText(s: string, t: string)
    requires AllUpperHex(s) && AllUpperHex(t) && AllHex(s) && AllHex(t)
    requires s == "" || s[0] != '0'
    requires t == "" || t[0] != '0'
    requires HexValue(s) == HexValue(t)
    ensures s == t
    decreases |s|
  {
    if s == "" || t == "" {
      if s != "" { PositiveUnlessZero(s); }
      if t != "" { PositiveUnlessZero(t); }
    } else {
      var s0, t0 := s[..|s| - 1], t[..|t| - 1];
      assert DigitOf(s[|s| - 1]) == DigitOf(t[|t| - 1]) && HexValue(s0) == HexValue(t0);
      SameValueSameText(s0, t0);
      assert s == s0 + [s[|s| - 1]] && t == t0 + [t[|t| - 1]];
    }
  }

  /** Two upper-case hex texts meet in the serial index exactly when they denote one number. */
  lemma KeyIsValue(s: string, t: string)
    requires AllUpperHex(s) && AllUpperHex(t)
    ensures AllHex(s) && AllHex(t)
    ensures Key(s) == Key(t) <==> HexValue(s) == HexValue(t)
  {
    KeySuffix(s);
    KeySuffix(t);
    if HexValue(s) == HexValue(t) {
      SameValueSameText(Key(s), Key(t));
    }
  }

  lemma SerialShape(n: int)
    ensures n < 0 ==> SerialText(n)[0] == '-' && Key(SerialText(n)) == SerialText(n)
    ensures n >= 0 ==> AllUpperHex(SerialText(n)) && AllHex(SerialText(n))
                       && SerialText(n) != "" && HexValue(SerialText(n)) == n
  {
    SerialRoundTrip(n);
    if n > 0 {
      assert Bytes(n) != [];
      assert IsUpperHex(SerialText(n)[0]);
    }
  }

  /** Distinct serial numbers never meet in the serial index. */
  lemma KeyInjective(m: int, n: int)
    ensures Key(SerialText(m)) == Key(SerialText(n)) <==> m == n
  {
    SerialShape(m);
    SerialShape(n);
    if m >= 0 && n >= 0 {
      KeyIsValue(SerialText(m), SerialText(n));
    } else if m < 0 && n < 0 {
      SerialRoundTrip(m);
      SerialRoundTrip(n);
    } else {
      KeySuffix(SerialText(if m < 0 then n else m));
    }
  }

  // ---- columns found under their number --------------------------------------

  /**
   A serial column in the form the lookup asks for: upper case, and for a negative number
   without a zero byte in front.
   */
  predicate Findable(s: string) {
    if s != "" && s[0] == '-' then
      |s| >= 3 && |s| % 2 == 1 && AllUpperHex(s[1..]) && !(s[1] == '0' && s[2] == '0')
    else s != "" && AllUpperHex(s)
  }

  /** A non-negative hex column is found under its own number exactly when it is in upper case. */
  lemma FoundIffUpper(s: string)
    requires AllHex(s)
    ensures Key(s) == Key(SerialText(HexValue(s))) <==> AllUpperHex(s)
  {
    var n := HexValue(s);
    SerialShape(n);
    KeySuffix(SerialText(n));
    KeyTail(s);
    if AllUpperHex(s) { KeyIsValue(s, SerialText(n)); }
  }

  lemma {:induction false} KeyTail(s: string)
    ensures AllUpperHex(s) <==> AllUpperHex(Key(s))
    decreases |s|
  {
    if s != "" && s[0] == '0' {
      KeyTail(s[1..]);
      assert forall i :: 1 <= i < |s| ==> s[i] == s[1..][i - 1];
    }
  }

  lemma {:induction false} FirstByte(m: nat)
    requires m > 0
    ensures Bytes(m) != [] && Bytes(m)[0] != 0
    decreases m
  {
    if m >= 256 { FirstByte(m / 256); }
  }

  lemma {:induction false} FirstDigits(bs: seq<byte>)
    requires bs != []
    ensures HexOf(bs)[0] == HexChar(bs[0] / 16) && HexOf(bs)[1] == HexChar(bs[0] % 16)
    decreases |bs|
  {
    var n := |bs| - 1;
    if n > 0 {
      FirstDigits(bs[..n]);
    } else {
      assert bs[..n] == [];
    }
  }

  /** The printed magnitude does not start with a zero byte. */
  lemma NoZeroByte(m: nat)
    requires m > 0
    ensures var h := HexOf(Bytes(m)); |h| >= 2 && |h| % 2 == 0 && AllUpperHex(h) && !(h[0] == '0' && h[1] == '0')
  {
    FirstByte(m);
    FirstDigits(Bytes(m));
  }

  lemma ZeroFront(h: string)
    requires AllHex(h) && |h| >= 2 && HexValue(h) > 0 && !(h[0] == '0' && h[1] == '0')
    ensures Key(h) == if h[0] == '0' then h[1..] else h
  {
    if h[0] == '0' { assert h[1..][0] == h[1]; }
  }

  /** Two upper-case texts of whole bytes without a zero byte in front denote one number only if they are equal. */
  lemma SameBytes(h: string, t: string)
    requires AllUpperHex(h) && AllUpperHex(t) && AllHex(h) && AllHex(t)
    requires |h| >= 2 && |h| % 2 == 0 && !(h[0] == '0' && h[1] == '0')
    requires |t| >= 2 && |t| % 2 == 0 && !(t[0] == '0' && t[1] == '0')
    requires HexValue(h) == HexValue(t) > 0
    ensures h == t
  {
    ZeroFront(h);
    ZeroFront(t);
    KeyIsValue(h, t);
    hide Key, HexValue, AllUpperHex, AllHex;
    if h[0] == '0' && t[0] == '0' {
      assert h == [h[0]] + h[1..] && t == [t[0]] + t[1..];
    } else if h[0] != '0' && t[0] != '0' {
    } else {
      assert |h[1..]| == |h| - 1 && |t[1..]| == |t| - 1;
      OddLengths(|h|, |t|);
    }
  }

  lemma OddLengths(a: nat, b: nat)
    requires a % 2 == 0 && b % 2 == 0
    ensures a != b - 1 && a - 1 != b
  {
  }

  lemma {:induction false} ZerosOnly(h: string)
    requires AllHex(h) && HexValue(h) == 0
    ensures forall i :: 0 <= i < |h| ==> h[i] == '0'
    decreases |h|
  {
    if h != "" { ZerosOnly(h[..|h| - 1]); }
  }

  /** A negative column is found under n exactly when it denotes n and is written as the tool would. */
  lemma MinusIsNumber(h: string, n: int)
    requires |h| >= 2 && |h| % 2 == 0 && AllHex(h)
    ensures Key("-" + h) == Key(SerialText(n)) <==> -(HexValue(h) as int) == n && Findable("-" + h)
  {
    var s := "-" + h;
    assert s[1..] == h && s[0] == '-' && s[1] == h[0] && s[2] == h[1];
    assert Key(s) == s;
    SerialShape(n);
    hide SerialText, HexValue;
    if n >= 0 {
      KeySuffix(SerialText(n));
      hide Key, AllUpperHex;
      assert Key(SerialText(n)) == "" || IsHex(Key(SerialText(n))[0]);
      if HexValue(h) == 0 { ZerosOnly(h); }
    } else {
      hide Key;
      MinusText(h, n);
    }
  }

  lemma MinusText(h: string, n: int)
    requires |h| >= 2 && |h| % 2 == 0 && AllHex(h) && n < 0
    ensures "-" + h == SerialText(n) <==> HexValue(h) == -n && Findable("-" + h)
  {
    hide HexValue, HexOf, Bytes, AllUpperHex, AllHex;
    var s, t := "-" + h, HexOf(Bytes(-n));
    assert s[1..] == h && s[0] == '-' && s[1] == h[0] && s[2] == h[1];
    NoZeroByte(-n);
    HexOfValue(-n);
    assert SerialText(n) == "-" + t && ("-" + t)[1..] == t;
    if HexValue(h) == -n && Findable(s) { SameBytes(h, t); }
  }

  /** Looking a number up finds exactly the findable columns that denote it. */
  lemma LookupIsNumber(s: string, n: int)
    requires SerialOk(s)
    ensures Key(s) == Key(SerialText(n)) <==> Hex2Bn(s) == Some(n) && Findable(s)
  {
    if s[0] == '-' {
      assert s == "-" + s[1..];
      MinusIsNumber(s[1..], n);
    } else {
      SerialShape(n);
      KeySuffix(s);
      if n < 0 {
        assert Key(s) == "" || IsHex(Key(s)[0]);
      } else {
        KeyTail(s);
        KeyTail(SerialText(n));
        if AllUpperHex(s) { KeyIsValue(s, SerialText(n)); }
      }
    }
  }

  lemma SerialTextFindable(n: int)
    ensures Findable(SerialText(n))
  {
    hide Key;
    SerialTextOk(n);
    LookupIsNumber(SerialText(n), n);
  }

  // ---- status queries ---------------------------------------------------------

  /** The column get_certificate_status builds from the operator's text. */
  function QueryText(s: string): string {
    UpperAll(if |s| % 2 == 1 then "0" + s else s)
  }

  lemma {:induction false} UpperValue(s: string)
    requires AllHex(s)
    ensures AllHex(UpperAll(s)) && AllUpperHex(UpperAll(s))
    ensures HexValue(UpperAll(s)) == HexValue(s)
    decreases |s|
  {
    if s != "" {
      UpperValue(s[..|s| - 1]);
      assert UpperAll(s)[..|s| - 1] == UpperAll(s[..|s| - 1]);
    }
  }

  /** A hex query, in any letter case and with any leading zeros, reaches serial n exactly when it denotes n. */
  lemma QueryReaches(s: string, n: nat)
    requires AllHex(s)
    ensures Key(QueryText(s)) == Key(SerialText(n)) <==> HexValue(s) == n
  {
    var p := if |s| % 2 == 1 then "0" + s else s;
    assert AllHex(p);
    UpperValue(p);
    if |s| % 2 == 1 {
      assert p[1..] == s;
      DropZero(p);
    }
    SerialShape(n);
    KeyIsValue(QueryText(s), SerialText(n));
  }

  // ---- the library printer: limbs to hex ----------------------------------------

  const LIMB := 0x1_0000_0000_0000_0000

  type limb = x: int | 0 <= x < LIMB

  /** The number held in limbs, least significant limb first. */
  function Number(d: seq<limb>): nat {
    if d == [] then 0 else d[0] + LIMB * Number(d[1..])
  }

  /** x >> 8*k */
  function ShiftBytes(x: nat, k: nat): (y: nat) {
    if k == 0 then x else ShiftBytes(x, k - 1) / 256
  }

  function Pow256(k: nat): (p: nat)
    ensures p > 0
  {
    if k == 0 then 1 else 256 * Pow256(k - 1)
  }

  lemma {:induction false} ShiftFirst(x: nat, k: nat)
    requires k > 0
    ensures ShiftBytes(x, k) == ShiftBytes(x / 256, k - 1)
    decreases k
  {
    if k > 1 {
      ShiftFirst(x, k - 1);
    }
  }

  lemma {:induction false} ShiftPast(x: nat, k: nat)
    requires x < Pow256(k)
    ensures ShiftBytes(x, k) == 0
    decreases k
  {
    if k > 0 {
      ShiftFirst(x, k);
      ShiftPast(x / 256, k - 1);
    }
  }

  /** The number read so far when j bytes of limb x are still to come. */
  ghost function Prefix(acc: nat, x: limb, j: nat): nat
    requires j <= 8
  {
    acc * Pow256(8 - j) + ShiftBytes(x, j)
  }

  lemma PrefixEnds(acc: nat, x: limb)
    ensures Prefix(acc, x, 8) == acc && Prefix(acc, x, 0) == acc * LIMB + x
  {
    assert Pow256(4) == 0x1_0000_0000;
    assert Pow256(6) == 0x1_0000_0000_0000;
    assert Pow256(8) == LIMB && Pow256(0) == 1;
    ShiftPast(x, 8);
  }

  lemma PrefixStep(acc: nat, x: limb, j: nat)
    requires j < 8
    ensures Prefix(acc, x, j) == 256 * Prefix(acc, x, j + 1) + ShiftBytes(x, j) % 256
  {
    var p := Pow256(7 - j);
    assert Pow256(8 - j) == 256 * p;
    assert acc * (256 * p) == 256 * (acc * p);
  }

  lemma HexPush(acc: nat, v: byte)
    requires acc != 0 || v != 0
    ensures HexOf(Bytes(256 * acc + v)) == HexOf(Bytes(acc)) + [HexChar(v / 16), HexChar(v % 16)]
  {
    assert (256 * acc + v) / 256 == acc && (256 * acc + v) % 256 == v;
    assert Bytes(256 * acc + v) == Bytes(acc) + [v];
  }

  /** Print one byte, unless nothing but zero bytes came before it. */
  method PrintByte(p: string, ghost acc: nat, v: byte) returns (q: string)
    requires p == HexOf(Bytes(acc))
    ensures q == HexOf(Bytes(256 * acc + v))
  {
    if p != "" || v != 0 {
      HexPush(acc, v);
      q := p + [HexChar(v / 16), HexChar(v % 16)];
    } else {
      q := p;
    }
  }

  /** The inner loop of BN_bn2hex: print one limb after `acc` has been printed. */
  method PrintLimb(p: string, ghost acc: nat, x: limb) returns (q: string)
    requires p == HexOf(Bytes(acc))
    ensures q == HexOf(Bytes(acc * LIMB + x))
  {
    hide HexOf, Bytes, Prefix, ShiftBytes;
    q := p;
    PrefixEnds(acc, x);
    for j := 8 downto 0
      invariant q == HexOf(Bytes(Prefix(acc, x, j)))
    {
      PrefixStep(acc, x, j);
      q := PrintByte(q, Prefix(acc, x, j + 1), ShiftBytes(x, j) % 256);
    }
  }

  /** BN_bn2hex of a non-zero number, whatever leading zero limbs it carries. */
  method BnToHex(neg: bool, d: seq<limb>) returns (s: string)
    requires Number(d) != 0
    ensures s == SerialText(if neg then -(Number(d) as int) else Number(d))
  {
    var p := "";
    var i := |d|;
    assert d[|d|..] == [];
    while i > 0
      invariant 0 <= i <= |d|
      invariant p == HexOf(Bytes(Number(d[i..])))
    {
      i := i - 1;
      assert d[i..][1..] == d[i + 1..];
      p := PrintLimb(p, Number(d[i + 1..]), d[i]);
    }
    assert d[0..] == d;
    s := if neg then "-" + p else p;
  }
}
