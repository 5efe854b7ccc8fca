/**
 Key, IV and salt in hex for `openssl enc` (apps/enc.c): set_hex reads what
 the tool prints.
 */
module HexInput {
  import opened CText
  import opened Serial

  /** Byte k made of the first n digits of the text, missing digits being zero. */
  function ByteFrom(s: string, n: nat, k: nat): (b: byte)
    requires n <= |s| && AllHex(s[..n])
  {
    (if 2 * k < n then assert IsHex(s[..n][2 * k]); DigitOf(s[2 * k]) * 16 else 0)
    + (if 2 * k + 1 < n then assert IsHex(s[..n][2 * k + 1]); DigitOf(s[2 * k + 1]) else 0)
  }

  function ZeroDigits(n: nat): (z: string)
    ensures |z| == n && AllHex(z)
  {
    seq(n, i => '0')
  }

  /** Byte k is the value of digits 2k and 2k + 1 of the text filled up with zero digits. */
  lemma BytePadded(s: string, n: nat, k: nat, pad: nat)
    requires n <= |s| && AllHex(s[..n]) && 2 * k + 2 <= n + pad
    ensures var t := s[..n] + ZeroDigits(pad);
            var two := t[2 * k..2 * k + 2];
            AllHex(two) && ByteFrom(s, n, k) == HexValue(two)
  {
    var t := s[..n] + ZeroDigits(pad);
    var two := t[2 * k..2 * k + 2];
    assert two[0] == t[2 * k] && two[1] == t[2 * k + 1];
    assert IsHex(two[0]) && IsHex(two[1]);
    assert two[..1] == [two[0]] && [two[0]][..0] == "";
    assert HexValue([two[0]]) == DigitOf(two[0]);
    assert DigitOf('0') == 0;
  }

  /** How many of the first n characters are hex digits before the first that is not. */
  function Digits(s: string, n: nat): (m: nat)
    requires n <= |s|
    ensures m <= n && AllHex(s[..m])
    ensures m < n ==> !IsHex(s[m])
  {
    if n == 0 then 0
    else
      var m := Digits(s, n - 1);
      if m == n - 1 && IsHex(s[m]) then n else m
  }

  /**
   set_hex: excess digits are ignored, missing ones are zero, and it fails exactly
   when a character that is not a hex digit lies in the part read.
   */
  method SetHex(input: string, out: array<byte>) returns (ok: bool)
    modifies out
    ensures var n := if |input| > 2 * out.Length then 2 * out.Length else |input|;
            && (ok <==> AllHex(input[..n]))
            && forall k :: 0 <= k < out.Length ==> out[k] == ByteFrom(input, Digits(input, n), k)
  {
    var n := |input|;
    if n > 2 * out.Length { n := 2 * out.Length; }
    for k := 0 to out.Length
      invariant forall j :: 0 <= j < k ==> out[j] == 0
    {
      out[k] := 0;
    }
    for i := 0 to n
      invariant AllHex(input[..i])
      invariant forall k :: 0 <= k < out.Length ==> out[k] == ByteFrom(input, i, k)
    {
      var j := input[i];
      if !IsHex(j) {
        assert Digits(input, n) == i by { DigitsAre(input, n, i); }
        return false;
      }
      var d := DigitOf(j);
      if i % 2 == 1 {
        assert out[i / 2] % 16 == 0;
        out[i / 2] := out[i / 2] + d;
      } else {
        out[i / 2] := d * 16;
      }
    }
    DigitsAre(input, n, n);
    ok := true;
  }

  lemma {:induction false} DigitsAre(s: string, n: nat, m: nat)
    requires m <= n <= |s| && AllHex(s[..m]) && (m < n ==> !IsHex(s[m]))
    ensures Digits(s, n) == m
  {
    var d := Digits(s, n);
    assert forall i :: 0 <= i < m ==> s[i] == s[..m][i];
    assert forall i :: 0 <= i < d ==> s[i] == s[..d][i];
  }

  lemma {:induction false} HexOfAt(bs: seq<byte>, k: nat)
    requires k < |bs|
    ensures HexOf(bs)[2 * k] == HexChar(bs[k] / 16) && HexOf(bs)[2 * k + 1] == HexChar(bs[k] % 16)
    decreases |bs|
  {
    if k < |bs| - 1 { HexOfAt(bs[..|bs| - 1], k); }
  }

  /** What is printed with %02X for some bytes reads back as those bytes, and any longer input does too. */
  lemma HexReadsBack(bs: seq<byte>, more: string, k: nat)
    requires k < |bs|
    ensures var s := HexOf(bs) + more;
            && AllHex(s[..2 * |bs|])
            && ByteFrom(s, 2 * |bs|, k) == bs[k]
  {
    var s := HexOf(bs) + more;
    assert s[..2 * |bs|] == HexOf(bs);
    HexOfAt(bs, k);
  }
}
