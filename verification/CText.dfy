/**
 Text helpers shared by the models: C strings are Dafny strings without the
 closing NUL, and the bounded copies of crypto/o_str.c are functions on them.
 */
module CText {

  datatype Option<+T> = None | Some(value: T)

  type byte = x: int | 0 <= x < 256

  function Upper(c: char): char {
    if 'a' <= c <= 'z' then (c as int - 32) as char else c
  }

  function Lower(c: char): char {
    if 'A' <= c <= 'Z' then (c as int + 32) as char else c
  }

  function LowerAll(s: string): (t: string)
    ensures |t| == |s|
  {
    seq(|s|, i requires 0 <= i < |s| => Lower(s[i]))
  }

  function UpperAll(s: string): (t: string)
    ensures |t| == |s|
    ensures forall i :: 0 <= i < |s| ==> t[i] == Upper(s[i])
  {
    seq(|s|, i requires 0 <= i < |s| => Upper(s[i]))
  }

  /** OPENSSL_strcasecmp(a, b) == 0 */
  predicate EqNoCase(a: string, b: string) {
    LowerAll(a) == LowerAll(b)
  }

  /** OPENSSL_strlcpy into a buffer of the given size. */
  function Strlcpy(src: string, size: nat): string {
    if size == 0 then "" else if |src| < size then src else src[..size - 1]
  }

  /** OPENSSL_strlcat onto `dst` in a buffer of the given size. */
  function Strlcat(dst: string, src: string, size: nat): string {
    if size <= |dst| then dst else dst + Strlcpy(src, size - |dst|)
  }

  /** strchr: the position of the first `c` in `s` at or after `from`, or |s|. */
  function IndexOf(s: string, c: char, from: nat): (i: nat)
    requires from <= |s|
    ensures from <= i <= |s|
    ensures forall k :: from <= k < i ==> s[k] != c
    ensures i < |s| ==> s[i] == c
    decreases |s| - from
  {
    if from == |s| || s[from] == c then from else IndexOf(s, c, from + 1)
  }

  lemma Assoc<T>(a: seq<T>, b: seq<T>, c: seq<T>)
    ensures a + b + c == a + (b + c)
  {
  }

  lemma Halves<T>(a: seq<T>, b: seq<T>)
    ensures (a + b)[..|a|] == a && (a + b)[|a|..] == b
  {
  }

  lemma FrontSlice<T>(a: seq<T>, b: seq<T>, i: nat, j: nat)
    requires i <= j <= |a|
    ensures (a + b)[i..j] == a[i..j]
  {
  }
}
