/**
 Configuration text: the value escaper of `openssl configutl`
 (apps/configutl.c) against the reader of crypto/conf/conf_def.c, from
 single values to whole sections.
 */
module ConfText {
  import opened CText

  // ---- writing ---------------------------------------------------------------------------

  const BACKSPACE: char := 8 as char

  /** What print_escaped_value writes for the i-th character. */
  function Piece(v: string, i: nat): (s: string)
    requires i < |v|
    ensures s != ""
  {
    var c := v[i];
    if c == '"' || c == '\'' || c == '#' || c == '\\' || c == '$' then ['\\', c]
    else if c == '\n' then "\\n"
    else if c == '\r' then "\\r"
    else if c == BACKSPACE then "\\b"
    else if c == '\t' then "\\t"
    else if c == ' ' && (i == 0 || i == |v| - 1) then "\" \""
    else [c]
  }

  /** The control characters by their codes, and the letters they are written as. */
  lemma ControlsEscaped(v: string, i: nat)
    requires i < |v|
    ensures v[i] as int == 8 ==> Piece(v, i) == "\\b"
    ensures v[i] as int == 9 ==> Piece(v, i) == "\\t"
    ensures v[i] as int == 10 ==> Piece(v, i) == "\\n"
    ensures v[i] as int == 13 ==> Piece(v, i) == "\\r"
    ensures Unletter('b') as int == 8 && Unletter('t') as int == 9 && Unletter('n') as int == 10 && Unletter('r') as int == 13
  {
  }

  /** The escaped text from the i-th character on. */
  function Escaped(v: string, i: nat): string
    requires i <= |v|
    decreases |v| - i
  {
    if i == |v| then "" else Piece(v, i) + Escaped(v, i + 1)
  }

  /** print_escaped_value */
  method PrintEscapedValue(v: string) returns (out: string)
    ensures out == Escaped(v, 0)
  {
    out := "";
    for i := 0 to |v|
      invariant out + Escaped(v, i) == Escaped(v, 0)
    {
      Assoc(out, Piece(v, i), Escaped(v, i + 1));
      out := out + Piece(v, i);
    }
    assert out + "" == out;
  }

  // ---- reading a value -------------------------------------------------------------------

  predicate Quote(c: char) {
    c == '"' || c == '\'' || c == '`'
  }

  predicate Ws(c: char) {
    c == ' ' || c == '\t' || c == '\r' || c == '\n'
  }

  /** The inside of a quoted run: its text, and how much of s it takes with the closing quote. */
  function Quoted(s: string, q: char): (r: (string, nat))
    ensures r.1 <= |s|
    decreases |s|
  {
    if s == "" then ("", 0)
    else if s[0] == q then ("", 1)
    else if s[0] == '\\' then
      if |s| == 1 then ("", 1)
      else var (t, k) := Quoted(s[2..], q); ([s[1]] + t, k + 2)
    else var (t, k) := Quoted(s[1..], q); ([s[0]] + t, k + 1)
  }

  function Unletter(c: char): char {
    if c == 'r' then '\r' else if c == 'n' then '\n' else if c == 'b' then BACKSPACE else if c == 't' then '\t' else c
  }

  /** The text read; or the reader met a reference to a variable. */
  datatype Value = Text(s: string) | NeedsVariable

  function Prefixed(t: string, r: Value): Value {
    if r.Text? then Text(t + r.s) else r
  }

  /** str_copy: quotes, escapes and plain characters. */
  function Copied(s: string): Value
    decreases |s|
  {
    if s == "" then Text("")
    else if Quote(s[0]) then
      var (t, k) := Quoted(s[1..], s[0]);
      Prefixed(t, Copied(s[1..][k..]))
    else if s[0] == '\\' then
      if |s| == 1 then Text("") else Prefixed([Unletter(s[1])], Copied(s[2..]))
    else if s[0] == '$' then NeedsVariable
    else Prefixed([s[0]], Copied(s[1..]))
  }

  /** clear_comments: where an unquoted, unescaped '#' cuts the line. */
  function CommentAt(s: string): (n: nat)
    ensures n <= |s|
    decreases |s|
  {
    if s == "" || s[0] == '#' then 0
    else if Quote(s[0]) then
      var k := Quoted(s[1..], s[0]).1;
      1 + k + CommentAt(s[1..][k..])
    else if s[0] == '\\' then
      if |s| == 1 then 1 else 2 + CommentAt(s[2..])
    else 1 + CommentAt(s[1..])
  }

  // ---- what is read from an escaped value --------------------------------------------------

  /** The three shapes of a piece: the character, a backslash and a letter for it, a quoted space. */
  lemma PieceShape(v: string, i: nat)
    requires i < |v|
    ensures var p, c := Piece(v, i), v[i];
            || (p == [c] && c != '"' && c != '\'' && c != '#' && c != '\\' && c != '$' && c != '\n' && c != '\r'
                && (i == 0 || i == |v| - 1 ==> !Ws(c)))
            || (exists d :: p == ['\\', d] && Unletter(d) == c && !Ws(d) && (d == '`' ==> c == '`'))
            || (p == "\" \"" && c == ' ')
  {
    var c := v[i];
    if |Piece(v, i)| == 2 {
      var d := if c == '\n' then 'n' else if c == '\r' then 'r' else if c == BACKSPACE then 'b'
               else if c == '\t' then 't' else c;
      assert Piece(v, i) == ['\\', d] && Unletter(d) == c && !Ws(d);
    }
  }

  lemma ReadPlain(c: char, rest: string)
    requires !Quote(c) && c != '\\' && c != '#'
    ensures c != '$' ==> Copied([c] + rest) == Prefixed([c], Copied(rest))
    ensures CommentAt([c] + rest) == 1 + CommentAt(rest)
  {
    assert ([c] + rest)[1..] == rest;
  }

  lemma ReadEscape(d: char, rest: string)
    ensures Copied(['\\', d] + rest) == Prefixed([Unletter(d)], Copied(rest))
    ensures CommentAt(['\\', d] + rest) == 2 + CommentAt(rest)
  {
    assert (['\\', d] + rest)[2..] == rest;
  }

  lemma InsidePlain(c: char, rest: string, q: char)
    requires c != q && c != '\\'
    ensures Quoted([c] + rest, q) == ([c] + Quoted(rest, q).0, Quoted(rest, q).1 + 1)
  {
    assert ([c] + rest)[1..] == rest;
  }

  lemma InsideEscape(d: char, rest: string, q: char)
    requires q != '\\'
    ensures Quoted(['\\', d] + rest, q) == ([d] + Quoted(rest, q).0, Quoted(rest, q).1 + 2)
  {
    assert (['\\', d] + rest)[2..] == rest;
  }

  lemma InsideClose(rest: string, q: char)
    ensures Quoted([q] + rest, q) == ("", 1)
  {
  }

  lemma ReadQuotedSpace(rest: string)
    ensures Copied("\" \"" + rest) == Prefixed(" ", Copied(rest))
    ensures CommentAt("\" \"" + rest) == 3 + CommentAt(rest)
  {
    hide Quoted;
    var s, inner := "\" \"" + rest, [' '] + (['"'] + rest);
    InsideClose(rest, '"');
    InsidePlain(' ', ['"'] + rest, '"');
    assert [' '] + "" == " ";
    assert s[1..] == inner && inner[2..] == rest;
  }

  /** A piece that is not a bare backquote reads back as its character. */
  lemma PieceReads(v: string, i: nat, rest: string)
    requires i < |v| && v[i] != '`'
    ensures Copied(Piece(v, i) + rest) == Prefixed([v[i]], Copied(rest))
    ensures CommentAt(Piece(v, i) + rest) == |Piece(v, i)| + CommentAt(rest)
  {
    hide Copied, CommentAt, Piece;
    PieceShape(v, i);
    var p := Piece(v, i);
    if p == [v[i]] {
      ReadPlain(v[i], rest);
    } else if p == "\" \"" {
      ReadQuotedSpace(rest);
    } else {
      var d :| p == ['\\', d] && Unletter(d) == v[i];
      ReadEscape(d, rest);
    }
  }

  /** Inside backquotes a piece is taken whole, and nothing it gives is a backquote. */
  lemma PieceInQuotes(v: string, i: nat, rest: string)
    requires i < |v| && v[i] != '`'
    ensures var (t, k) := Quoted(rest, '`');
            var (t', k') := Quoted(Piece(v, i) + rest, '`');
            k' == k + |Piece(v, i)| && ('`' !in t ==> '`' !in t')
  {
    hide Quoted, Piece;
    PieceShape(v, i);
    var p := Piece(v, i);
    if p == [v[i]] {
      InsidePlain(v[i], rest, '`');
    } else if p == "\" \"" {
      assert p + rest == ['"'] + ([' '] + (['"'] + rest));
      InsidePlain('"', rest, '`');
      InsidePlain(' ', ['"'] + rest, '`');
      InsidePlain('"', [' '] + (['"'] + rest), '`');
    } else {
      var d :| p == ['\\', d] && Unletter(d) == v[i] && (d == '`' ==> v[i] == '`');
      InsideEscape(d, rest, '`');
    }
  }

  /** From inside a backquoted run, reading goes on at a later piece, or at the end. */
  lemma {:induction false} QuotedLandsOnPiece(v: string, i: nat) returns (j: nat)
    requires i <= |v|
    ensures i <= j <= |v|
    ensures var e := Escaped(v, i); e[Quoted(e, '`').1..] == Escaped(v, j)
    ensures '`' !in Quoted(Escaped(v, i), '`').0
    decreases |v| - i
  {
    hide Quoted, Piece, Escaped;
    EscapedEnd(v);
    if i == |v| {
      j := i;
    } else {
      EscapedStep(v, i);
      var p, rest := Piece(v, i), Escaped(v, i + 1);
      if v[i] == '`' {
        BackquotePiece(v, i);
        InsideClose(rest, '`');
        Halves(p, rest);
        j := i + 1;
      } else {
        j := QuotedLandsOnPiece(v, i + 1);
        PieceInQuotes(v, i, rest);
        LaterSlice(p, rest, Quoted(rest, '`').1);
      }
    }
  }

  lemma BackquotePiece(v: string, i: nat)
    requires i < |v| && v[i] == '`'
    ensures Piece(v, i) == "`"
  {
  }

  lemma LaterSlice(a: string, b: string, k: nat)
    requires k <= |b|
    ensures (a + b)[k + |a|..] == b[k..]
  {
  }

  /** A value without backquotes reads back as it was. */
  lemma {:induction false} ValueReadsBack(v: string, i: nat)
    requires i <= |v| && '`' !in v[i..]
    ensures Copied(Escaped(v, i)) == Text(v[i..])
    decreases |v| - i
  {
    hide Copied, Piece, Escaped;
    EscapedEnd(v);
    if i < |v| {
      EscapedStep(v, i);
      assert v[i] == v[i..][0] && v[i..][1..] == v[i + 1..];
      ValueReadsBack(v, i + 1);
      PieceReads(v, i, Escaped(v, i + 1));
      assert [v[i]] + v[i + 1..] == v[i..];
    }
  }

  /** A backquote opens a run that ends k characters later. */
  lemma ReadBackquote(rest: string)
    ensures var (t, k) := Quoted(rest, '`');
            && Copied("`" + rest) == Prefixed(t, Copied(rest[k..]))
            && CommentAt("`" + rest) == 1 + k + CommentAt(rest[k..])
  {
    assert ("`" + rest)[1..] == rest;
  }

  lemma PrefixedClean(t: string, r: Value)
    requires r.Text? && '`' !in t && '`' !in r.s
    ensures Prefixed(t, r).Text? && '`' !in Prefixed(t, r).s
  {
  }

  lemma EscapedStep(v: string, i: nat)
    requires i < |v|
    ensures Escaped(v, i) == Piece(v, i) + Escaped(v, i + 1)
  {
  }

  lemma EscapedEnd(v: string)
    ensures Escaped(v, |v|) == ""
    ensures Copied("") == Text("") && CommentAt("") == 0 && Quoted("", '`') == ("", 0)
  {
  }

  /** Whatever the value, what is read back holds no backquote, and no comment or variable is met. */
  lemma {:induction false} NeverABackquote(v: string, i: nat)
    requires i <= |v|
    ensures Copied(Escaped(v, i)).Text? && '`' !in Copied(Escaped(v, i)).s
    ensures CommentAt(Escaped(v, i)) == |Escaped(v, i)|
    decreases |v| - i
  {
    hide Copied, CommentAt, Piece, Quoted, Prefixed, Escaped;
    EscapedEnd(v);
    if i < |v| {
      EscapedStep(v, i);
      var rest := Escaped(v, i + 1);
      if v[i] == '`' {
        BackquotePiece(v, i);
        ReadBackquote(rest);
        var j := QuotedLandsOnPiece(v, i + 1);
        NeverABackquote(v, j);
        PrefixedClean(Quoted(rest, '`').0, Copied(Escaped(v, j)));
      } else {
        NeverABackquote(v, i + 1);
        PieceReads(v, i, rest);
        PrefixedClean([v[i]], Copied(rest));
      }
    }
  }

  /** The reader gives back the value exactly when it holds no backquote. */
  lemma ValueRoundTrip(v: string)
    ensures Copied(Escaped(v, 0)) == Text(v) <==> '`' !in v
  {
    assert v[0..] == v;
    NeverABackquote(v, 0);
    if '`' !in v { ValueReadsBack(v, 0); }
  }

  lemma ReadBackIff(v: string)
    ensures ReadBack(v) == v <==> '`' !in v
  {
    ValueRoundTrip(v);
    NeverABackquote(v, 0);
  }

  /** The smallest value that is not given back. */
  lemma BackquoteLost()
    ensures Copied(Escaped("`", 0)) == Text("")
  {
    assert Escaped("`", 1) == "" && Escaped("`", 0) == "`";
    assert "`"[1..] == "";
  }

  // ---- the escaping loses nothing ------------------------------------------------------------

  /** The inverse of the escaping, which takes a backquote for a plain character. */
  function Unescaped(s: string): string
    decreases |s|
  {
    if s == "" then ""
    else if s[0] == '\\' then (if |s| == 1 then "" else [Unletter(s[1])] + Unescaped(s[2..]))
    else if s[0] == '"' then (if |s| < 3 then "" else " " + Unescaped(s[3..]))
    else [s[0]] + Unescaped(s[1..])
  }

  lemma PieceUnescapes(v: string, i: nat, rest: string)
    requires i < |v|
    ensures Unescaped(Piece(v, i) + rest) == [v[i]] + Unescaped(rest)
  {
    hide Piece;
    PieceShape(v, i);
    var p := Piece(v, i);
    assert (p + rest)[|p|..] == rest;
  }

  /** Every value can be had back from its escaped text, backquotes or not. */
  lemma {:induction false} EscapedUnescapes(v: string, i: nat)
    requires i <= |v|
    ensures Unescaped(Escaped(v, i)) == v[i..]
    decreases |v| - i
  {
    hide Unescaped, Piece, Escaped;
    EscapedEnd(v);
    if i == |v| {
      assert Unescaped("") == "" by { NothingUnescapes(); }
    } else {
      EscapedStep(v, i);
      PieceUnescapes(v, i, Escaped(v, i + 1));
      EscapedUnescapes(v, i + 1);
    }
  }

  lemma NothingUnescapes()
    ensures Unescaped("") == ""
  {
  }

  /** Different values have different escaped texts: what a backquote loses is lost by the reader. */
  lemma EscapedInjective(v: string, w: string)
    ensures Escaped(v, 0) == Escaped(w, 0) <==> v == w
  {
    hide Unescaped, Escaped;
    EscapedUnescapes(v, 0);
    EscapedUnescapes(w, 0);
    assert v[0..] == v && w[0..] == w;
  }

  // ---- lines ------------------------------------------------------------------------------

  /** CONF_ALNUM_PUNCT: the characters of a name. */
  predicate NameChar(c: char) {
    || '0' <= c <= '9' || 'A' <= c <= 'Z' || 'a' <= c <= 'z' || c == '_'
    || c == '!' || '%' <= c <= '&' || '*' <= c <= '/' || c == ';' || '?' <= c <= '@' || c == '^' || c == '|' || c == '~'
  }

  /** They are the letters, the digits, the underscore and fifteen other signs. */
  lemma NameCharsAre(c: char)
    ensures NameChar(c) <==> c in "0123456789" || c in "ABCDEFGHIJKLMNOPQRSTUVWXYZ" || c in "abcdefghijklmnopqrstuvwxyz"
                             || c in "_!%&*+,-./;?@^|~"
  {
    RunOf(c, '0', "0123456789");
    RunOf(c, 'A', "ABCDEFGHIJKLMNOPQRSTUVWXYZ");
    RunOf(c, 'a', "abcdefghijklmnopqrstuvwxyz");
    Signs(c);
  }

  lemma RunOf(c: char, first: char, run: string)
    requires |run| < 30 && first < 128 as char
    requires forall i :: 0 <= i < |run| ==> run[i] as int == first as int + i
    ensures c in run <==> first as int <= c as int < first as int + |run|
  {
    var i := c as int - first as int;
    if 0 <= i < |run| { assert run[i] == c; }
  }

  lemma Signs(c: char)
    ensures c in "_!%&*+,-./;?@^|~"
       <==> (|| c == '_' || c == '!' || '%' <= c <= '&' || '*' <= c <= '/' || c == ';' || '?' <= c <= '@'
             || c == '^' || c == '|' || c == '~')
  {
    var s := "_!%&*+,-./;?@^|~";
    assert s[0] == '_' && s[1] == '!' && s[2] == '%' && s[3] == '&' && s[4] == '*' && s[5] == '+' && s[6] == ','
        && s[7] == '-' && s[8] == '.' && s[9] == '/' && s[10] == ';' && s[11] == '?' && s[12] == '@' && s[13] == '^'
        && s[14] == '|' && s[15] == '~';
  }

  /** eat_alpha_numeric: how far a name reaches. */
  function NameEnd(s: string): (n: nat)
    ensures n <= |s|
    decreases |s|
  {
    if s == "" then 0
    else if s[0] == '\\' then (if |s| == 1 then 1 else 2 + NameEnd(s[2..]))
    else if NameChar(s[0]) then 1 + NameEnd(s[1..])
    else 0
  }

  function EatWs(s: string): (t: string)
    ensures |t| <= |s|
  {
    if s != "" && Ws(s[0]) then EatWs(s[1..]) else s
  }

  function TrimWs(s: string): string {
    if s != "" && Ws(s[|s| - 1]) then TrimWs(s[..|s| - 1]) else s
  }

  datatype LineResult = Blank | Pair(name: string, value: string) | Other | Bad

  /**
   One line of def_load_bio: comment, name, equals sign, value. Section headers,
   section-qualified names, pragmas, includes and variables are Other.
   */
  function ReadLine(line: string): LineResult {
    var s := EatWs(line[..CommentAt(line)]);
    if s == "" then Blank
    else if s[0] == '[' then Other
    else
      var n := NameEnd(s);
      var p := EatWs(s[n..]);
      if "::" <= s[n..] || ".pragma" <= s || ".include" <= s then Other
      else if p == "" || p[0] != '=' then Bad
      else
        var v := Copied(TrimWs(EatWs(p[1..])));
        if v.Text? then Pair(s[..n], v.s) else Other
  }

  /** The line print_section writes for a pair, without its newline. */
  function PairLine(name: string, value: string): string {
    name + " = " + Escaped(value, 0)
  }

  /** Names as the reader itself delivers them. */
  predicate NameOk(name: string)
    decreases |name|
  {
    && Scanned(name) && !(".pragma" <= name) && !(".include" <= name)
  }

  predicate Scanned(name: string)
    decreases |name|
  {
    || name == ""
    || (name[0] == '\\' && |name| >= 2 && name[1] != '\n' && name[1] != '\r' && Scanned(name[2..]))
    || (NameChar(name[0]) && Scanned(name[1..]))
  }

  lemma NameCharPlain(c: char)
    requires NameChar(c)
    ensures c != '\\' && c != '#' && !Quote(c) && c != '[' && !Ws(c)
  {
  }

  lemma EscapedNameStep(name: string, rest: string)
    requires Scanned(name) && name != "" && name[0] == '\\'
    ensures |name| >= 2 && Scanned(name[2..])
    ensures NameEnd(name + rest) == 2 + NameEnd(name[2..] + rest)
    ensures CommentAt(name + rest) == 2 + CommentAt(name[2..] + rest)
  {
    SpaceEnds();
    hide NameChar, CommentAt, Copied;
    var s := name + rest;
    assert s[2..] == name[2..] + rest;
    assert s == ['\\', name[1]] + s[2..];
    ReadEscape(name[1], s[2..]);
  }

  lemma PlainNameStep(name: string, rest: string)
    requires Scanned(name) && name != "" && name[0] != '\\'
    ensures Scanned(name[1..])
    ensures NameEnd(name + rest) == 1 + NameEnd(name[1..] + rest)
    ensures CommentAt(name + rest) == 1 + CommentAt(name[1..] + rest)
  {
    NameCharPlain(name[0]);
    hide NameChar, CommentAt, Copied;
    var s := name + rest;
    assert s[1..] == name[1..] + rest;
    assert s == [name[0]] + s[1..];
    ReadPlain(name[0], s[1..]);
  }

  lemma RestStays(rest: string)
    requires (rest == "" || !NameChar(rest[0])) && (rest != "" ==> rest[0] != '\\')
    ensures NameEnd(rest) == 0
  {
  }

  lemma {:induction false} NameScans(name: string, rest: string)
    requires Scanned(name) && (rest == "" || !NameChar(rest[0])) && (rest != "" ==> rest[0] != '\\')
    ensures NameEnd(name + rest) == |name|
    ensures CommentAt(name + rest) == |name| + CommentAt(rest)
    decreases |name|
  {
    RestStays(rest);
    hide NameEnd, CommentAt, Scanned, NameChar;
    if name == "" {
      assert name + rest == rest;
    } else {
      if name[0] == '\\' {
        EscapedNameStep(name, rest);
        NameScans(name[2..], rest);
      } else {
        PlainNameStep(name, rest);
        NameScans(name[1..], rest);
      }
    }
  }

  lemma PieceEdges(v: string, i: nat)
    requires i < |v| && (i == 0 || i == |v| - 1)
    ensures var p := Piece(v, i); !Ws(p[0]) && !Ws(p[|p| - 1])
  {
    PieceShape(v, i);
  }

  /** An escaped value neither starts nor ends with white space. */
  lemma {:induction false} EscapedEdges(v: string, i: nat)
    requires i <= |v|
    ensures var e := Escaped(v, i);
            e != "" ==> !Ws(e[|e| - 1]) && (i == 0 ==> !Ws(e[0]))
    ensures Escaped(v, i) == "" ==> i == |v|
    decreases |v| - i
  {
    hide Piece, Ws, Escaped;
    EscapedEnd(v);
    if i < |v| {
      EscapedStep(v, i);
      EscapedEdges(v, i + 1);
      if i == 0 || i == |v| - 1 { PieceEdges(v, i); }
    }
  }

  lemma EatOne(rest: string)
    ensures EatWs(" " + rest) == EatWs(rest)
  {
    assert (" " + rest)[1..] == rest;
  }

  lemma SpaceEquals(e: string)
    requires e != "" ==> !Ws(e[0])
    ensures EatWs(" = " + e) == "= " + e && EatWs(" " + e) == e
    ensures CommentAt(" = " + e) == 3 + CommentAt(e)
  {
    assert EatWs(e) == e && EatWs("= " + e) == "= " + e;
    hide CommentAt, EatWs, Copied;
    EatOne(e);
    EatOne("= " + e);
    var s1, s2 := [' '] + e, ['='] + ([' '] + e);
    assert " = " + e == " " + ("= " + e) && "= " + e == s2;
    ReadPlain(' ', e);
    ReadPlain('=', s1);
    ReadPlain(' ', s2);
  }

  /** What the reader makes of a printed value. */
  ghost function ReadBack(v: string): string {
    NeverABackquote(v, 0);
    Copied(Escaped(v, 0)).s
  }

  /** The line of a pair is read as a pair with its name, whatever the value. */
  lemma PairLineReads(name: string, value: string)
    requires NameOk(name)
    ensures ReadLine(PairLine(name, value)) == Pair(name, ReadBack(value))
  {
    hide Escaped, Copied, CommentAt, Scanned, NameEnd, NameChar, TrimWs, ReadLine, NameOk, EatWs;
    var e := Escaped(value, 0);
    var tail := " = " + e;
    var line := PairLine(name, value);
    Assoc(name, " = ", e);
    EscapedEdges(value, 0);
    NeverABackquote(value, 0);
    SpaceEquals(e);
    SpaceEnds();
    ScannedOk(name);
    NameScans(name, tail);
    assert line[..CommentAt(line)] == line;
    if name == "" {
      assert line == tail;
      assert "" + ("= " + e) == "= " + e;
      AfterEat(line, "", "= " + e, e);
    } else {
      NameStart(name);
      NoWsToEat(line);
      AfterEat(line, name, tail, e);
    }
  }

  lemma ScannedOk(name: string)
    requires NameOk(name)
    ensures Scanned(name)
  {
  }

  lemma NoWsToEat(s: string)
    requires s != "" && !Ws(s[0])
    ensures EatWs(s) == s
  {
  }

  /** ReadLine once comment and leading white space are gone. */
  lemma AfterEat(line: string, name: string, tail: string, e: string)
    requires EatWs(line[..CommentAt(line)]) == name + tail && Copied(e).Text?
    requires NameOk(name) && (tail == " = " + e || (name == "" && tail == "= " + e))
    requires e != "" ==> !Ws(e[0]) && !Ws(e[|e| - 1])
    ensures ReadLine(line) == Pair(name, Copied(e).s)
  {
    LineFromName(name, tail, e);
    hide NameOk, NameEnd, CommentAt, Copied, TrimWs, EatWs;
    assert ("= " + e)[0] == '=';
  }

  lemma SpaceEnds()
    ensures !NameChar(' ') && !NameChar('=') && !NameChar('\\')
  {
  }

  lemma NameStart(name: string)
    requires Scanned(name) && name != ""
    ensures !Ws(name[0]) && name[0] != '['
  {
  }

  /** The rest of the line once leading white space is gone. */
  lemma LineFromName(name: string, tail: string, e: string)
    requires NameOk(name) && (tail == " = " + e || (name == "" && tail == "= " + e))
    requires e != "" ==> !Ws(e[0]) && !Ws(e[|e| - 1])
    ensures var s := name + tail;
            && s != "" && s[0] != '[' && NameEnd(s) == |name| && s[|name|..] == tail
            && EatWs(tail) == "= " + e && !("::" <= tail)
            && !(".pragma" <= s) && !(".include" <= s)
            && TrimWs(EatWs(("= " + e)[1..])) == e && s[..|name|] == name
  {
    hide Scanned, NameEnd, NameChar, NameOk, TrimWs, EatWs, CommentAt;
    TrimNone(e);
    ScannedOk(name);
    SpaceEquals(e);
    SpaceEnds();
    NameScans(name, tail);
    Halves(name, tail);
    assert ("= " + e)[1..] == " " + e;
    if name == "" {
      EqualsStays(e);
      assert name + tail == tail;
    } else {
      NameStart(name);
      NoDirective(name, tail);
    }
  }

  lemma TrimNone(e: string)
    requires e != "" ==> !Ws(e[|e| - 1])
    ensures TrimWs(e) == e
  {
  }

  lemma EqualsStays(e: string)
    ensures EatWs("= " + e) == "= " + e
  {
  }

  lemma NoDirective(name: string, tail: string)
    requires NameOk(name) && tail != "" && tail[0] == ' '
    ensures !(".pragma" <= name + tail) && !(".include" <= name + tail)
  {
    var s := name + tail;
    if |name| >= 8 {
      assert s[..7] == name[..7] && s[..8] == name[..8];
    } else {
      assert s[|name|] == ' ';
      assert |name| == 7 ==> s[..7] == name[..7];
    }
  }

  // ---- sections ------------------------------------------------------------------------------

  type Pairs = seq<(string, string)>

  /** print_section */
  function SectionText(ps: Pairs): string {
    if ps == [] then "" else PairLine(ps[0].0, ps[0].1) + "\n" + SectionText(ps[1..])
  }

  method PrintSection(ps: Pairs) returns (out: string)
    ensures out == SectionText(ps)
  {
    out := "";
    assert ps[0..] == ps;
    for i := 0 to |ps|
      invariant out + SectionText(ps[i..]) == SectionText(ps)
    {
      assert ps[i..][0] == ps[i] && ps[i..][1..] == ps[i + 1..];
      var value := PrintEscapedValue(ps[i].1);
      var line := ps[i].0 + " = " + value + "\n";
      assert out + (line + SectionText(ps[i + 1..])) == (out + line) + SectionText(ps[i + 1..]);
      out := out + line;
    }
    assert out + "" == out;
  }

  /** A physical line goes on in the next one: it ends in a backslash that is not itself escaped. */
  predicate Continues(line: string) {
    line != "" && line[|line| - 1] == '\\' && (|line| == 1 || line[|line| - 2] != '\\')
  }

  function StripCr(line: string): string {
    if line != "" && (line[|line| - 1] == '\r' || line[|line| - 1] == '\n') then StripCr(line[..|line| - 1]) else line
  }

  /** The pairs of a section's text; None at a line that is wrong or of another kind. */
  function LoadPairs(text: string, carried: string): Option<Pairs>
    decreases |text|
  {
    var c := IndexOf(text, '\n', 0);
    var line := carried + StripCr(text[..c]);
    if c == |text| then Finish(if Continues(line) then line[..|line| - 1] else line, Some([]))
    else if Continues(line) then LoadPairs(text[c + 1..], line[..|line| - 1])
    else Finish(line, LoadPairs(text[c + 1..], ""))
  }

  function Finish(line: string, rest: Option<Pairs>): Option<Pairs> {
    match ReadLine(line)
    case Blank => rest
    case Pair(n, v) => if rest.None? then None else Some([(n, v)] + rest.value)
    case Other => None
    case Bad => None
  }

  lemma PieceOneLine(v: string, i: nat)
    requires i < |v|
    ensures '\n' !in Piece(v, i) && '\r' !in Piece(v, i) && !Continues(Piece(v, i))
  {
  }

  lemma {:induction false} EscapedOneLine(v: string, i: nat)
    requires i <= |v|
    ensures '\n' !in Escaped(v, i) && '\r' !in Escaped(v, i)
    ensures !Continues(Escaped(v, i))
    decreases |v| - i
  {
    hide Piece, Escaped;
    EscapedEnd(v);
    if i < |v| {
      EscapedStep(v, i);
      EscapedOneLine(v, i + 1);
      PieceOneLine(v, i);
      var p, rest := Piece(v, i), Escaped(v, i + 1);
      assert rest == "" ==> p + rest == p;
      if |rest| == 1 { assert rest[0] != '\\'; }
    }
  }

  lemma {:induction false} NameOneLine(name: string)
    requires Scanned(name)
    ensures '\n' !in name && '\r' !in name
    decreases |name|
  {
    if name != "" {
      if name[0] == '\\' { NameOneLine(name[2..]); } else { NameOneLine(name[1..]); }
    }
  }

  /** Every pair stays on one line, and that line does not run into the next. */
  lemma PairOneLine(name: string, value: string)
    requires NameOk(name)
    ensures '\n' !in PairLine(name, value) && '\r' !in PairLine(name, value)
    ensures !Continues(PairLine(name, value))
  {
    NameOneLine(name);
    EscapedOneLine(value, 0);
    var e, l := Escaped(value, 0), PairLine(name, value);
    if e == "" {
      assert l[|l| - 1] == ' ';
    } else {
      assert l[|l| - 1] == e[|e| - 1];
      if |e| >= 2 { assert l[|l| - 2] == e[|e| - 2]; }
    }
  }

  /** The reader takes a first line that ends at its newline and does not run into the next. */
  lemma LoadFirstLine(line: string, rest: string)
    requires '\n' !in line && '\r' !in line && !Continues(line)
    ensures LoadPairs(line + "\n" + rest, "") == Finish(line, LoadPairs(rest, ""))
  {
    hide Continues, Finish;
    var text := line + "\n" + rest;
    assert text[|line|] == '\n';
    assert forall k :: 0 <= k < |line| ==> text[k] == line[k];
    assert IndexOf(text, '\n', 0) == |line|;
    assert text[..|line|] == line && text[|line| + 1..] == rest;
    assert StripCr(line) == line && "" + line == line;
  }

  lemma LoadOnePair(p: (string, string), rest: string)
    requires NameOk(p.0)
    ensures LoadPairs(PairLine(p.0, p.1) + "\n" + rest, "")
         == if LoadPairs(rest, "").None? then None
            else Some([(p.0, ReadBack(p.1))] + LoadPairs(rest, "").value)
  {
    hide ReadLine, PairLine, Continues, ReadBack, LoadPairs, NameOk;
    PairOneLine(p.0, p.1);
    PairLineReads(p.0, p.1);
    LoadFirstLine(PairLine(p.0, p.1), rest);
  }

  /**
   Reading a printed section gives back its pairs exactly when no value holds a
   backquote.
   */
  lemma {:induction false} SectionRoundTrip(ps: Pairs)
    requires forall i :: 0 <= i < |ps| ==> NameOk(ps[i].0)
    ensures LoadPairs(SectionText(ps), "").Some?
    ensures LoadPairs(SectionText(ps), "") == Some(ps) <==> forall i :: 0 <= i < |ps| ==> '`' !in ps[i].1
    decreases |ps|
  {
    if ps == [] {
      assert IndexOf("", '\n', 0) == 0;
    } else {
      SectionRoundTrip(ps[1..]);
      LoadOnePair(ps[0], SectionText(ps[1..]));
      ReadBackIff(ps[0].1);
      hide LoadPairs, SectionText, ReadBack, NameOk;
      var rest := LoadPairs(SectionText(ps[1..]), "").value;
      var first := (ps[0].0, ReadBack(ps[0].1));
      assert [first] + rest == ps <==> first == ps[0] && rest == ps[1..] by {
        if [first] + rest == ps { assert rest == ([first] + rest)[1..]; }
        if first == ps[0] && rest == ps[1..] { assert [first] + rest == ps; }
      }
    }
  }
}
