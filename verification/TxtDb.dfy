/**
 The tab-separated text database of crypto/txt_db/txt_db.c: one row a line,
 tabs inside a field escaped with a backslash, and nothing else escaped.
 */
module TxtDb {
  import opened CText
  import opened RevInfo

  type Fields = seq<string>

  // ---- writing ---------------------------------------------------------------------

  function EscField(f: string): string {
    if f == "" then ""
    else (if f[0] == '\t' then "\\\t" else [f[0]]) + EscField(f[1..])
  }

  function Join(row: Fields): string
    requires row != []
  {
    if |row| == 1 then EscField(row[0]) else EscField(row[0]) + "\t" + Join(row[1..])
  }

  function RowText(row: Fields): string
    requires row != []
  {
    Join(row) + "\n"
  }

  function FileText(rows: seq<Fields>): string
    requires forall i :: 0 <= i < |rows| ==> rows[i] != []
  {
    if rows == [] then "" else RowText(rows[0]) + FileText(rows[1..])
  }

  // ---- reading ---------------------------------------------------------------------

  /** The field loop of TXT_DB_read over the rest of a line. */
  function ParseFrom(l: string, done: Fields, cur: string, esc: bool, num: nat): Option<Fields>
    requires esc ==> cur != ""
    decreases |l|
  {
    if l == "" then
      (if |done| + 1 == num then Some(done + [cur]) else None)
    else if l[0] == '\t' && !esc then
      if |done| + 1 >= num then
        // one field too many is forgiven when it is empty and ends the line
        (if |done| + 1 == num && |l| == 1 then Some(done + [cur]) else None)
      else
        ParseFrom(l[1..], done + [cur], "", false, num)
    else
      var kept := if l[0] == '\t' then cur[..|cur| - 1] else cur;
      ParseFrom(l[1..], done, kept + [l[0]], l[0] == '\\', num)
  }

  function ParseLine(l: string, num: nat): Option<Fields> {
    ParseFrom(l, [], "", false, num)
  }

  predicate IsComment(l: string) {
    l != "" && l[0] == '#'
  }

  const BUFSIZE := 512

  /** What BIO_gets takes with room for n characters: up to and with the newline, as far as there is room. */
  function Taken(text: string, n: nat): (k: nat)
    ensures k <= n && k <= |text|
    ensures text != "" && n > 0 ==> k > 0
  {
    var c := IndexOf(text, '\n', 0);
    var line := if c < |text| then c + 1 else c;
    if line < n then line else n
  }

  /** The size of the buffer once a line of n characters has been read into it. */
  function Buffer(size: nat, n: nat): (s: nat)
    ensures s >= size && s > n
    decreases if n < size then 0 else n - size + 1
  {
    if n < size then size else Buffer(size + BUFSIZE, n)
  }

  /**
   The line loop of TXT_DB_read with a buffer of the given size: an unfinished last line is
   dropped; of a comment, as much is skipped as the buffer holds.
   */
  function ReadLines(text: string, num: nat, size: nat): Option<seq<Fields>>
    requires size > 1
    decreases |text|
  {
    var c := IndexOf(text, '\n', 0);
    if IsComment(text) then ReadLines(text[Taken(text, size - 1)..], num, size)
    else if c == |text| then Some([])
    else
      var row := ParseLine(text[..c], num);
      var rest := ReadLines(text[c + 1..], num, Buffer(size, c + 1));
      if row.None? || rest.None? then None else Some([row.value] + rest.value)
  }

  /** TXT_DB_read of a whole file. */
  function ReadFile(text: string, num: nat): Option<seq<Fields>> {
    ReadLines(text, num, BUFSIZE)
  }

  // ---- the rows that survive -------------------------------------------------------

  predicate RowSafe(row: Fields) {
    && (forall k :: 0 <= k < |row| ==> '\n' !in row[k])
    && (forall k :: 0 <= k < |row| - 1 && row[k] != "" ==> row[k][|row[k]| - 1] != '\\')
    && (row != [] && row[0] != "" ==> row[0][0] != '#')
  }

  predicate Wide(rows: seq<Fields>, num: nat) {
    num >= 1 && forall i :: 0 <= i < |rows| ==> |rows[i]| == num
  }

  predicate AllSafe(rows: seq<Fields>) {
    forall i :: 0 <= i < |rows| ==> RowSafe(rows[i])
  }

  predicate EndsEsc(s: string) {
    s != "" && s[|s| - 1] == '\\'
  }

  lemma StepPlain(c: char, l: string, done: Fields, cur: string, esc: bool, num: nat)
    requires esc == EndsEsc(cur) && c != '\t'
    ensures ParseFrom([c] + l, done, cur, esc, num) == ParseFrom(l, done, cur + [c], EndsEsc(cur + [c]), num)
  {
    assert ([c] + l)[1..] == l;
  }

  lemma StepTab(l: string, done: Fields, cur: string, num: nat)
    requires EndsEsc(cur)
    ensures ParseFrom("\t" + l, done, cur, true, num) == ParseFrom(l, done, cur[..|cur| - 1] + "\t", false, num)
  {
    assert ("\t" + l)[1..] == l;
  }

  lemma StepEscapedTab(l: string, done: Fields, cur: string, esc: bool, num: nat)
    requires esc == EndsEsc(cur)
    ensures ParseFrom("\\\t" + l, done, cur, esc, num) == ParseFrom(l, done, cur + "\t", false, num)
  {
    hide ParseFrom;
    assert "\\\t" + l == ['\\'] + ("\t" + l);
    StepPlain('\\', "\t" + l, done, cur, esc, num);
    StepTab(l, done, cur + "\\", num);
    assert (cur + "\\")[..|cur|] == cur;
  }

  /** Reading an escaped field appends the field. */
  lemma {:induction false} EatField(f: string, tail: string, done: Fields, cur: string, esc: bool, num: nat)
    requires esc == EndsEsc(cur)
    ensures EndsEsc(cur + f) ==> cur + f != ""
    ensures ParseFrom(EscField(f) + tail, done, cur, esc, num)
         == ParseFrom(tail, done, cur + f, EndsEsc(cur + f), num)
    decreases |f|
  {
    hide ParseFrom;
    if f == "" {
      assert EscField(f) + tail == tail && cur + f == cur;
    } else {
      var next := EscField(f[1..]) + tail;
      var head := cur + [f[0]];
      assert head + f[1..] == cur + f;
      if f[0] == '\t' {
        Assoc("\\\t", EscField(f[1..]), tail);
        StepEscapedTab(next, done, cur, esc, num);
      } else {
        Assoc([f[0]], EscField(f[1..]), tail);
        StepPlain(f[0], next, done, cur, esc, num);
      }
      EatField(f[1..], tail, done, head, EndsEsc(head), num);
    }
  }

  lemma {:induction false} ParseJoin(row: Fields, k: nat)
    requires k < |row| && RowSafe(row)
    ensures ParseFrom(Join(row[k..]), row[..k], "", false, |row|) == Some(row)
    decreases |row| - k
  {
    var f := row[k];
    assert "" + f == f;
    assert row[k..][0] == f && row[..k] + [f] == row[..k + 1];
    if k + 1 == |row| {
      EatField(f, "", row[..k], "", false, |row|);
      assert EscField(f) + "" == EscField(f);
      assert row[..k] + [f] == row;
    } else {
      var rest := Join(row[k + 1..]);
      assert row[k..][1..] == row[k + 1..];
      EatField(f, "\t" + rest, row[..k], "", false, |row|);
      assert Join(row[k..]) == EscField(f) + ("\t" + rest);
      assert ("\t" + rest)[1..] == rest;
      ParseJoin(row, k + 1);
    }
  }

  lemma {:induction false} EscNoNewline(f: string)
    requires '\n' !in f
    ensures '\n' !in EscField(f)
    decreases |f|
  {
    if f != "" { EscNoNewline(f[1..]); }
  }

  lemma {:induction false} JoinNoNewline(row: Fields)
    requires row != [] && forall k :: 0 <= k < |row| ==> '\n' !in row[k]
    ensures '\n' !in Join(row)
    decreases |row|
  {
    EscNoNewline(row[0]);
    if |row| > 1 { JoinNoNewline(row[1..]); }
  }

  lemma JoinNoComment(row: Fields)
    requires row != [] && (row[0] != "" ==> row[0][0] != '#')
    ensures !IsComment(Join(row))
  {
  }

  lemma CutLine(l: string, rest: string)
    requires '\n' !in l
    ensures IndexOf(l + "\n" + rest, '\n', 0) == |l|
  {
    var t := l + "\n" + rest;
    assert t[|l|] == '\n';
    assert forall k :: 0 <= k < |l| ==> t[k] == l[k];
  }

  lemma {:induction false} ReadWrittenRow(row: Fields, rest: string, num: nat, size: nat)
    requires |row| == num >= 1 && RowSafe(row) && size > 1
    ensures var later := ReadLines(rest, num, Buffer(size, |RowText(row)|));
            ReadLines(RowText(row) + rest, num, size) == if later.None? then None else Some([row] + later.value)
  {
    var l := Join(row);
    var t := RowText(row) + rest;
    JoinNoNewline(row);
    JoinNoComment(row);
    assert t == l + "\n" + rest;
    CutLine(l, rest);
    assert t[..|l|] == l && t[|l| + 1..] == rest;
    assert l != "" ==> t[0] == l[0];
    assert row[0..] == row && row[..0] == [];
    ParseJoin(row, 0);
  }

  lemma {:induction false} ReadWritten(rows: seq<Fields>, num: nat, size: nat)
    requires Wide(rows, num) && AllSafe(rows) && size > 1
    ensures ReadLines(FileText(rows), num, size) == Some(rows)
    decreases |rows|
  {
    if rows != [] {
      hide ReadLines, Buffer;
      ReadWritten(rows[1..], num, Buffer(size, |RowText(rows[0])|));
      ReadWrittenRow(rows[0], FileText(rows[1..]), num, size);
      assert rows == [rows[0]] + rows[1..];
    } else {
      assert FileText(rows) == "";
    }
  }

  // ---- everything read is safe -----------------------------------------------------

  /** The state the field loop keeps: only safe text gathered so far. */
  ghost predicate Gathered(l: string, done: Fields, cur: string, esc: bool) {
    && esc == EndsEsc(cur)
    && '\n' !in l && '\n' !in cur
    && (forall k :: 0 <= k < |done| ==> '\n' !in done[k] && !EndsEsc(done[k]))
    && (done != [] ==> !IsComment(done[0]))
    && (done == [] ==> !IsComment(if cur == "" then l else cur))
  }

  lemma {:induction false} ParsedSafe(l: string, done: Fields, cur: string, esc: bool, num: nat)
    requires Gathered(l, done, cur, esc)
    ensures ParseFrom(l, done, cur, esc, num).Some? ==>
              var row := ParseFrom(l, done, cur, esc, num).value; |row| == num && RowSafe(row)
    decreases |l|
  {
    if l != "" {
      if l[0] == '\t' && !esc {
        if |done| + 1 < num {
          assert forall k :: 0 <= k < |done| ==> (done + [cur])[k] == done[k];
          ParsedSafe(l[1..], done + [cur], "", false, num);
        }
      } else {
        var kept := if l[0] == '\t' then cur[..|cur| - 1] else cur;
        assert (kept + [l[0]])[0] == if kept == "" then l[0] else cur[0];
        ParsedSafe(l[1..], done, kept + [l[0]], l[0] == '\\', num);
      }
    }
  }

  lemma {:induction false} LinesSafe(text: string, num: nat, size: nat)
    requires size > 1 && ReadLines(text, num, size).Some?
    ensures AllSafe(ReadLines(text, num, size).value)
    ensures num >= 1 ==> Wide(ReadLines(text, num, size).value, num)
    decreases |text|
  {
    var c := IndexOf(text, '\n', 0);
    if IsComment(text) {
      LinesSafe(text[Taken(text, size - 1)..], num, size);
    } else if c < |text| {
      LinesSafe(text[c + 1..], num, Buffer(size, c + 1));
      assert c > 0 ==> text[..c][0] == text[0];
      ParsedSafe(text[..c], [], "", false, num);
    }
  }

  /** Every row the reader returns has the right width and survives being written. */
  lemma ReadSafe(text: string, num: nat)
    requires ReadFile(text, num).Some?
    ensures AllSafe(ReadFile(text, num).value)
    ensures num >= 1 ==> Wide(ReadFile(text, num).value, num)
  {
    LinesSafe(text, num, BUFSIZE);
  }

  /** A database reads back from its own file exactly when every row is safe. */
  lemma FileRoundTrip(rows: seq<Fields>, num: nat)
    requires Wide(rows, num)
    ensures ReadFile(FileText(rows), num) == Some(rows) <==> AllSafe(rows)
  {
    if AllSafe(rows) {
      ReadWritten(rows, num, BUFSIZE);
    }
    if ReadFile(FileText(rows), num) == Some(rows) {
      ReadSafe(FileText(rows), num);
    }
  }

  /**
   A comment at the head of a file that fills the buffer ends there: what follows on its
   line is read as a line of its own.
   */
  lemma LongCommentEnds(comment: string, text: string, num: nat)
    requires |comment| == BUFSIZE - 1 && IsComment(comment) && '\n' !in comment
    ensures ReadFile(comment + text, num) == ReadFile(text, num)
  {
    var t := comment + text;
    var c := IndexOf(t, '\n', 0);
    assert forall k :: 0 <= k < |comment| ==> t[k] == comment[k];
    assert c >= BUFSIZE - 1;
    assert Taken(t, BUFSIZE - 1) == BUFSIZE - 1;
    assert t[BUFSIZE - 1..] == text;
  }

  // ---- the loops -------------------------------------------------------------------

  function TextLen(row: Fields): nat {
    if row == [] then 0 else TextLen(row[..|row| - 1]) + |row[|row| - 1]|
  }

  /** What the row loop has put in the buffer: every field followed by a tab. */
  function Tabbed(row: Fields): string {
    if row == [] then "" else Tabbed(row[..|row| - 1]) + EscField(row[|row| - 1]) + "\t"
  }

  lemma {:induction false} EscAppend(f: string, c: char)
    ensures EscField(f + [c]) == EscField(f) + EscField([c])
    decreases |f|
  {
    if f == "" {
      assert f + [c] == [c];
    } else {
      assert (f + [c])[1..] == f[1..] + [c];
      EscAppend(f[1..], c);
    }
  }

  lemma {:induction false} TabbedFront(row: Fields)
    requires row != []
    ensures Tabbed(row) == EscField(row[0]) + "\t" + Tabbed(row[1..])
    decreases |row|
  {
    hide EscField;
    if |row| == 1 {
      assert row[..0] == [] && row[1..] == [];
      assert EscField(row[0]) + "\t" + "" == "" + EscField(row[0]) + "\t";
    } else {
      var n := |row| - 1;
      var a, last := row[..n], EscField(row[n]) + "\t";
      TabbedFront(a);
      assert a[0] == row[0] && row[1..][..n - 1] == a[1..];
      var first, mid := EscField(row[0]) + "\t", Tabbed(a[1..]);
      Assoc(Tabbed(a), EscField(row[n]), "\t");
      Assoc(mid, EscField(row[n]), "\t");
      assert Tabbed(row) == Tabbed(a) + last && Tabbed(row[1..]) == mid + last;
      Assoc(first, mid, last);
    }
  }

  lemma {:induction false} TabbedJoin(row: Fields)
    requires row != []
    ensures Tabbed(row) == Join(row) + "\t"
    decreases |row|
  {
    TabbedFront(row);
    if |row| > 1 { TabbedJoin(row[1..]); } else { assert row[1..] == []; }
  }

  /** One character of a field, a tab behind a backslash. */
  method PutChar(buf: array<char>, p: nat, c: char) returns (q: nat)
    requires p + 2 <= buf.Length
    modifies buf
    ensures q == p + |EscField([c])|
    ensures p < q <= p + 2 && buf[..q] == old(buf[..p]) + EscField([c])
  {
    q := p;
    assert EscField([c][1..]) == "";
    if c == '\t' {
      buf[q] := '\\';
      q := q + 1;
    }
    buf[q] := c;
    q := q + 1;
    assert buf[..p] == old(buf[..p]);
  }

  method PutField(buf: array<char>, p: nat, f: string) returns (q: nat)
    requires p + 2 * |f| <= buf.Length
    modifies buf
    ensures p <= q <= p + 2 * |f|
    ensures buf[..q] == old(buf[..p]) + EscField(f)
  {
    hide EscField;
    q := p;
    assert f[..0] == "";
    EscEmpty();
    assert old(buf[..p]) + "" == old(buf[..p]);
    for k := 0 to |f|
      invariant p <= q <= p + 2 * k
      invariant buf[..q] == old(buf[..p]) + EscField(f[..k])
    {
      EscAppend(f[..k], f[k]);
      assert f[..k] + [f[k]] == f[..k + 1];
      Assoc(old(buf[..p]), EscField(f[..k]), EscField([f[k]]));
      q := PutChar(buf, q, f[k]);
    }
    assert f[..|f|] == f;
  }

  lemma EscEmpty()
    ensures EscField("") == ""
  {
  }

  lemma {:induction false} LenGrows(row: Fields, j: nat)
    requires j <= |row|
    ensures TextLen(row[..j]) <= TextLen(row)
    decreases |row|
  {
    if j < |row| {
      assert row[..|row| - 1][..j] == row[..j];
      LenGrows(row[..|row| - 1], j);
    } else {
      assert row[..j] == row;
    }
  }

  method RowLength(row: Fields) returns (l: nat)
    ensures l == TextLen(row)
  {
    l := 0;
    for j := 0 to |row|
      invariant l == TextLen(row[..j])
    {
      assert row[..j + 1][..j] == row[..j];
      l := l + |row[j]|;
    }
    assert row[..|row|] == row;
  }

  method PutTab(buf: array<char>, p: nat)
    requires p < buf.Length
    modifies buf
    ensures buf[..p + 1] == old(buf[..p]) + "\t"
  {
    buf[p] := '\t';
    assert buf[..p] == old(buf[..p]);
  }

  /** Tabbed and TextLen unfolded at a prefix of the row. */
  lemma PrefixStep(row: Fields, j: nat)
    requires j < |row|
    ensures Tabbed(row[..j + 1]) == Tabbed(row[..j]) + EscField(row[j]) + "\t"
    ensures TextLen(row[..j + 1]) == TextLen(row[..j]) + |row[j]|
    ensures TextLen(row[..j + 1]) <= TextLen(row)
  {
    assert row[..j + 1][..j] == row[..j];
    LenGrows(row, j + 1);
  }

  method PutFields(buf: array<char>, row: Fields) returns (p: nat)
    requires row != [] && buf.Length == TextLen(row) * 2 + |row|
    modifies buf
    ensures 0 < p <= buf.Length && buf[..p] == Tabbed(row)
  {
    p := 0;
    hide EscField, Tabbed, TextLen;
    PrefixStart(row);
    for j := 0 to |row|
      invariant p <= 2 * TextLen(row[..j]) + j && p <= buf.Length && (j > 0 ==> p > 0)
      invariant buf[..p] == Tabbed(row[..j])
    {
      PrefixStep(row, j);
      p := PutField(buf, p, row[j]);
      PutTab(buf, p);
      p := p + 1;
    }
    assert row[..|row|] == row;
  }

  lemma PrefixStart(row: Fields)
    ensures Tabbed(row[..0]) == "" && TextLen(row[..0]) == 0
  {
  }

  /** TXT_DB_write on one row: the buffer of 2 * length + fields holds every escape. */
  method WriteRow(row: Fields) returns (text: string)
    requires row != []
    ensures text == RowText(row)
  {
    var l := RowLength(row);
    var buf := new char[l * 2 + |row|];
    var p := PutFields(buf, row);
    TabbedJoin(row);
    assert buf[..p - 1] == Join(row);
    buf[p - 1] := '\n';
    assert buf[..p - 1] == Join(row);
    text := buf[..p];
  }

  /** TXT_DB_write. */
  method WriteDb(rows: seq<Fields>) returns (text: string)
    requires forall i :: 0 <= i < |rows| ==> rows[i] != []
    ensures text == FileText(rows)
  {
    text := "";
    assert rows[0..] == rows;
    for i := 0 to |rows|
      invariant text + FileText(rows[i..]) == FileText(rows)
    {
      var line := WriteRow(rows[i]);
      assert rows[i..][1..] == rows[i + 1..];
      assert text + (line + FileText(rows[i + 1..])) == (text + line) + FileText(rows[i + 1..]);
      text := text + line;
    }
  }

  /** The field loop of TXT_DB_read. */
  method ReadRow(l: string, num: nat) returns (r: Option<Fields>)
    ensures r == ParseLine(l, num)
  {
    var i, done, cur, esc := 0, [], "", false;
    assert l[0..] == l;
    while i < |l|
      invariant 0 <= i <= |l| && esc == EndsEsc(cur)
      invariant ParseFrom(l[i..], done, cur, esc, num) == ParseLine(l, num)
    {
      assert l[i..][1..] == l[i + 1..];
      if l[i] == '\t' && !esc {
        if |done| + 1 >= num {
          r := if |done| + 1 == num && i + 1 == |l| then Some(done + [cur]) else None;
          return;
        }
        done, cur := done + [cur], "";
      } else {
        if l[i] == '\t' { cur := cur[..|cur| - 1]; }
        esc := l[i] == '\\';
        cur := cur + [l[i]];
      }
      i := i + 1;
    }
    r := if |done| + 1 == num then Some(done + [cur]) else None;
  }

  /** TXT_DB_read: the buffer is filled piece by piece, and grows while a line goes on. */
  method ReadDb(text: string, num: nat) returns (r: Option<seq<Fields>>)
    ensures r == ReadFile(text, num)
  {
    hide ReadLines, ParseLine, IsComment, Taken, Buffer, IndexOf, Unfinished, Prepend;
    var pos, offset, size := 0, 0, BUFSIZE;
    var rows: seq<Fields> := [];
    assert text[0..] == text;
    PrependNone(ReadFile(text, num));
    while true
      invariant 0 <= offset <= pos <= |text| && size > 1
      invariant offset != 0 ==> Unfinished(text[pos - offset..], offset, size)
      invariant ReadFile(text, num) == Prepend(rows, ReadLines(text[pos - offset..], num, size))
      decreases |text| - pos
    {
      ghost var line := text[pos - offset..];
      if offset != 0 {
        Longer(line, num, offset, size);
        size := size + BUFSIZE;
      }
      var rest := text[pos..];
      assert line[offset..] == rest;
      var k := Taken(rest, size - offset - 1);
      PrependEnds(rows);
      TakenAll(line, num, offset, size, k);
      if k == 0 {
        return Some(rows);
      }
      pos := pos + k;
      assert line[offset + k..] == text[pos..];
      if offset == 0 && rest[0] == '#' { continue; }
      offset := offset + k;
      if text[pos - 1] != '\n' { continue; }
      var row := ReadRow(text[pos - offset..pos - 1], num);
      assert line[..offset - 1] == text[pos - offset..pos - 1];
      if row.None? { return None; }
      PrependOne(rows, row.value, ReadLines(text[pos..], num, size));
      rows, offset := rows + [row.value], 0;
    }
  }

  /** Of a line that is no comment, n characters are in the buffer, and it is full or the file has ended. */
  ghost predicate Unfinished(line: string, n: nat, size: nat) {
    && 0 < n <= |line| && !IsComment(line) && IndexOf(line, '\n', 0) >= n
    && (n == |line| || n == size - 1) && n < size
  }

  lemma IndexLater(s: string, c: char, n: nat)
    requires n <= |s| && IndexOf(s, c, 0) >= n
    ensures IndexOf(s, c, 0) == n + IndexOf(s[n..], c, 0)
  {
    var i, k := IndexOf(s, c, 0), IndexOf(s[n..], c, 0);
    assert forall m :: 0 <= m < |s| - n ==> s[n..][m] == s[n + m];
    assert i < |s| ==> s[n..][i - n] == c;
  }

  /** A line longer than the buffer is read the same with a larger one. */
  lemma Longer(line: string, num: nat, n: nat, size: nat)
    requires size > 1 && Unfinished(line, n, size)
    ensures ReadLines(line, num, size) == ReadLines(line, num, size + BUFSIZE)
    ensures n < size && !IsComment(line) && IndexOf(line, '\n', 0) >= n
  {
    var c := IndexOf(line, '\n', 0);
    if c < |line| {
      assert c + 1 >= size;
      assert Buffer(size, c + 1) == Buffer(size + BUFSIZE, c + 1);
    }
  }

  /** What one more piece of k characters means. */
  lemma TakenAll(line: string, num: nat, n: nat, size: nat, k: nat)
    requires n <= |line| && n + 1 < size && k == Taken(line[n..], size - n - 1)
    requires n > 0 ==> !IsComment(line) && IndexOf(line, '\n', 0) >= n
    ensures k == 0 ==> ReadLines(line, num, size) == Some([]) && n == |line|
    ensures k > 0 ==> n + k <= |line|
    ensures n == 0 && k > 0 && line[0] == '#' ==> ReadLines(line, num, size) == ReadLines(line[k..], num, size)
    ensures k > 0 && (n > 0 || line[0] != '#') && line[n + k - 1] != '\n' ==> Unfinished(line, n + k, size)
    ensures k > 0 && (n > 0 || line[0] != '#') && line[n + k - 1] == '\n' ==>
              var row := ParseLine(line[..n + k - 1], num);
              ReadLines(line, num, size)
              == if row.None? then None else Prepend([row.value], ReadLines(line[n + k..], num, size))
  {
    hide ParseLine;
    IndexLater(line, '\n', n);
    assert line[0..] == line;
    var c := IndexOf(line, '\n', 0);
    if k > 0 && (n > 0 || line[0] != '#') {
      if line[n + k - 1] == '\n' {
        assert c == n + k - 1;
        assert Buffer(size, c + 1) == size;
      }
    }
  }

  lemma PrependEnds(rows: seq<Fields>)
    ensures Prepend(rows, Some([])) == Some(rows) && Prepend(rows, None) == None
  {
    assert rows + [] == rows;
  }

  lemma PrependNone(rest: Option<seq<Fields>>)
    ensures Prepend([], rest) == rest
  {
    if rest.Some? { assert [] + rest.value == rest.value; }
  }

  lemma PrependOne(rows: seq<Fields>, row: Fields, rest: Option<seq<Fields>>)
    ensures Prepend(rows, Prepend([row], rest)) == Prepend(rows + [row], rest)
  {
    if rest.Some? {
      assert rows + ([row] + rest.value) == rows + [row] + rest.value;
    }
  }

  ghost function Prepend(rows: seq<Fields>, rest: Option<seq<Fields>>): Option<seq<Fields>> {
    if rest.None? then None else Some(rows + rest.value)
  }
}
