/**
 The certificate database as an object updated in place: loading and checking,
 insert, do_revoke with its self-call, do_updatedb and saving (apps/ca.c,
 crypto/txt_db/txt_db.c).
 */
module CaStore {
  import opened CText
  import opened Serial
  import opened RevInfo
  import opened TxtDb
  import opened CaDb

  /** The serial column loop of the load check. */
  method CheckSerial(s: string) returns (ok: bool)
    ensures ok == SerialOk(s)
  {
    var p := if s != "" && s[0] == '-' then s[1..] else s;
    if |p| % 2 == 1 || |p| < 2 { return false; }
    for k := 0 to |p|
      invariant forall i :: 0 <= i < k ==> IsHex(p[i])
    {
      if !IsHex(p[k]) { return false; }
    }
    ok := true;
  }

  /** The load check loop of ca_main. */
  method CheckRows(lib: Lib, rows: seq<Row>) returns (ok: bool)
    ensures ok == RowsLoad(lib, rows)
  {
    for i := 0 to |rows|
      invariant forall k :: 0 <= k < i ==> RowLoads(lib, rows[k])
    {
      var r := rows[i];
      if !r.Is('R') && r.rev != "" { return false; }
      if r.Is('R') && Unpack(lib, r.rev).None? { return false; }
      if !lib.isTime(r.exp) { return false; }
      var good := CheckSerial(r.serial);
      if !good { return false; }
    }
    ok := true;
  }

  /** TXT_DB_create_index on the serial column. */
  method IndexSerials(rows: seq<Row>) returns (ok: bool)
    ensures ok == SerialsDistinct(rows)
  {
    var seen: set<string> := {};
    for i := 0 to |rows|
      invariant forall k :: 0 <= k < i ==> Key(rows[k].serial) in seen
      invariant forall s :: s in seen ==> exists k :: 0 <= k < i && Key(rows[k].serial) == s
      invariant forall j, k :: 0 <= j < k < i ==> Key(rows[j].serial) != Key(rows[k].serial)
    {
      var key := Key(rows[i].serial);
      if key in seen { return false; }
      seen := seen + {key};
    }
    ok := true;
  }

  /** TXT_DB_create_index on the name column, valid rows only. */
  method IndexNames(rows: seq<Row>) returns (ok: bool, named: set<nat>)
    ensures ok == ValidNamesDistinct(rows)
    ensures ok ==> named == ValidRows(rows)
  {
    var seen: set<string> := {};
    named := {};
    for i := 0 to |rows|
      invariant forall k :: 0 <= k < i && rows[k].Is('V') ==> rows[k].name in seen
      invariant forall s :: s in seen ==> exists k :: 0 <= k < i && rows[k].Is('V') && rows[k].name == s
      invariant forall j, k :: 0 <= j < k < i && rows[j].Is('V') && rows[k].Is('V') ==> rows[j].name != rows[k].name
      invariant named == set k | 0 <= k < i && rows[k].Is('V')
    {
      if rows[i].Is('V') {
        if rows[i].name in seen { return false, {}; }
        seen := seen + {rows[i].name};
        named := named + {i};
      }
    }
    ok := true;
  }

  class CertDb {
    var rows: seq<Row>
    var named: set<nat>
    const unique: bool

    ghost function View(): Db
      reads this
    {
      Db(rows, named, unique)
    }

    constructor (rows: seq<Row>, named: set<nat>, unique: bool)
      ensures View() == Db(rows, named, unique)
    {
      this.rows, this.named, this.unique := rows, named, unique;
    }

    /** TXT_DB_get_by_index on the name column. */
    method LookupName(name: string) returns (taken: bool)
      ensures taken == NameTaken(View(), name)
    {
      taken := exists i :: i in named && i < |rows| && rows[i].name == name;
    }

    /** TXT_DB_insert of a row of type V. */
    method InsertRow(r: Row) returns (ok: bool)
      modifies this
      ensures ok == Insert(old(View()), r).Some?
      ensures View() == if ok then Insert(old(View()), r).value else old(View())
    {
      if Find(rows, r.serial) < |rows| { return false; }
      var taken := LookupName(r.name);
      if taken { return false; }
      if unique { named := named + {|rows|}; }
      rows := rows + [r];
      ok := true;
    }

    /** The database part of do_body. */
    method CertifyCert(c: Cert, accept: bool, signed: bool) returns (outcome: Outcome)
      modifies this
      ensures (outcome, View()) == Certify(old(View()), c, accept, signed)
    {
      var taken := LookupName(NameColumn(c));
      if taken { return Fatal; }
      if Find(rows, SerialText(c.serial)) < |rows| { return Fatal; }
      if !accept { return Refused; }
      if !signed { return Fatal; }
      var ok := InsertRow(FreshRow(c));
      outcome := if ok then Issued else Fatal;
    }

    /** do_revoke. The self-call finds the row just entered, so it is at most one deep. */
    method RevokeCert(lib: Lib, c: Cert, kind: RevType, arg: string, now: string) returns (ok: bool)
      modifies this
      ensures (ok, View()) == Revoke(lib, old(View()), c, kind, arg, now)
      decreases Find(rows, SerialText(c.serial)) == |rows|
    {
      hide Find, RevokeAt, SerialText, FreshRow, NameTaken;
      var i := Find(rows, SerialText(c.serial));
      if i == |rows| {
        ok := InsertRow(FreshRow(c));
        if !ok || kind == MarkValid { return; }
        InsertedIsFound(old(rows), c);
        ok := RevokeCert(lib, c, kind, arg, now);
        return;
      }
      ok := RevokeFound(lib, i, c, kind, arg, now);
    }

    /** do_revoke once the row is there. */
    method RevokeFound(lib: Lib, i: nat, c: Cert, kind: RevType, arg: string, now: string) returns (ok: bool)
      requires i < |rows|
      modifies this
      ensures (ok, View()) == RevokeAt(lib, old(View()), i, c, kind, arg, now)
    {
      if rows[i].name != NameColumn(c) || kind == MarkValid || rows[i].Is('R') { return false; }
      var text := MakeRevocationStr(lib, kind, arg, Some(now));
      if text.None? { return false; }
      rows := rows[i := Stamp(rows[i], text.value)];
      ok := true;
    }

    /** do_updatedb: the count of rows marked, or -1 when an expiry column cannot be read. */
    method UpdateDb(lib: Lib, expired: string -> bool) returns (cnt: int)
      modifies this
      ensures View() == Update(lib, old(View()), expired)
      ensures cnt == if FirstBad(lib, old(rows)) < |old(rows)| then -1 else Marked(old(rows), expired)
    {
      cnt := 0;
      ghost var before := rows;
      ghost var b := FirstBad(lib, before);
      assert before[..0] == [];
      for i := 0 to |rows|
        invariant |rows| == |before| && named == old(named) && i <= b
        invariant forall k :: 0 <= k < |rows| ==> rows[k] == if k < i then Expire(before[k], expired) else before[k]
        invariant cnt == Marked(before[..i], expired)
      {
        assert before[..i + 1][..i] == before[..i];
        if rows[i].Is('V') {
          if !lib.isTime(rows[i].exp) {
            assert rows == Update(lib, Db(before, named, unique), expired).rows;
            return -1;
          }
          if expired(rows[i].exp) {
            rows := rows[i := rows[i].(kind := "E")];
            cnt := cnt + 1;
          }
        }
      }
      assert before[..|before|] == before;
      assert rows == Update(lib, Db(before, named, unique), expired).rows;
    }

    /** save_index. */
    method SaveIndex() returns (text: string)
      ensures text == Save(View())
    {
      text := WriteDb(ColumnsOf(rows));
    }
  }

  /** How many rows do_updatedb marks. */
  function Marked(rows: seq<Row>, expired: string -> bool): nat {
    if rows == [] then 0
    else
      var r := rows[|rows| - 1];
      Marked(rows[..|rows| - 1], expired) + if r.Is('V') && expired(r.exp) then 1 else 0
  }

  /** It is the number of valid rows whose expiry has passed. */
  lemma {:induction false} MarkedCounts(rows: seq<Row>, expired: string -> bool)
    ensures Marked(rows, expired) == |set i | 0 <= i < |rows| && rows[i].Is('V') && expired(rows[i].exp)|
    decreases |rows|
  {
    if rows != [] {
      var n := |rows| - 1;
      MarkedCounts(rows[..n], expired);
      var before := set i | 0 <= i < n && rows[..n][i].Is('V') && expired(rows[..n][i].exp);
      var all := set i | 0 <= i < |rows| && rows[i].Is('V') && expired(rows[i].exp);
      if rows[n].Is('V') && expired(rows[n].exp) {
        assert all == before + {n};
      } else {
        assert all == before;
      }
    }
  }

  lemma InsertedIsFound(rows: seq<Row>, c: Cert)
    requires Find(rows, SerialText(c.serial)) == |rows|
    ensures Find(rows + [FreshRow(c)], SerialText(c.serial)) == |rows|
  {
    var t := rows + [FreshRow(c)];
    assert Key(t[|rows|].serial) == Key(SerialText(c.serial));
    assert forall k :: 0 <= k < |rows| ==> t[k] == rows[k];
  }

  /** load_index, the load check and index_index. */
  method LoadIndex(lib: Lib, text: string, unique: bool) returns (db: CertDb?)
    ensures db != null <==> Load(lib, text, unique).Some?
    ensures db != null ==> fresh(db) && db.View() == Load(lib, text, unique).value
  {
    var t := ReadDb(text, DB_NUMBER);
    if t.None? { return null; }
    ReadSafe(text, DB_NUMBER);
    var rows := RowsOf(t.value);
    var ok := CheckRows(lib, rows);
    if !ok { return null; }
    ok := IndexSerials(rows);
    if !ok { return null; }
    var named: set<nat> := {};
    if unique {
      ok, named := IndexNames(rows);
      if !ok { return null; }
    }
    db := new CertDb(rows, named, unique);
  }
}
