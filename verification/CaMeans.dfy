/**
 What each step of `openssl ca` does to the certificate database, column by
 column and position by position (apps/ca.c).
 */
module CaMeans {
  import opened CText
  import opened Serial
  import opened RevInfo
  import opened TxtDb
  import opened CaDb

  /** The row of a new certificate: valid, its expiry, no revocation, its serial, no file, its name or else its serial. */
  predicate IsNewRow(r: Row, c: Cert) {
    && r.kind == "V" && r.exp == c.notAfter && r.rev == "" && r.serial == SerialText(c.serial)
    && r.file == "unknown" && r.name == if c.name == "" then SerialText(c.serial) else c.name
  }

  /** Some row has the serial, up to leading zeros. */
  predicate HasSerial(rows: seq<Row>, n: int) {
    exists i :: 0 <= i < |rows| && Key(rows[i].serial) == Key(SerialText(n))
  }

  /** Some row in the name index has the name the certificate would get. */
  predicate HasName(db: Db, c: Cert) {
    exists i :: i in db.named && i < |db.rows| && db.rows[i].name == if c.name == "" then SerialText(c.serial) else c.name
  }

  lemma FindIff(rows: seq<Row>, n: int)
    ensures Find(rows, SerialText(n)) < |rows| <==> HasSerial(rows, n)
  {
    hide Key, SerialText;
  }

  /**
   Issue: a serial or a name that is there is fatal, a refusal changes nothing, a failed signature
   is fatal, and otherwise the new row is added at the end, and to the name index if there is one.
   */
  lemma CertifyMeans(db: Db, c: Cert, accept: bool, signed: bool)
    ensures var (outcome, d) := Certify(db, c, accept, signed);
            var clash := HasSerial(db.rows, c.serial) || HasName(db, c);
            && (outcome == Refused <==> !clash && !accept)
            && (outcome == Issued <==> !clash && accept && signed)
            && (outcome == Fatal <==> clash || (accept && !signed))
            && (outcome != Issued ==> d == db)
            && (outcome == Issued ==>
                  && |d.rows| == |db.rows| + 1 && d.rows[..|db.rows|] == db.rows
                  && IsNewRow(d.rows[|db.rows|], c) && d.unique == db.unique
                  && d.named == if db.unique then db.named + {|db.rows|} else db.named)
  {
    hide Key, SerialText;
    FindIff(db.rows, c.serial);
  }

  /** The row after a revocation: type R and the revocation column written; an empty type also empties the expiry. */
  predicate IsRevokedRow(r: Row, before: Row, text: string) {
    && r.kind == "R" && r.rev == text && r.exp == (if before.kind == "" then "" else before.exp)
    && r.serial == before.serial && r.file == before.file && r.name == before.name
  }

  /**
   Revocation of a certificate whose serial is there: it goes through exactly when the name is
   the same, it is not asked to be marked valid, the row is not revoked yet and the argument is
   one its kind allows. Then this row alone changes, and otherwise none.
   */
  lemma RevokeMeans(lib: Lib, db: Db, c: Cert, kind: RevType, arg: string, now: string) returns (i: nat)
    requires HasSerial(db.rows, c.serial)
    ensures i < |db.rows| && Key(db.rows[i].serial) == Key(SerialText(c.serial))
    ensures var (ok, d) := Revoke(lib, db, c, kind, arg, now);
            && (ok <==> (&& db.rows[i].name == (if c.name == "" then SerialText(c.serial) else c.name)
                         && kind != MarkValid && !db.rows[i].Is('R') && ArgOk(lib, kind, arg)))
            && (!ok ==> d == db)
            && (ok ==>
                  && |d.rows| == |db.rows| && d.named == db.named && d.unique == db.unique
                  && IsRevokedRow(d.rows[i], db.rows[i], RevText(lib, kind, arg, now))
                  && forall k :: 0 <= k < |db.rows| && k != i ==> d.rows[k] == db.rows[k])
  {
    hide Key, SerialText, RevText, ArgOk;
    FindIff(db.rows, c.serial);
    i := Find(db.rows, SerialText(c.serial));
  }

  /** Marking a known certificate valid is refused and changes no row. */
  lemma MarkValidKeeps(lib: Lib, db: Db, c: Cert, arg: string, now: string)
    requires HasSerial(db.rows, c.serial)
    ensures Revoke(lib, db, c, MarkValid, arg, now) == (false, db)
  {
    var i := RevokeMeans(lib, db, c, MarkValid, arg, now);
  }

  /**
   Revocation of a certificate whose serial is not there: refused if its name clashes; otherwise
   it is entered as a new row, which is revoked at once unless it is to be marked valid or the
   argument is not allowed.
   */
  lemma RevokeUnknown(lib: Lib, db: Db, c: Cert, kind: RevType, arg: string, now: string)
    requires !HasSerial(db.rows, c.serial)
    ensures var (ok, d) := Revoke(lib, db, c, kind, arg, now);
            && (ok <==> !HasName(db, c) && (kind == MarkValid || ArgOk(lib, kind, arg)))
            && (HasName(db, c) ==> d == db)
            && (!HasName(db, c) ==>
                  && |d.rows| == |db.rows| + 1 && d.rows[..|db.rows|] == db.rows
                  && (!ok || kind == MarkValid ==> IsNewRow(d.rows[|db.rows|], c))
                  && (ok && kind != MarkValid ==>
                        IsRevokedRow(d.rows[|db.rows|], FreshRow(c), RevText(lib, kind, arg, now))))
  {
    hide Key, SerialText, RevText, ArgOk;
    FindIff(db.rows, c.serial);
  }

  /**
   Expiry: up to the first valid row whose expiry is no time, the valid rows whose expiry has
   passed get type E; everything else stays.
   */
  lemma UpdateMeans(lib: Lib, db: Db, expired: string -> bool)
    ensures var d := Update(lib, db, expired);
            && |d.rows| == |db.rows| && d.named == db.named && d.unique == db.unique
            && forall i :: 0 <= i < |db.rows| ==>
                 var r := db.rows[i];
                 var reached := forall k :: 0 <= k <= i && db.rows[k].Is('V') ==> lib.isTime(db.rows[k].exp);
                 d.rows[i] == if reached && r.Is('V') && expired(r.exp) then Row("E", r.exp, r.rev, r.serial, r.file, r.name) else r
  {
  }

  /** A row without tabs is saved as its six columns in their order, with tabs between them. */
  lemma SavedLine(r: Row)
    requires '\t' !in r.kind && '\t' !in r.exp && '\t' !in r.rev && '\t' !in r.serial && '\t' !in r.file && '\t' !in r.name
    ensures RowText(r.Columns())
         == r.kind + "\t" + (r.exp + "\t" + (r.rev + "\t" + (r.serial + "\t" + (r.file + "\t" + r.name)))) + "\n"
  {
    var f := [r.kind, r.exp, r.rev, r.serial, r.file, r.name];
    assert r.Columns() == f;
    hide EscField, Join;
    NoTabs(r.kind);
    NoTabs(r.exp);
    NoTabs(r.rev);
    NoTabs(r.serial);
    NoTabs(r.file);
    NoTabs(r.name);
    JoinStep(f);
    JoinStep(f[1..]);
    JoinStep(f[2..]);
    JoinStep(f[3..]);
    JoinStep(f[4..]);
    JoinStep(f[5..]);
    assert f[1..][1..] == f[2..] && f[2..][1..] == f[3..] && f[3..][1..] == f[4..] && f[4..][1..] == f[5..];
    Assoc(r.kind, "\t", Join(f[1..]));
    Assoc(r.exp, "\t", Join(f[2..]));
    Assoc(r.rev, "\t", Join(f[3..]));
    Assoc(r.serial, "\t", Join(f[4..]));
    Assoc(r.file, "\t", Join(f[5..]));
  }

  lemma {:induction false} NoTabs(f: string)
    requires '\t' !in f
    ensures EscField(f) == f
    decreases |f|
  {
    if f != "" { NoTabs(f[1..]); }
  }

  lemma JoinStep(row: Fields)
    requires row != []
    ensures Join(row) == if |row| == 1 then EscField(row[0]) else EscField(row[0]) + "\t" + Join(row[1..])
  {
  }
}
