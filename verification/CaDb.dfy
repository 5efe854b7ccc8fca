/**
 The certificate database of `openssl ca`: what the load check accepts, how
 issue, revocation and expiry change it, and what every run keeps (apps/ca.c,
 crypto/txt_db/txt_db.c, apps/lib/apps.c).
 */
module CaDb {
  import opened CText
  import opened Serial
  import opened RevInfo
  import opened TxtDb

  const DB_NUMBER := 6

  datatype Row = Row(kind: string, exp: string, rev: string, serial: string, file: string, name: string) {
    function Columns(): (f: Fields) {
      [kind, exp, rev, serial, file, name]
    }

    /** The test on the first character of the type column. */
    predicate Is(c: char) {
      kind != "" && kind[0] == c
    }
  }

  function RowOf(f: Fields): Row
    requires |f| == DB_NUMBER
  {
    Row(f[0], f[1], f[2], f[3], f[4], f[5])
  }

  function ColumnsOf(rows: seq<Row>): (t: seq<Fields>)
    ensures |t| == |rows| && Wide(t, DB_NUMBER)
    ensures forall i :: 0 <= i < |rows| ==> t[i] == rows[i].Columns()
  {
    seq(|rows|, i requires 0 <= i < |rows| => rows[i].Columns())
  }

  function RowsOf(t: seq<Fields>): (rows: seq<Row>)
    requires Wide(t, DB_NUMBER)
    ensures |rows| == |t|
    ensures forall i :: 0 <= i < |t| ==> rows[i] == RowOf(t[i])
  {
    seq(|t|, i requires 0 <= i < |t| => RowOf(t[i]))
  }

  // ---- loading -----------------------------------------------------------------------

  /** The per-row load check of ca_main. */
  predicate RowLoads(lib: Lib, r: Row) {
    && (if r.Is('R') then Unpack(lib, r.rev).Some? else r.rev == "")
    && lib.isTime(r.exp)
    && SerialOk(r.serial)
  }

  predicate RowsLoad(lib: Lib, rows: seq<Row>) {
    forall i :: 0 <= i < |rows| ==> RowLoads(lib, rows[i])
  }

  /** The serial index can be built: no two serials are equal up to leading zeros. */
  predicate SerialsDistinct(rows: seq<Row>) {
    forall i, j :: 0 <= i < j < |rows| ==> Key(rows[i].serial) != Key(rows[j].serial)
  }

  /** The name index can be built: valid rows have different names. */
  predicate ValidNamesDistinct(rows: seq<Row>) {
    forall i, j :: 0 <= i < j < |rows| && rows[i].Is('V') && rows[j].Is('V') ==> rows[i].name != rows[j].name
  }

  /**
   The database in memory. `named` holds the positions entered in the name
   index; a row stays there when its type is changed in place.
   */
  datatype Db = Db(rows: seq<Row>, named: set<nat>, unique: bool)

  function ValidRows(rows: seq<Row>): set<nat> {
    set i | 0 <= i < |rows| && rows[i].Is('V')
  }

  /** load_index, the load check and index_index, on the text of the index file. */
  function Load(lib: Lib, text: string, unique: bool): Option<Db> {
    var t := ReadFile(text, DB_NUMBER);
    if t.None? then None
    else
      ReadSafe(text, DB_NUMBER);
      var rows := RowsOf(t.value);
      if RowsLoad(lib, rows) && SerialsDistinct(rows) && (unique ==> ValidNamesDistinct(rows)) then
        Some(Db(rows, if unique then ValidRows(rows) else {}, unique))
      else None
  }

  /** save_index: TXT_DB_write of the rows. */
  function Save(db: Db): string {
    FileText(ColumnsOf(db.rows))
  }

  // ---- steps -------------------------------------------------------------------------

  /** What the database sees of a certificate. */
  datatype Cert = Cert(serial: int, name: string, notAfter: string)

  /** The name column: an empty subject is replaced by the serial. */
  function NameColumn(c: Cert): string {
    if c.name == "" then SerialText(c.serial) else c.name
  }

  function FreshRow(c: Cert): Row {
    Row("V", c.notAfter, "", SerialText(c.serial), "unknown", NameColumn(c))
  }

  /** TXT_DB_get_by_index on the serial: the position of the row, or |rows|. */
  function Find(rows: seq<Row>, serial: string): (i: nat)
    ensures i <= |rows|
    ensures i < |rows| ==> Key(rows[i].serial) == Key(serial)
    ensures forall k :: 0 <= k < i ==> Key(rows[k].serial) != Key(serial)
  {
    if rows == [] then 0
    else
      var i := Find(rows[..|rows| - 1], serial);
      if i < |rows| - 1 || Key(rows[|rows| - 1].serial) == Key(serial) then i else |rows|
  }

  /** TXT_DB_get_by_index on the name. */
  predicate NameTaken(db: Db, name: string) {
    exists i :: i in db.named && i < |db.rows| && db.rows[i].name == name
  }

  /** TXT_DB_insert of a valid row: both indexes are consulted. */
  function Insert(db: Db, r: Row): Option<Db> {
    if Find(db.rows, r.serial) < |db.rows| || NameTaken(db, r.name) then None
    else Some(Db(db.rows + [r], if db.unique then db.named + {|db.rows|} else db.named, db.unique))
  }

  datatype Outcome = Issued | Refused | Fatal

  /** The database part of do_body: clash checks, the operator's answer, signing, insert. */
  function Certify(db: Db, c: Cert, accept: bool, signed: bool): (Outcome, Db) {
    if NameTaken(db, NameColumn(c)) || Find(db.rows, SerialText(c.serial)) < |db.rows| then (Fatal, db)
    else if !accept then (Refused, db)
    else if !signed then (Fatal, db)
    else
      match Insert(db, FreshRow(c))
      case None => (Fatal, db)
      case Some(d) => (Issued, d)
  }

  /**
   Writing "R" over the type column of a row in place. The closing NUL goes one
   character further, which for an empty type column is the start of the expiry column.
   */
  function Stamp(r: Row, text: string): Row {
    r.(kind := "R", rev := text, exp := if r.kind == "" then "" else r.exp)
  }

  /** do_revoke on a row that is there. */
  function RevokeAt(lib: Lib, db: Db, i: nat, c: Cert, kind: RevType, arg: string, now: string): (bool, Db)
    requires i < |db.rows|
  {
    var r := db.rows[i];
    if r.name != NameColumn(c) || kind.MarkValid? || r.Is('R') || !ArgOk(lib, kind, arg) then (false, db)
    else (true, db.(rows := db.rows[i := Stamp(r, RevText(lib, kind, arg, now))]))
  }

  /** do_revoke: an unknown certificate is entered as valid first. */
  function Revoke(lib: Lib, db: Db, c: Cert, kind: RevType, arg: string, now: string): (bool, Db) {
    var i := Find(db.rows, SerialText(c.serial));
    if i < |db.rows| then RevokeAt(lib, db, i, c, kind, arg, now)
    else
      match Insert(db, FreshRow(c))
      case None => (false, db)
      case Some(d) =>
        if kind.MarkValid? then (true, d) else RevokeAt(lib, d, |db.rows|, c, kind, arg, now)
  }

  function Expire(r: Row, expired: string -> bool): Row {
    if r.Is('V') && expired(r.exp) then r.(kind := "E") else r
  }

  /** do_updatedb stops at the first valid row whose expiry column is not a time. */
  function FirstBad(lib: Lib, rows: seq<Row>): (b: nat)
    ensures b <= |rows|
    ensures forall k :: 0 <= k < b && rows[k].Is('V') ==> lib.isTime(rows[k].exp)
    ensures b < |rows| ==> rows[b].Is('V') && !lib.isTime(rows[b].exp)
  {
    if rows == [] then 0
    else
      var b := FirstBad(lib, rows[..|rows| - 1]);
      if b < |rows| - 1 then b
      else if rows[|rows| - 1].Is('V') && !lib.isTime(rows[|rows| - 1].exp) then b
      else |rows|
  }

  function Update(lib: Lib, db: Db, expired: string -> bool): Db {
    var b := FirstBad(lib, db.rows);
    db.(rows := seq(|db.rows|, i requires 0 <= i < |db.rows| =>
                 if i < b then Expire(db.rows[i], expired) else db.rows[i]))
  }

  datatype Step =
    | DoCertify(cert: Cert, accept: bool, signed: bool)
    | DoRevoke(cert: Cert, kind: RevType, arg: string, now: string)
    | DoUpdate(expired: string -> bool)

  function Apply(lib: Lib, db: Db, s: Step): Db {
    match s
    case DoCertify(c, accept, signed) => Certify(db, c, accept, signed).1
    case DoRevoke(c, kind, arg, now) => Revoke(lib, db, c, kind, arg, now).1
    case DoUpdate(expired) => Update(lib, db, expired)
  }

  function Run(lib: Lib, db: Db, steps: seq<Step>): Db
    decreases |steps|
  {
    if steps == [] then db else Run(lib, Apply(lib, db, steps[0]), steps[1..])
  }

  // ---- the invariant -------------------------------------------------------------------

  /** Certificates as X509_NAME_oneline and set_cert_times give them. */
  predicate CertOk(lib: Lib, c: Cert) {
    '\n' !in c.name && lib.isTime(c.notAfter)
  }

  predicate StepOk(lib: Lib, s: Step) {
    match s
    case DoCertify(c, _, _) => CertOk(lib, c)
    case DoRevoke(c, _, _, now) => CertOk(lib, c) && lib.isUtc(now)
    case DoUpdate(_) => true
  }

  predicate RowFileSafe(r: Row) {
    RowSafe(r.Columns())
  }

  ghost predicate Indexed(db: Db) {
    && SerialsDistinct(db.rows)
    && (db.unique ==>
          && ValidRows(db.rows) <= db.named
          && (forall i :: i in db.named ==> i < |db.rows|)
          && (forall i, j :: i in db.named && j in db.named && i != j ==> db.rows[i].name != db.rows[j].name))
    && (!db.unique ==> db.named == {})
  }

  /** What every step keeps, whether or not the rows would pass the load check. */
  ghost predicate Good(db: Db) {
    Indexed(db) && forall i :: 0 <= i < |db.rows| ==> RowFileSafe(db.rows[i])
  }

  /** No row with an empty type column has been changed. */
  predicate EmptyTypesKept(before: seq<Row>, after: seq<Row>) {
    && |before| <= |after|
    && forall i :: 0 <= i < |before| && before[i].kind == "" ==> after[i] == before[i]
  }
}
