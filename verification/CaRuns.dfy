/**
 What every run of the certificate database keeps: a saved database loads
 again, serials stay unique, and rows only move forward.
 */
module CaRuns {
  import opened CText
  import opened Serial
  import opened RevInfo
  import opened TxtDb
  import opened CaDb

  // ---- one row at a time -------------------------------------------------------------

  lemma SerialTextSafe(n: int)
    ensures FieldSafe(SerialText(n))
  {
    SerialTextOk(n);
    var t := SerialText(n);
    var p := if t != "" && t[0] == '-' then t[1..] else t;
    assert forall k :: 0 <= k < |t| ==> t[k] == '-' || IsHex(t[k]);
  }

  lemma ColumnsSafe(r: Row)
    requires FieldSafe(r.kind) && FieldSafe(r.exp) && FieldSafe(r.rev) && FieldSafe(r.serial) && FieldSafe(r.file)
    requires '\n' !in r.name && (r.kind != "" ==> r.kind[0] != '#')
    ensures RowFileSafe(r)
  {
    var f := r.Columns();
    assert forall k :: 0 <= k < DB_NUMBER - 1 ==> FieldSafe(f[k]);
  }

  lemma FreshRowGood(lib: Lib, c: Cert)
    requires lib.Ok() && CertOk(lib, c)
    ensures RowLoads(lib, FreshRow(c)) && RowFileSafe(FreshRow(c))
  {
    SerialTextOk(c.serial);
    SerialTextSafe(c.serial);
    hide SerialText, SerialOk;
    assert FieldSafe(c.notAfter);
    ColumnsSafe(FreshRow(c));
  }

  /** A stamped row passes the load check exactly when its type column was not empty. */
  lemma StampLoads(lib: Lib, r: Row, kind: RevType, arg: string, now: string)
    requires lib.Ok() && lib.isUtc(now) && ArgOk(lib, kind, arg) && RowLoads(lib, r)
    ensures RowLoads(lib, Stamp(r, RevText(lib, kind, arg, now))) <==> r.kind != ""
  {
    UnpackOfRevText(lib, kind, arg, now);
  }

  lemma StampSafe(lib: Lib, r: Row, kind: RevType, arg: string, now: string)
    requires lib.Ok() && lib.isUtc(now) && ArgOk(lib, kind, arg) && RowFileSafe(r)
    ensures RowFileSafe(Stamp(r, RevText(lib, kind, arg, now)))
  {
    var t := RevText(lib, kind, arg, now);
    RevTextSafe(lib, kind, arg, now);
    var f := r.Columns();
    assert forall k :: 0 <= k < DB_NUMBER - 1 ==> FieldSafe(f[k]);
    assert FieldSafe(f[1]) && FieldSafe(f[3]) && FieldSafe(f[4]) && '\n' !in f[5];
    ColumnsSafe(Stamp(r, t));
  }

  lemma ExpireSafe(r: Row, expired: string -> bool)
    requires RowFileSafe(r)
    ensures RowFileSafe(Expire(r, expired))
  {
    var f, f' := r.Columns(), Expire(r, expired).Columns();
    assert forall k :: 1 <= k < DB_NUMBER ==> f'[k] == f[k];
    assert f'[0] == f[0] || f'[0] == "E";
  }

  // ---- one step at a time --------------------------------------------------------------

  lemma InsertIndexed(db: Db, c: Cert)
    requires Indexed(db) && Insert(db, FreshRow(c)).Some?
    ensures Indexed(Insert(db, FreshRow(c)).value)
  {
    var d := Insert(db, FreshRow(c)).value;
    assert forall i :: 0 <= i < |db.rows| ==> d.rows[i] == db.rows[i];
    assert SerialsDistinct(d.rows);
    if db.unique {
      forall i | i in ValidRows(d.rows)
        ensures i in d.named
      {
        assert i < |db.rows| ==> i in ValidRows(db.rows);
      }
    }
  }

  lemma RevokeAtIndexed(lib: Lib, db: Db, i: nat, c: Cert, kind: RevType, arg: string, now: string)
    requires Indexed(db) && i < |db.rows|
    ensures Indexed(RevokeAt(lib, db, i, c, kind, arg, now).1)
  {
    var d := RevokeAt(lib, db, i, c, kind, arg, now).1;
    assert |d.rows| == |db.rows|;
    assert forall k :: 0 <= k < |d.rows| ==> d.rows[k].serial == db.rows[k].serial && d.rows[k].name == db.rows[k].name;
    assert forall k :: 0 <= k < |d.rows| && d.rows[k].Is('V') ==> d.rows[k] == db.rows[k];
    assert ValidRows(d.rows) <= ValidRows(db.rows);
  }

  /** The indexes stay sound under every step, whatever its inputs. */
  lemma ApplyIndexed(lib: Lib, db: Db, s: Step)
    requires Indexed(db)
    ensures Indexed(Apply(lib, db, s))
  {
    match s {
      case DoCertify(c, accept, signed) =>
        if Insert(db, FreshRow(c)).Some? { InsertIndexed(db, c); }
      case DoRevoke(c, kind, arg, now) =>
        var i := Find(db.rows, SerialText(c.serial));
        if i < |db.rows| {
          RevokeAtIndexed(lib, db, i, c, kind, arg, now);
        } else if Insert(db, FreshRow(c)).Some? {
          InsertIndexed(db, c);
          RevokeAtIndexed(lib, Insert(db, FreshRow(c)).value, |db.rows|, c, kind, arg, now);
        }
      case DoUpdate(expired) =>
        var d := Update(lib, db, expired);
        assert forall i :: 0 <= i < |db.rows| ==> Evolved(db.rows[i], d.rows[i]);
        assert ValidRows(d.rows) <= ValidRows(db.rows);
    }
  }

  /** A row after a step: an old row unchanged, expired or stamped, or a fresh row, stamped or not. */
  lemma StepRow(lib: Lib, db: Db, s: Step, i: nat)
    requires i < |Apply(lib, db, s).rows|
    ensures |db.rows| <= |Apply(lib, db, s).rows|
    ensures var r' := Apply(lib, db, s).rows[i];
            && (i < |db.rows| ==>
                  var r := db.rows[i];
                  || r' == r
                  || (s.DoUpdate? && r' == Expire(r, s.expired))
                  || (s.DoRevoke? && !r.Is('R') && ArgOk(lib, s.kind, s.arg)
                      && r' == Stamp(r, RevText(lib, s.kind, s.arg, s.now))))
            && (i >= |db.rows| ==>
                  !s.DoUpdate?
                  && (|| r' == FreshRow(s.cert)
                      || (s.DoRevoke? && ArgOk(lib, s.kind, s.arg)
                          && r' == Stamp(FreshRow(s.cert), RevText(lib, s.kind, s.arg, s.now)))))
  {
    hide SerialText, Key, RevText, FirstReason, NameTaken;
  }

  lemma ApplyGood(lib: Lib, db: Db, s: Step)
    requires lib.Ok() && Good(db) && StepOk(lib, s)
    ensures Good(Apply(lib, db, s))
  {
    ApplyIndexed(lib, db, s);
    var d := Apply(lib, db, s);
    forall i | 0 <= i < |d.rows|
      ensures RowFileSafe(d.rows[i])
    {
      hide Apply, RevText, FreshRow, RowFileSafe, SerialText;
      StepRow(lib, db, s, i);
      if i < |db.rows| {
        assert RowFileSafe(db.rows[i]);
        if s.DoUpdate? { ExpireSafe(db.rows[i], s.expired); }
        if s.DoRevoke? && ArgOk(lib, s.kind, s.arg) { StampSafe(lib, db.rows[i], s.kind, s.arg, s.now); }
      } else {
        FreshRowGood(lib, s.cert);
        if s.DoRevoke? && ArgOk(lib, s.kind, s.arg) { StampSafe(lib, FreshRow(s.cert), s.kind, s.arg, s.now); }
      }
    }
  }

  lemma {:induction false} RunGood(lib: Lib, db: Db, steps: seq<Step>)
    requires lib.Ok() && Good(db)
    requires forall k :: 0 <= k < |steps| ==> StepOk(lib, steps[k])
    ensures Good(Run(lib, db, steps))
    decreases |steps|
  {
    if steps != [] {
      ApplyGood(lib, db, steps[0]);
      RunGood(lib, Apply(lib, db, steps[0]), steps[1..]);
    }
  }

  // ---- the history of a row ----------------------------------------------------------------

  /** How a row may look later: the same, valid become expired, or anything but revoked become revoked. */
  predicate Evolved(r: Row, r': Row) {
    && r'.serial == r.serial && r'.file == r.file && r'.name == r.name
    && (r.kind != "" ==> r'.exp == r.exp)
    && (r' != r ==> !r.Is('R') && (r'.Is('R') || (r.Is('V') && r' == r.(kind := "E"))))
    && (r' != r && r.kind == "" ==> r'.exp == "")
  }

  /** Rows are never removed or reordered, and each only moves forward. */
  predicate Grown(a: seq<Row>, b: seq<Row>) {
    |a| <= |b| && forall i :: 0 <= i < |a| ==> Evolved(a[i], b[i])
  }

  lemma GrownTransitive(a: seq<Row>, b: seq<Row>, c: seq<Row>)
    requires Grown(a, b) && Grown(b, c)
    ensures Grown(a, c)
  {
    forall i | 0 <= i < |a| ensures Evolved(a[i], c[i]) {
      assert Evolved(a[i], b[i]) && Evolved(b[i], c[i]);
    }
  }

  lemma ApplyGrown(lib: Lib, db: Db, s: Step)
    ensures Grown(db.rows, Apply(lib, db, s).rows)
  {
    hide SerialText, Key;
  }

  /**
   In every run, from any indexed database and for any inputs: serials stay
   distinct, no row disappears, a revoked row never changes again, and no row
   goes back to valid.
   */
  lemma {:induction false} RunHistory(lib: Lib, db: Db, steps: seq<Step>)
    requires Indexed(db)
    ensures Indexed(Run(lib, db, steps))
    ensures SerialsDistinct(Run(lib, db, steps).rows)
    ensures Grown(db.rows, Run(lib, db, steps).rows)
    decreases |steps|
  {
    if steps != [] {
      var d := Apply(lib, db, steps[0]);
      ApplyIndexed(lib, db, steps[0]);
      ApplyGrown(lib, db, steps[0]);
      RunHistory(lib, d, steps[1..]);
      GrownTransitive(db.rows, d.rows, Run(lib, db, steps).rows);
    }
  }

  // ---- which runs leave a database that loads ---------------------------------------------------

  /** A step leaves loadable rows loadable exactly when it stamps no row with an empty type column. */
  lemma StepLoadsIff(lib: Lib, db: Db, s: Step)
    requires lib.Ok() && StepOk(lib, s) && RowsLoad(lib, db.rows)
    ensures var rows := Apply(lib, db, s).rows;
            && (RowsLoad(lib, rows) <==> EmptyTypesKept(db.rows, rows))
            && (forall i :: |db.rows| <= i < |rows| ==> rows[i].kind != "")
  {
    var rows := Apply(lib, db, s).rows;
    ApplyGrown(lib, db, s);
    forall i | 0 <= i < |rows|
      ensures i < |db.rows| ==> (RowLoads(lib, rows[i]) <==> (db.rows[i].kind == "" ==> rows[i] == db.rows[i]))
      ensures i >= |db.rows| ==> RowLoads(lib, rows[i]) && rows[i].kind != ""
    {
      RowLoadsIff(lib, db, s, i);
    }
  }

  lemma RowLoadsIff(lib: Lib, db: Db, s: Step, i: nat)
    requires lib.Ok() && StepOk(lib, s) && RowsLoad(lib, db.rows) && i < |Apply(lib, db, s).rows|
    ensures var r' := Apply(lib, db, s).rows[i];
            && (i < |db.rows| ==> (RowLoads(lib, r') <==> (db.rows[i].kind == "" ==> r' == db.rows[i])))
            && (i >= |db.rows| ==> RowLoads(lib, r') && r'.kind != "")
  {
    hide Apply, RevText, SerialText, Unpack, SerialOk;
    StepRow(lib, db, s, i);
    var r' := Apply(lib, db, s).rows[i];
    if i < |db.rows| {
      assert RowLoads(lib, db.rows[i]);
      if r' != db.rows[i] && s.DoRevoke? { StampLoads(lib, db.rows[i], s.kind, s.arg, s.now); }
    } else {
      FreshRowGood(lib, s.cert);
      if r' != FreshRow(s.cert) { StampLoads(lib, FreshRow(s.cert), s.kind, s.arg, s.now); }
    }
  }

  /** A run leaves loadable rows loadable exactly when it revokes no row with an empty type column. */
  lemma {:induction false} RunLoadsIff(lib: Lib, db: Db, steps: seq<Step>)
    requires lib.Ok() && Indexed(db) && RowsLoad(lib, db.rows)
    requires forall k :: 0 <= k < |steps| ==> StepOk(lib, steps[k])
    ensures var rows := Run(lib, db, steps).rows;
            RowsLoad(lib, rows) <==> EmptyTypesKept(db.rows, rows)
    decreases |steps|
  {
    if steps != [] {
      var d, rows := Apply(lib, db, steps[0]), Run(lib, db, steps).rows;
      StepLoadsIff(lib, db, steps[0]);
      ApplyIndexed(lib, db, steps[0]);
      ApplyGrown(lib, db, steps[0]);
      RunHistory(lib, d, steps[1..]);
      if RowsLoad(lib, d.rows) {
        RunLoadsIff(lib, d, steps[1..]);
        KeptTwice(db.rows, d.rows, rows);
      } else {
        SpoiledForGood(lib, db.rows, d.rows, rows);
      }
    }
  }

  lemma KeptTwice(a: seq<Row>, b: seq<Row>, c: seq<Row>)
    requires Grown(a, b) && Grown(b, c) && EmptyTypesKept(a, b)
    requires forall i :: |a| <= i < |b| ==> b[i].kind != ""
    ensures EmptyTypesKept(a, c) <==> EmptyTypesKept(b, c)
  {
    forall i | 0 <= i < |a|
      ensures b[i].kind == "" ==> b[i] == a[i]
    {
      assert Evolved(a[i], b[i]);
    }
  }

  lemma SpoiledForGood(lib: Lib, a: seq<Row>, b: seq<Row>, c: seq<Row>)
    requires lib.Ok() && Grown(a, b) && Grown(b, c) && !EmptyTypesKept(a, b)
    ensures !EmptyTypesKept(a, c) && !RowsLoad(lib, c)
  {
    var i :| 0 <= i < |a| && a[i].kind == "" && b[i] != a[i];
    assert Evolved(a[i], b[i]) && Evolved(b[i], c[i]);
    assert !RowLoads(lib, c[i]);
  }

  // ---- save and load ---------------------------------------------------------------------

  lemma LoadedGood(lib: Lib, text: string, unique: bool)
    requires Load(lib, text, unique).Some?
    ensures Good(Load(lib, text, unique).value)
    ensures RowsLoad(lib, Load(lib, text, unique).value.rows) && Load(lib, text, unique).value.unique == unique
  {
    var db := Load(lib, text, unique).value;
    var t := ReadFile(text, DB_NUMBER).value;
    ReadSafe(text, DB_NUMBER);
    forall i | 0 <= i < |db.rows|
      ensures RowFileSafe(db.rows[i])
    {
      assert db.rows[i].Columns() == t[i];
    }
  }

  /** A database kept in order reads back from its file and is indexed again; only the load check can refuse it. */
  lemma GoodReloads(lib: Lib, db: Db)
    requires Good(db)
    ensures Load(lib, Save(db), db.unique)
         == if RowsLoad(lib, db.rows) then Some(db.(named := if db.unique then ValidRows(db.rows) else {})) else None
  {
    var t := ColumnsOf(db.rows);
    assert AllSafe(t) by {
      forall i | 0 <= i < |t| ensures RowSafe(t[i]) { assert RowFileSafe(db.rows[i]); }
    }
    FileRoundTrip(t, DB_NUMBER);
    assert RowsOf(t) == db.rows;
    assert db.unique ==> ValidNamesDistinct(db.rows) by {
      if db.unique {
        forall i, j | 0 <= i < j < |db.rows| && db.rows[i].Is('V') && db.rows[j].Is('V')
          ensures db.rows[i].name != db.rows[j].name
        {
          assert i in ValidRows(db.rows) && j in ValidRows(db.rows);
        }
      }
    }
  }

  /**
   A database loaded from a file and taken through any run can be saved and
   loaded again exactly when the run revoked no row with an empty type column; the
   rows loaded are then the rows that were saved.
   */
  lemma RunReloadsIff(lib: Lib, text: string, unique: bool, steps: seq<Step>)
    requires lib.Ok() && Load(lib, text, unique).Some?
    requires forall k :: 0 <= k < |steps| ==> StepOk(lib, steps[k])
    ensures var db0 := Load(lib, text, unique).value;
            var db := Run(lib, db0, steps);
            && (Load(lib, Save(db), unique).Some? <==> EmptyTypesKept(db0.rows, db.rows))
            && (Load(lib, Save(db), unique).Some? ==> Load(lib, Save(db), unique).value.rows == db.rows)
  {
    LoadedGood(lib, text, unique);
    var db0 := Load(lib, text, unique).value;
    RunGood(lib, db0, steps);
    RunUnique(lib, db0, steps);
    RunLoadsIff(lib, db0, steps);
    GoodReloads(lib, Run(lib, db0, steps));
  }

  lemma {:induction false} RunUnique(lib: Lib, db: Db, steps: seq<Step>)
    ensures Run(lib, db, steps).unique == db.unique
    decreases |steps|
  {
    hide Apply;
    if steps != [] {
      ApplyUnique(lib, db, steps[0]);
      RunUnique(lib, Apply(lib, db, steps[0]), steps[1..]);
    }
  }

  lemma ApplyUnique(lib: Lib, db: Db, s: Step)
    ensures Apply(lib, db, s).unique == db.unique
  {
  }

  // ---- which databases reload after every run ------------------------------------------------

  /** In a loaded database a row is reached under a number exactly when its column denotes it and is findable. */
  lemma FindIsRow(rows: seq<Row>, n: int, i: nat)
    requires SerialsDistinct(rows) && i < |rows| && forall k :: 0 <= k < |rows| ==> SerialOk(rows[k].serial)
    ensures Find(rows, SerialText(n)) == i <==> Hex2Bn(rows[i].serial) == Some(n) && Findable(rows[i].serial)
  {
    hide SerialText, Key, Hex2Bn, Findable, SerialOk;
    LookupIsNumber(rows[i].serial, n);
  }

  /** A row that some revocation spoils: no type, a name, and a serial column that can be found. */
  predicate Exposed(r: Row) {
    r.kind == "" && r.name != "" && Findable(r.serial)
  }

  lemma SerialTextLong(n: int)
    ensures SerialText(n) != ""
  {
    SerialTextOk(n);
  }

  /** No step changes a row with an empty type that is not exposed. */
  lemma StepKeeps(lib: Lib, db: Db, s: Step, i: nat)
    requires i < |db.rows| && db.rows[i].kind == "" && SerialOk(db.rows[i].serial) && !Exposed(db.rows[i])
    ensures i < |Apply(lib, db, s).rows| && Apply(lib, db, s).rows[i] == db.rows[i]
  {
    hide SerialText, Key, Findable, SerialOk, Hex2Bn;
    if s.DoRevoke? {
      LookupIsNumber(db.rows[i].serial, s.cert.serial);
      SerialTextLong(s.cert.serial);
    }
  }

  lemma {:induction false} RunKeeps(lib: Lib, db: Db, steps: seq<Step>, i: nat)
    requires i < |db.rows| && db.rows[i].kind == "" && SerialOk(db.rows[i].serial) && !Exposed(db.rows[i])
    ensures i < |Run(lib, db, steps).rows| && Run(lib, db, steps).rows[i] == db.rows[i]
    decreases |steps|
  {
    hide Apply, SerialOk, Exposed;
    if steps != [] {
      StepKeeps(lib, db, steps[0], i);
      RunKeeps(lib, Apply(lib, db, steps[0]), steps[1..], i);
    }
  }

  /** The certificate an exposed row is taken for. */
  function CertOf(r: Row): Cert
    requires Hex2Bn(r.serial).Some?
  {
    Cert(Hex2Bn(r.serial).value, r.name, r.exp)
  }

  lemma SerialIsNumber(s: string)
    requires SerialOk(s)
    ensures Hex2Bn(s).Some?
  {
  }

  /** Revoking the certificate of an exposed row goes through, and the database does not load again. */
  lemma ExposedSpoiled(lib: Lib, db: Db, i: nat, now: string)
    requires lib.Ok() && Good(db) && RowsLoad(lib, db.rows) && lib.isUtc(now)
    requires i < |db.rows| && Exposed(db.rows[i])
    ensures Hex2Bn(db.rows[i].serial).Some?
    ensures var s := DoRevoke(CertOf(db.rows[i]), Plain, "", now);
            StepOk(lib, s) && !RowsLoad(lib, Apply(lib, db, s).rows)
  {
    var r := db.rows[i];
    assert RowLoads(lib, r) && RowFileSafe(r);
    assert '\n' !in r.Columns()[5];
    SerialIsNumber(r.serial);
    var c := CertOf(r);
    hide SerialText, Key, Findable, SerialOk, Hex2Bn, Unpack, FieldSafe, RevText;
    FindIsRow(db.rows, c.serial, i);
    RevokeLoadsIff(lib, db, c, Plain, "", now);
  }

  /**
   A loaded database can be saved and loaded again after every run if and only if it holds no
   exposed row; in particular if no type column is empty.
   */
  lemma EveryRunReloadsIff(lib: Lib, text: string, unique: bool, now: string)
    requires lib.Ok() && lib.isUtc(now) && Load(lib, text, unique).Some?
    ensures var db := Load(lib, text, unique).value;
            (forall steps: seq<Step> :: (forall k :: 0 <= k < |steps| ==> StepOk(lib, steps[k])) ==>
                                          Load(lib, Save(Run(lib, db, steps)), unique).Some?)
            <==> (forall i :: 0 <= i < |db.rows| ==> !Exposed(db.rows[i]))
  {
    hide Load, Save, Exposed, StepOk, Apply, SerialOk;
    var db := Load(lib, text, unique).value;
    LoadedGood(lib, text, unique);
    if forall i :: 0 <= i < |db.rows| ==> !Exposed(db.rows[i]) {
      forall steps: seq<Step> | forall k :: 0 <= k < |steps| ==> StepOk(lib, steps[k])
        ensures Load(lib, Save(Run(lib, db, steps)), unique).Some?
      {
        UnexposedReloads(lib, text, unique, steps);
      }
    } else {
      var i :| 0 <= i < |db.rows| && Exposed(db.rows[i]);
      ExposedSpoiled(lib, db, i, now);
      var s := DoRevoke(CertOf(db.rows[i]), Plain, "", now);
      OneStep(lib, db, s);
      NotReloaded(lib, text, unique, [s]);
    }
  }

  lemma OneStep(lib: Lib, db: Db, s: Step)
    ensures Run(lib, db, [s]) == Apply(lib, db, s)
  {
    hide Apply;
    assert [s][1..] == [];
  }

  lemma UnexposedReloads(lib: Lib, text: string, unique: bool, steps: seq<Step>)
    requires lib.Ok() && Load(lib, text, unique).Some?
    requires forall k :: 0 <= k < |steps| ==> StepOk(lib, steps[k])
    requires var db := Load(lib, text, unique).value; forall i :: 0 <= i < |db.rows| ==> !Exposed(db.rows[i])
    ensures Load(lib, Save(Run(lib, Load(lib, text, unique).value, steps)), unique).Some?
  {
    hide Load, Save, Run, Exposed, StepOk, SerialOk, Unpack;
    var db := Load(lib, text, unique).value;
    LoadedGood(lib, text, unique);
    RunHistory(lib, db, steps);
    forall i | 0 <= i < |db.rows| && db.rows[i].kind == ""
      ensures Run(lib, db, steps).rows[i] == db.rows[i]
    {
      assert RowLoads(lib, db.rows[i]);
      RunKeeps(lib, db, steps, i);
    }
    RunReloadsIff(lib, text, unique, steps);
  }

  lemma NotReloaded(lib: Lib, text: string, unique: bool, steps: seq<Step>)
    requires lib.Ok() && Load(lib, text, unique).Some?
    requires forall k :: 0 <= k < |steps| ==> StepOk(lib, steps[k])
    requires !RowsLoad(lib, Run(lib, Load(lib, text, unique).value, steps).rows)
    ensures Load(lib, Save(Run(lib, Load(lib, text, unique).value, steps)), unique).None?
  {
    hide Load, Save, Run, StepOk, RowsLoad, Good, ValidRows;
    var db := Load(lib, text, unique).value;
    LoadedGood(lib, text, unique);
    RunGood(lib, db, steps);
    RunUnique(lib, db, steps);
    GoodReloads(lib, Run(lib, db, steps));
  }

  // ---- when a revocation spoils the database -------------------------------------------

  /**
   After a successful revocation the database passes the load check exactly
   when the row that was found has a type column, or, for a certificate that was
   entered first, when its expiry is a time.
   */
  lemma RevokeLoadsIff(lib: Lib, db: Db, c: Cert, kind: RevType, arg: string, now: string)
    requires lib.Ok() && lib.isUtc(now) && RowsLoad(lib, db.rows)
    requires Revoke(lib, db, c, kind, arg, now).0
    ensures var i := Find(db.rows, SerialText(c.serial));
            RowsLoad(lib, Revoke(lib, db, c, kind, arg, now).1.rows)
            <==> if i < |db.rows| then db.rows[i].kind != "" else lib.isTime(c.notAfter)
  {
    hide SerialText, Key, Unpack;
    var i := Find(db.rows, SerialText(c.serial));
    SerialTextOk(c.serial);
    if i < |db.rows| {
      assert RowLoads(lib, db.rows[i]);
      RevokeAtLoads(lib, db, i, c, kind, arg, now);
    } else {
      var d := Insert(db, FreshRow(c)).value;
      assert d.rows[i] == FreshRow(c);
      assert forall k :: 0 <= k < |db.rows| ==> d.rows[k] == db.rows[k];
      if kind != MarkValid {
        RevokeAtLoads(lib, d, i, c, kind, arg, now);
      } else {
        assert RowLoads(lib, d.rows[i]) <==> lib.isTime(c.notAfter);
      }
    }
  }

  lemma RevokeAtLoads(lib: Lib, db: Db, i: nat, c: Cert, kind: RevType, arg: string, now: string)
    requires lib.Ok() && lib.isUtc(now) && i < |db.rows|
    requires forall k :: 0 <= k < |db.rows| && k != i ==> RowLoads(lib, db.rows[k])
    requires SerialOk(db.rows[i].serial)
    requires RevokeAt(lib, db, i, c, kind, arg, now).0
    ensures RowsLoad(lib, RevokeAt(lib, db, i, c, kind, arg, now).1.rows)
            <==> db.rows[i].kind != "" && lib.isTime(db.rows[i].exp)
  {
    hide SerialText, Unpack;
    var r := db.rows[i];
    var d := RevokeAt(lib, db, i, c, kind, arg, now).1;
    UnpackOfRevText(lib, kind, arg, now);
    assert d.rows[i] == Stamp(r, RevText(lib, kind, arg, now));
    assert RowLoads(lib, d.rows[i]) <==> r.kind != "" && lib.isTime(r.exp);
    assert forall k :: 0 <= k < |db.rows| && k != i ==> d.rows[k] == db.rows[k];
  }

  /** A database that loads and a revocation after which it does not: the type column is empty. */
  lemma EmptyTypeSpoils()
    ensures exists lib: Lib, db: Db, c: Cert ::
              && lib.Ok() && Indexed(db) && RowsLoad(lib, db.rows) && CertOk(lib, c)
              && lib.isUtc("T") && Revoke(lib, db, c, Plain, "", "T").0
              && !RowsLoad(lib, Revoke(lib, db, c, Plain, "", "T").1.rows)
  {
    var lib := Lib(s => s == "T", s => s == "T", s => false, s => None);
    var c := Cert(0, "/CN=x", "T");
    var r := Row("", "T", "", "00", "unknown", "/CN=x");
    var db := Db([r], {}, false);
    assert SerialOk("00");
    assert RowsLoad(lib, db.rows);
    assert Key(db.rows[0].serial) == Key(SerialText(0));
    assert Find(db.rows, SerialText(0)) == 0;
    RevokeLoadsIff(lib, db, c, Plain, "", "T");
    assert lib.Ok() && Indexed(db);
  }
}
