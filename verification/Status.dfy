/**
 The readers of the certificate database: CRL generation and status queries
 (apps/ca.c) and the OCSP responder (apps/ocsp.c), and that they agree.
 */
module Status {
  import opened CText
  import opened Serial
  import opened RevInfo
  import opened CaDb
  import CaRuns

  // ---- the CRL -----------------------------------------------------------------------

  datatype CrlEntry = CrlEntry(serial: int, info: Info)

  predicate Listed(lib: Lib, r: Row) {
    r.Is('R') && Unpack(lib, r.rev).Some? && Hex2Bn(r.serial).Some?
  }

  function EntryOf(lib: Lib, r: Row): CrlEntry
    requires Listed(lib, r)
  {
    CrlEntry(Hex2Bn(r.serial).value, Unpack(lib, r.rev).value)
  }

  /** The revoked rows as CRL entries, in row order. */
  function Crl(lib: Lib, rows: seq<Row>): (es: seq<CrlEntry>)
    ensures forall e :: e in es <==> exists i :: 0 <= i < |rows| && Listed(lib, rows[i]) && EntryOf(lib, rows[i]) == e
  {
    if rows == [] then []
    else
      var n := |rows| - 1;
      var es := Crl(lib, rows[..n]) + if Listed(lib, rows[n]) then [EntryOf(lib, rows[n])] else [];
      assert forall i :: 0 <= i < n ==> rows[..n][i] == rows[i];
      es
  }

  /**
   The CRL by positions: entry k is that of a revoked row, the rows are met in order, each
   once, and none is missed.
   */
  lemma {:induction false} CrlInOrder(lib: Lib, rows: seq<Row>) returns (at: seq<nat>)
    ensures |at| == |Crl(lib, rows)|
    ensures forall k :: 0 <= k < |at| ==>
              && at[k] < |rows| && rows[at[k]].Is('R')
              && Hex2Bn(rows[at[k]].serial) == Some(Crl(lib, rows)[k].serial)
              && Unpack(lib, rows[at[k]].rev) == Some(Crl(lib, rows)[k].info)
    ensures forall j, k :: 0 <= j < k < |at| ==> at[j] < at[k]
    ensures forall i :: 0 <= i < |rows| && rows[i].Is('R') && Hex2Bn(rows[i].serial).Some? && Unpack(lib, rows[i].rev).Some?
              ==> i in at
    decreases |rows|
  {
    hide Hex2Bn, Unpack;
    if rows == [] {
      at := [];
    } else {
      var n := |rows| - 1;
      at := CrlInOrder(lib, rows[..n]);
      if Listed(lib, rows[n]) { at := at + [n]; }
    }
  }

  /** The CRL loop of ca_main: fails on a revoked row that cannot be read; v2 when a reason is given. */
  method BuildCrl(lib: Lib, rows: seq<Row>) returns (r: Option<seq<CrlEntry>>, v2: bool)
    ensures r.Some? <==> forall i :: 0 <= i < |rows| && rows[i].Is('R') ==> Listed(lib, rows[i])
    ensures r.Some? ==> r.value == Crl(lib, rows)
    ensures r.Some? ==> (v2 <==> exists e :: e in r.value && e.info.reason != NO_REASON)
  {
    hide Unpack, Hex2Bn;
    var es := [];
    v2 := false;
    for i := 0 to |rows|
      invariant forall k :: 0 <= k < i && rows[k].Is('R') ==> Listed(lib, rows[k])
      invariant es == Crl(lib, rows[..i])
      invariant v2 <==> exists e :: e in es && e.info.reason != NO_REASON
    {
      assert rows[..i + 1][..i] == rows[..i];
      if rows[i].Is('R') {
        var info := Unpack(lib, rows[i].rev);
        if info.None? { return None, v2; }
        var serial := Hex2Bn(rows[i].serial);
        if serial.None? { return None, v2; }
        if info.value.reason != NO_REASON { v2 := true; }
        es := es + [CrlEntry(serial.value, info.value)];
      }
    }
    assert rows[..|rows|] == rows;
    r := Some(es);
  }

  // ---- the responder -----------------------------------------------------------------

  /** The three certificate statuses of RFC 6960, section 2.2. */
  datatype CertStatus = Good | Revoked(info: Info) | Unknown

  /** A certificate id: its issuer, whether its digest is known here, and its serial. */
  datatype CertId = CertId(issuer: nat, knownDigest: bool, serial: int)

  /** A single response; `serial` is None when the id was rebuilt from the issuer alone. */
  datatype Single = Single(issuer: nat, serial: Option<int>, status: CertStatus)

  datatype Response = Malformed | InternalError | Basic(answers: seq<Single>)

  /** What a lookup leads to: no status at all, no response at all, or a status. */
  datatype Lookup = Silent | Failed | Says(status: CertStatus)

  /**
   What unpack_revinfo leaves behind for a caller that ignores its result: of a column it
   refuses, the time if that is one, and no reason.
   */
  function LeftBehind(lib: Lib, s: string): Option<Info> {
    var time := s[..IndexOf(s, ',', 0)];
    if Unpack(lib, s).Some? then Unpack(lib, s)
    else if lib.isUtc(time) then Some(Info(time, NO_REASON, None, None))
    else None
  }

  /** lookup_serial and the status chain. */
  function StatusOf(lib: Lib, rows: seq<Row>, serial: int): Lookup {
    var i := Find(rows, SerialText(serial));
    if i == |rows| then Says(Unknown)
    else if rows[i].Is('V') then Says(Good)
    else if rows[i].Is('R') then
      match LeftBehind(lib, rows[i].rev)
      case None => Failed
      case Some(info) => Says(Revoked(info))
    else Silent
  }

  /** An id that makes the whole response an internal error. */
  predicate Breaks(lib: Lib, rows: seq<Row>, cas: seq<nat>, id: CertId) {
    !id.knownDigest || (id.issuer in cas && StatusOf(lib, rows, id.serial).Failed?)
  }

  function AnswerTo(lib: Lib, rows: seq<Row>, cas: seq<nat>, ownDigest: bool, id: CertId): Option<Single> {
    if id.issuer !in cas then Some(Single(id.issuer, Some(id.serial), Unknown))
    else
      match StatusOf(lib, rows, id.serial)
      case Says(st) => Some(Single(id.issuer, if ownDigest then None else Some(id.serial), st))
      case _ => None
  }

  function AnswersTo(lib: Lib, rows: seq<Row>, cas: seq<nat>, ownDigest: bool, ids: seq<CertId>): seq<Single> {
    if ids == [] then []
    else
      var n := |ids| - 1;
      var a := AnswerTo(lib, rows, cas, ownDigest, ids[n]);
      AnswersTo(lib, rows, cas, ownDigest, ids[..n]) + if a.Some? then [a.value] else []
  }

  /** One turn of the loop over the ids: whether the response survives it, and the status added, if any. */
  method AnswerOne(lib: Lib, rows: seq<Row>, cas: seq<nat>, ownDigest: bool, id: CertId)
    returns (ok: bool, a: Option<Single>)
    ensures ok <==> !Breaks(lib, rows, cas, id)
    ensures ok ==> a == AnswerTo(lib, rows, cas, ownDigest, id)
  {
    hide SerialText, Unpack, Key;
    if !id.knownDigest { return false, None; }
    var found := FindCa(cas, id.issuer);
    var k := Find(rows, SerialText(id.serial));
    var serial := if found && ownDigest then None else Some(id.serial);
    ok := true;
    if !found {
      a := Some(Single(id.issuer, serial, Unknown));
    } else if k == |rows| {
      a := Some(Single(id.issuer, serial, Unknown));
    } else if rows[k].Is('V') {
      a := Some(Single(id.issuer, serial, Good));
    } else if rows[k].Is('R') {
      var info := LeftBehind(lib, rows[k].rev);
      if info.None? { return false, None; }
      a := Some(Single(id.issuer, serial, Revoked(info.value)));
    } else {
      a := None;
    }
  }

  /** make_ocsp_response on any rows that could be indexed. `ownDigest` is the -rcid setting. */
  method MakeResponse(lib: Lib, rows: seq<Row>, cas: seq<nat>, ownDigest: bool, ids: seq<CertId>)
    returns (r: Response)
    ensures r == if ids == [] then Malformed
                 else if exists i :: 0 <= i < |ids| && Breaks(lib, rows, cas, ids[i]) then InternalError
                 else Basic(AnswersTo(lib, rows, cas, ownDigest, ids))
  {
    hide AnswerTo, Breaks;
    if |ids| == 0 { return Malformed; }
    var bs := [];
    for i := 0 to |ids|
      invariant forall k :: 0 <= k < i ==> !Breaks(lib, rows, cas, ids[k])
      invariant bs == AnswersTo(lib, rows, cas, ownDigest, ids[..i])
    {
      assert ids[..i + 1][..i] == ids[..i];
      var ok, a := AnswerOne(lib, rows, cas, ownDigest, ids[i]);
      if !ok { return InternalError; }
      if a.Some? { bs := bs + [a.value]; }
    }
    assert ids[..|ids|] == ids;
    r := Basic(bs);
  }

  /** The search for the issuer among the responder's CA certificates. */
  method FindCa(cas: seq<nat>, issuer: nat) returns (found: bool)
    ensures found == (issuer in cas)
  {
    found := false;
    var jj := 0;
    while jj < |cas| && !found
      invariant 0 <= jj <= |cas|
      invariant found == (issuer in cas[..jj])
    {
      found := cas[jj] == issuer;
      jj := jj + 1;
    }
    assert found || cas[..jj] == cas;
  }

  // ---- when they agree -----------------------------------------------------------------

  predicate AllFindable(rows: seq<Row>) {
    forall i :: 0 <= i < |rows| ==> Findable(rows[i].serial)
  }

  /**
   For every loaded database and every serial number: the responder says revoked, with the
   time, reason and extension of the CRL entry, good, unknown or nothing, by the row that
   has the number in a findable column.
   */
  lemma ResponderSees(lib: Lib, rows: seq<Row>, n: int)
    requires RowsLoad(lib, rows) && SerialsDistinct(rows)
    ensures forall info ::
              StatusOf(lib, rows, n) == Says(Revoked(info))
              <==> exists i :: 0 <= i < |rows| && Findable(rows[i].serial) && Listed(lib, rows[i])
                               && EntryOf(lib, rows[i]) == CrlEntry(n, info)
    ensures StatusOf(lib, rows, n) == Says(Good)
            <==> exists i :: 0 <= i < |rows| && Findable(rows[i].serial) && Hex2Bn(rows[i].serial) == Some(n) && rows[i].Is('V')
    ensures StatusOf(lib, rows, n) == Says(Unknown)
            <==> forall i :: 0 <= i < |rows| && Hex2Bn(rows[i].serial) == Some(n) ==> !Findable(rows[i].serial)
    ensures StatusOf(lib, rows, n) == Silent
            <==> exists i :: 0 <= i < |rows| && Findable(rows[i].serial) && Hex2Bn(rows[i].serial) == Some(n)
                             && !rows[i].Is('V') && !rows[i].Is('R')
    ensures StatusOf(lib, rows, n) != Failed
  {
    hide SerialText, Key, Hex2Bn, Findable, Unpack, SerialOk;
    var j := Find(rows, SerialText(n));
    assert forall k :: 0 <= k < |rows| ==> RowLoads(lib, rows[k]);
    forall i | 0 <= i < |rows|
      ensures j == i <==> Hex2Bn(rows[i].serial) == Some(n) && Findable(rows[i].serial)
    {
      CaRuns.FindIsRow(rows, n, i);
    }
  }

  // ---- what is answered ---------------------------------------------------------------------

  /** A row that a lookup of n reaches. */
  predicate Reached(r: Row, n: int) {
    Findable(r.serial) && Hex2Bn(r.serial) == Some(n)
  }

  /**
   The answer to one id, on a loaded database. Of an unknown issuer: unknown, with the id's own
   serial. Of a known one: good for a valid row with the number, revoked with the entry of the
   CRL for a revoked one, unknown if there is no row, and none for a row of another type.
   */
  lemma AnswerMeans(lib: Lib, rows: seq<Row>, cas: seq<nat>, ownDigest: bool, id: CertId)
    requires RowsLoad(lib, rows) && SerialsDistinct(rows)
    ensures var a := AnswerTo(lib, rows, cas, ownDigest, id);
            && (a.Some? ==> a.value.issuer == id.issuer)
            && (a.Some? ==> a.value.serial == if id.issuer in cas && ownDigest then None else Some(id.serial))
            && (id.issuer !in cas ==> a.Some? && a.value.status == Unknown)
            && (id.issuer in cas ==>
                  && (a.Some? && a.value.status == Good
                      <==> exists i :: 0 <= i < |rows| && Reached(rows[i], id.serial) && rows[i].Is('V'))
                  && (forall info ::
                        a.Some? && a.value.status == Revoked(info)
                        <==> exists i :: 0 <= i < |rows| && Reached(rows[i], id.serial) && rows[i].Is('R')
                                         && Unpack(lib, rows[i].rev) == Some(info))
                  && (a.Some? && a.value.status == Unknown <==> forall i :: 0 <= i < |rows| ==> !Reached(rows[i], id.serial))
                  && (a.None? <==> exists i :: 0 <= i < |rows| && Reached(rows[i], id.serial)
                                               && !rows[i].Is('V') && !rows[i].Is('R')))
  {
    hide SerialText, Key, Hex2Bn, Findable, Unpack, SerialOk;
    ReachedRow(lib, rows, id.serial);
  }

  /** At most one row is reached, and it decides the status. */
  lemma ReachedRow(lib: Lib, rows: seq<Row>, n: int)
    requires RowsLoad(lib, rows) && SerialsDistinct(rows)
    ensures var j := Find(rows, SerialText(n));
            && (forall i :: 0 <= i < |rows| ==> (Reached(rows[i], n) <==> i == j))
            && (j < |rows| && rows[j].Is('R') ==> Unpack(lib, rows[j].rev).Some?)
  {
    hide SerialText, Key, Hex2Bn, Findable, Unpack, SerialOk;
    assert forall k :: 0 <= k < |rows| ==> RowLoads(lib, rows[k]);
    forall i | 0 <= i < |rows|
      ensures Reached(rows[i], n) <==> i == Find(rows, SerialText(n))
    {
      CaRuns.FindIsRow(rows, n, i);
    }
  }

  /** What is made of a revocation column that starts with `time`: all of it, or the time alone, or nothing. */
  lemma LeftBehindMeans(lib: Lib, time: string, rest: string)
    requires ',' !in time
    ensures forall s :: s == time || s == time + "," + rest ==>
              LeftBehind(lib, s)
              == if Unpack(lib, s).Some? then Unpack(lib, s)
                 else if lib.isUtc(time) then Some(Info(time, -1, None, None)) else None
  {
    hide Unpack;
    assert IndexOf(time, ',', 0) == |time| && time[..|time|] == time;
    IndexOfMiddle(time, rest, 0);
    assert (time + "," + rest)[..|time|] == time;
  }

  /**
   An id makes the response an internal error exactly when its digest is not known, or its issuer
   is and the row its serial leads to is revoked with a column that neither unpacks nor starts
   with a time.
   */
  lemma BreaksMeans(lib: Lib, rows: seq<Row>, cas: seq<nat>, id: CertId)
    requires SerialsDistinct(rows)
    ensures Breaks(lib, rows, cas, id)
       <==> (|| !id.knownDigest
             || (id.issuer in cas && exists i :: 0 <= i < |rows| && Key(rows[i].serial) == Key(SerialText(id.serial))
                                                 && rows[i].Is('R') && Unreadable(lib, rows[i].rev)))
  {
    hide Unpack, Key, SerialText;
    var j := Find(rows, SerialText(id.serial));
    if j < |rows| { ReadableIff(lib, rows[j].rev); }
  }

  predicate Unreadable(lib: Lib, s: string) {
    Unpack(lib, s).None? && forall k :: 0 <= k <= |s| && ',' !in s[..k] && (k == |s| || s[k] == ',') ==> !lib.isUtc(s[..k])
  }

  lemma ReadableIff(lib: Lib, s: string)
    ensures LeftBehind(lib, s).None? <==> Unreadable(lib, s)
  {
    hide Unpack;
    var c := IndexOf(s, ',', 0);
    assert ',' !in s[..c];
    forall k | 0 <= k <= |s| && ',' !in s[..k] && (k == |s| || s[k] == ',')
      ensures k == c
    {
      assert forall i :: 0 <= i < k ==> s[..k][i] == s[i];
    }
  }

  /**
   The answers of a response by positions: answer k is the answer to one of the ids, these are
   met in request order, each once, and every id that gets an answer has it there.
   */
  lemma {:induction false} AnswersInOrder(lib: Lib, rows: seq<Row>, cas: seq<nat>, ownDigest: bool, ids: seq<CertId>)
    returns (at: seq<nat>)
    ensures var answers := AnswersTo(lib, rows, cas, ownDigest, ids);
            && |at| == |answers|
            && forall k :: 0 <= k < |at| ==>
                 at[k] < |ids| && AnswerTo(lib, rows, cas, ownDigest, ids[at[k]]) == Some(answers[k])
    ensures forall j, k :: 0 <= j < k < |at| ==> at[j] < at[k]
    ensures forall i :: 0 <= i < |ids| ==> (i in at <==> AnswerTo(lib, rows, cas, ownDigest, ids[i]).Some?)
    decreases |ids|
  {
    hide AnswerTo;
    if ids == [] {
      at := [];
    } else {
      var n := |ids| - 1;
      at := AnswersInOrder(lib, rows, cas, ownDigest, ids[..n]);
      if AnswerTo(lib, rows, cas, ownDigest, ids[n]).Some? { at := at + [n]; }
    }
  }

  /** Good only for a known issuer and a valid row with the number, revoked only with an entry of the CRL for it. */
  ghost predicate AnswerSound(lib: Lib, rows: seq<Row>, cas: seq<nat>, id: CertId, a: Single) {
    && a.issuer == id.issuer
    && (a.status == Good ==>
          id.issuer in cas && exists i :: 0 <= i < |rows| && Reached(rows[i], id.serial) && rows[i].Is('V'))
    && (a.status.Revoked? ==> id.issuer in cas && CrlEntry(id.serial, a.status.info) in Crl(lib, rows))
  }

  /**
   A whole response on a loaded database: every answer is well founded, in request order, and
   every id of an unknown issuer is answered unknown under its own serial.
   */
  lemma ResponseMeans(lib: Lib, rows: seq<Row>, cas: seq<nat>, ownDigest: bool, ids: seq<CertId>) returns (at: seq<nat>)
    requires RowsLoad(lib, rows) && SerialsDistinct(rows)
    ensures var answers := AnswersTo(lib, rows, cas, ownDigest, ids);
            && |at| == |answers|
            && (forall j, k :: 0 <= j < k < |at| ==> at[j] < at[k] < |ids|)
            && (forall k :: 0 <= k < |at| ==> at[k] < |ids| && AnswerSound(lib, rows, cas, ids[at[k]], answers[k]))
            && (forall i :: 0 <= i < |ids| && ids[i].issuer !in cas ==>
                  exists k :: 0 <= k < |at| && at[k] == i && answers[k] == Single(ids[i].issuer, Some(ids[i].serial), Unknown))
  {
    hide AnswerTo, AnswersTo, RowsLoad, SerialsDistinct, Reached, Crl, Unpack, Hex2Bn, AnswerSound;
    at := AnswersInOrder(lib, rows, cas, ownDigest, ids);
    var answers := AnswersTo(lib, rows, cas, ownDigest, ids);
    forall k | 0 <= k < |at|
      ensures AnswerSound(lib, rows, cas, ids[at[k]], answers[k])
    {
      OneSound(lib, rows, cas, ownDigest, ids[at[k]], answers[k]);
    }
    forall i | 0 <= i < |ids| && ids[i].issuer !in cas
      ensures exists k :: 0 <= k < |at| && at[k] == i && answers[k] == Single(ids[i].issuer, Some(ids[i].serial), Unknown)
    {
      AnswerMeans(lib, rows, cas, ownDigest, ids[i]);
      var k :| 0 <= k < |at| && at[k] == i;
    }
  }

  lemma OneSound(lib: Lib, rows: seq<Row>, cas: seq<nat>, ownDigest: bool, id: CertId, a: Single)
    requires RowsLoad(lib, rows) && SerialsDistinct(rows) && AnswerTo(lib, rows, cas, ownDigest, id) == Some(a)
    ensures AnswerSound(lib, rows, cas, id, a)
  {
    hide AnswerTo, RowsLoad, SerialsDistinct, Unpack, Hex2Bn, Findable;
    AnswerMeans(lib, rows, cas, ownDigest, id);
    if a.status.Revoked? && id.issuer in cas {
      var i :| 0 <= i < |rows| && Reached(rows[i], id.serial) && rows[i].Is('R')
               && Unpack(lib, rows[i].rev) == Some(a.status.info);
      assert Listed(lib, rows[i]) && EntryOf(lib, rows[i]) == CrlEntry(id.serial, a.status.info);
    }
  }

  /** The responder calls a number revoked exactly when the CRL lists it, with the same details. */
  ghost predicate Agree(lib: Lib, rows: seq<Row>) {
    forall n: int, info: Info :: StatusOf(lib, rows, n) == Says(Revoked(info)) <==> CrlEntry(n, info) in Crl(lib, rows)
  }

  /** The row is revoked, and some findable row is revoked under the same number with the same details. */
  predicate Covered(lib: Lib, rows: seq<Row>, i: nat)
    requires i < |rows| && Listed(lib, rows[i])
  {
    exists j :: 0 <= j < |rows| && Findable(rows[j].serial) && Listed(lib, rows[j])
                && EntryOf(lib, rows[j]) == EntryOf(lib, rows[i])
  }

  /**
   CRL and responder agree on a loaded database if and only if every revoked row is findable or
   has a like row that is.
   */
  lemma ReadersAgreeIff(lib: Lib, rows: seq<Row>)
    requires RowsLoad(lib, rows) && SerialsDistinct(rows)
    ensures Agree(lib, rows) <==> forall i :: 0 <= i < |rows| && Listed(lib, rows[i]) ==> Covered(lib, rows, i)
  {
    hide StatusOf, Findable, Listed, EntryOf, RowsLoad, SerialsDistinct;
    if Agree(lib, rows) {
      forall i | 0 <= i < |rows| && Listed(lib, rows[i])
        ensures Covered(lib, rows, i)
      {
        var e := EntryOf(lib, rows[i]);
        assert CrlEntry(e.serial, e.info) in Crl(lib, rows);
        ResponderSees(lib, rows, e.serial);
      }
    }
    if forall i :: 0 <= i < |rows| && Listed(lib, rows[i]) ==> Covered(lib, rows, i) {
      forall n: int, info: Info
        ensures StatusOf(lib, rows, n) == Says(Revoked(info)) <==> CrlEntry(n, info) in Crl(lib, rows)
      {
        ResponderSees(lib, rows, n);
      }
    }
  }

  /** They agree on every database whose columns are written as the tool writes them. */
  lemma FindableAgree(lib: Lib, rows: seq<Row>)
    requires RowsLoad(lib, rows) && SerialsDistinct(rows) && AllFindable(rows)
    ensures Agree(lib, rows)
  {
    hide Agree, Findable, Listed, RowsLoad, SerialsDistinct, EntryOf;
    ReadersAgreeIff(lib, rows);
  }

  /** A library to which "T" is the only time, and a database with one revoked row in lower case. */
  function PlainLib(): Lib {
    Lib(s => s == "T", s => s == "T", s => false, s => None)
  }

  function LowerDb(): Db {
    Db([Row("R", "T", "T", "0a", "unknown", "/CN=x")], {}, false)
  }

  lemma LowerLoads()
    ensures PlainLib().Ok() && CaDb.Good(LowerDb()) && RowsLoad(PlainLib(), LowerDb().rows)
    ensures var r := LowerDb().rows[0];
            Listed(PlainLib(), r) && EntryOf(PlainLib(), r) == CrlEntry(10, Info("T", NO_REASON, None, None))
  {
    TenInLower();
    assert IndexOf("T", ',', 0) == 1;
    hide Hex2Bn, SerialOk;
    CaRuns.ColumnsSafe(LowerDb().rows[0]);
  }

  /**
   A file that loads, with a revoked certificate in lower case: the CRL lists number 10, and
   the responder calls it unknown.
   */
  lemma LowerCaseDisagrees()
    ensures var lib, text := PlainLib(), Save(LowerDb());
            && lib.Ok() && Load(lib, text, false) == Some(LowerDb())
            && CrlEntry(10, Info("T", NO_REASON, None, None)) in Crl(lib, LowerDb().rows)
            && StatusOf(lib, LowerDb().rows, 10) == Says(Unknown)
  {
    hide Load, Save, StatusOf, RowsLoad, Findable, PlainLib, Hex2Bn, Unpack, Listed, EntryOf, CaDb.Good;
    LowerLoads();
    TenInLower();
    CaRuns.GoodReloads(PlainLib(), LowerDb());
    ResponderSees(PlainLib(), LowerDb().rows, 10);
  }

  lemma TenInLower()
    ensures Hex2Bn("0a") == Some(10) && SerialOk("0a") && !Findable("0a")
  {
    assert "0a"[..1] == "0" && "0"[..0] == "";
    assert HexValue("0") == 0;
    assert !IsUpperHex("0a"[1]);
  }

  // ---- a revocation and its readers -------------------------------------------------------------

  /** The row a successful revocation leaves, by its number: revoked, with the column written. */
  lemma RevokedRow(lib: Lib, db: Db, c: Cert, kind: RevType, arg: string, now: string) returns (i: nat)
    requires RowsLoad(lib, db.rows) && kind != MarkValid && Revoke(lib, db, c, kind, arg, now).0
    ensures ArgOk(lib, kind, arg)
    ensures var rows := Revoke(lib, db, c, kind, arg, now).1.rows;
            && i < |rows| && rows[i].Is('R') && rows[i].rev == RevText(lib, kind, arg, now)
            && Hex2Bn(rows[i].serial) == Some(c.serial) && Key(rows[i].serial) == Key(SerialText(c.serial))
  {
    hide SerialText, Key, Hex2Bn, RevText, SerialOk, Unpack;
    i := Find(db.rows, SerialText(c.serial));
    if i < |db.rows| {
      assert RowLoads(lib, db.rows[i]);
      LookupIsNumber(db.rows[i].serial, c.serial);
    } else {
      SerialRoundTrip(c.serial);
    }
  }

  /**
   A successful revocation shows at once: the CRL lists the certificate's number, and the
   responder answers revoked, both with the time, reason and extension that were meant.
   */
  lemma RevocationShows(lib: Lib, db: Db, c: Cert, kind: RevType, arg: string, now: string)
    requires lib.Ok() && lib.isUtc(now) && Indexed(db) && RowsLoad(lib, db.rows)
    requires kind != MarkValid && Revoke(lib, db, c, kind, arg, now).0
    ensures ArgOk(lib, kind, arg)
    ensures var rows, info := Revoke(lib, db, c, kind, arg, now).1.rows, Meaning(lib, kind, arg, now);
            CrlEntry(c.serial, info) in Crl(lib, rows) && StatusOf(lib, rows, c.serial) == Says(Revoked(info))
  {
    hide Revoke, Hex2Bn, Key, SerialText, RowsLoad, Unpack, RevText, Meaning;
    var i := RevokedRow(lib, db, c, kind, arg, now);
    var d := Revoke(lib, db, c, kind, arg, now).1;
    UnpackOfRevText(lib, kind, arg, now);
    assert Listed(lib, d.rows[i]) && EntryOf(lib, d.rows[i]) == CrlEntry(c.serial, Meaning(lib, kind, arg, now));
    StaysDistinct(lib, db, c, kind, arg, now);
    assert Find(d.rows, SerialText(c.serial)) == i;
  }

  lemma StaysDistinct(lib: Lib, db: Db, c: Cert, kind: RevType, arg: string, now: string)
    requires Indexed(db)
    ensures SerialsDistinct(Revoke(lib, db, c, kind, arg, now).1.rows)
  {
    hide Revoke, SerialsDistinct;
    CaRuns.ApplyIndexed(lib, db, DoRevoke(c, kind, arg, now));
  }

  /** A reason given by name, in any letter case, shows under its number. */
  lemma ReasonShows(lib: Lib, db: Db, c: Cert, arg: string, name: string, code: int, now: string)
    requires lib.Ok() && lib.isUtc(now) && Indexed(db) && RowsLoad(lib, db.rows)
    requires CrlReason(name, code) && EqNoCase(arg, name) && Revoke(lib, db, c, Reason, arg, now).0
    ensures var rows, info := Revoke(lib, db, c, Reason, arg, now).1.rows, Info(now, code, None, None);
            CrlEntry(c.serial, info) in Crl(lib, rows) && StatusOf(lib, rows, c.serial) == Says(Revoked(info))
  {
    hide Revoke, Crl, StatusOf, RowsLoad, Indexed, Meaning, CrlReason, EqNoCase;
    ReasonWritten(lib, arg, name, code, now);
    RevocationShows(lib, db, c, Reason, arg, now);
  }

  // ---- through runs ------------------------------------------------------------------------

  /** Every run leaves the columns there are as they are, and makes the new ones findable. */
  lemma {:induction false} RunFindable(lib: Lib, db: Db, steps: seq<Step>)
    ensures var rows := Run(lib, db, steps).rows;
            && |db.rows| <= |rows|
            && forall i :: 0 <= i < |rows| ==>
                 (Findable(rows[i].serial) <==> (i < |db.rows| ==> Findable(db.rows[i].serial)))
    decreases |steps|
  {
    hide Apply, Findable;
    if steps != [] {
      ApplyFindable(lib, db, steps[0]);
      RunFindable(lib, Apply(lib, db, steps[0]), steps[1..]);
    }
  }

  lemma ApplyFindable(lib: Lib, db: Db, s: Step)
    ensures var rows := Apply(lib, db, s).rows;
            && |db.rows| <= |rows|
            && forall i :: 0 <= i < |rows| ==>
                 (Findable(rows[i].serial) <==> (i < |db.rows| ==> Findable(db.rows[i].serial)))
  {
    hide Findable, SerialText, Key;
    var d := Apply(lib, db, s);
    CaRuns.ApplyGrown(lib, db, s);
    forall i | 0 <= i < |d.rows|
      ensures Findable(d.rows[i].serial) <==> (i < |db.rows| ==> Findable(db.rows[i].serial))
    {
      if i < |db.rows| {
        assert CaRuns.Evolved(db.rows[i], d.rows[i]);
      } else {
        SerialTextFindable(s.cert.serial);
      }
    }
  }

  /**
   After every run from a loaded database: it loads exactly when no empty type was changed, its
   columns are findable exactly when they were, and then the readers agree.
   */
  lemma RunsAgree(lib: Lib, text: string, unique: bool, steps: seq<Step>)
    requires lib.Ok() && Load(lib, text, unique).Some?
    requires forall k :: 0 <= k < |steps| ==> StepOk(lib, steps[k])
    ensures var db := Load(lib, text, unique).value;
            var rows := Run(lib, db, steps).rows;
            && SerialsDistinct(rows)
            && (RowsLoad(lib, rows) <==> EmptyTypesKept(db.rows, rows))
            && (AllFindable(rows) <==> AllFindable(db.rows))
            && (RowsLoad(lib, rows) && AllFindable(db.rows) ==> Agree(lib, rows))
  {
    hide Load, Run, RowsLoad, Findable, EmptyTypesKept, StepOk, Agree, SerialsDistinct;
    var db := Load(lib, text, unique).value;
    var rows := Run(lib, db, steps).rows;
    CaRuns.LoadedGood(lib, text, unique);
    CaRuns.RunHistory(lib, db, steps);
    CaRuns.RunLoadsIff(lib, db, steps);
    RunFindable(lib, db, steps);
    if RowsLoad(lib, rows) && AllFindable(rows) { FindableAgree(lib, rows); }
  }

  // ---- queries by serial -----------------------------------------------------------------

  /** get_certificate_status: whether the serial is there with a known type. */
  method CertificateStatus(rows: seq<Row>, serial: string) returns (ok: bool, kind: Option<char>)
    ensures kind.Some? <==> Find(rows, QueryText(serial)) < |rows| && rows[Find(rows, QueryText(serial))].kind != ""
    ensures kind.Some? ==> rows[Find(rows, QueryText(serial))].Is(kind.value)
    ensures ok <==> kind.Some? && kind.value in {'V', 'R', 'E', 'S'}
  {
    var text := UpperAll(if |serial| % 2 == 1 then "0" + serial else serial);
    var i := Find(rows, text);
    if i == |rows| || rows[i].kind == "" { return false, None; }
    kind := Some(rows[i].kind[0]);
    ok := rows[i].Is('V') || rows[i].Is('R') || rows[i].Is('E') || rows[i].Is('S');
  }

  /** A query in hex, in any letter case and with any zeros in front, reaches the row the responder reaches. */
  lemma QueryFindsNumber(rows: seq<Row>, s: string)
    requires AllHex(s)
    ensures Find(rows, QueryText(s)) == Find(rows, SerialText(HexValue(s)))
  {
    QueryReaches(s, HexValue(s));
  }
}
