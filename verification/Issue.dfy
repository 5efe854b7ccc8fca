/**
 A batch of certificate requests: consecutive serials, the names of the new
 files, and the order in which the serial and index files are replaced
 (apps/ca.c, apps/lib/apps.c).
 */
module Issue {
  import opened CText
  import opened Serial
  import opened RevInfo
  import opened TxtDb
  import opened CaDb
  import opened CaStore

  // ---- the batch -----------------------------------------------------------------------

  /** A request file as far as the batch is concerned. */
  datatype Request =
    | Unreadable
    | BadSignature
    | OutOfPolicy
    | Ready(name: string, notAfter: string, accept: bool, signed: bool)

  /** Rows for certificates, in order. */
  function FreshRows(certs: seq<Cert>): (rows: seq<Row>)
    ensures |rows| == |certs|
    ensures forall i :: 0 <= i < |certs| ==> rows[i] == FreshRow(certs[i])
  {
    seq(|certs|, i requires 0 <= i < |certs| => FreshRow(certs[i]))
  }

  /** One turn of the request loop: certify with the current serial. */
  function Turn(db: Db, serial: int, r: Request): (Outcome, Db) {
    match r
    case Unreadable | OutOfPolicy => (Fatal, db)
    case BadSignature => (Refused, db)
    case Ready(name, notAfter, accept, signed) => Certify(db, Cert(serial, name, notAfter), accept, signed)
  }

  datatype BatchEnd = BatchEnd(fatal: bool, certs: seq<Cert>, db: Db)

  /** The request loop: the first fatal request ends it. */
  function Batch(db: Db, serial: int, reqs: seq<Request>): BatchEnd
    decreases |reqs|
  {
    if reqs == [] then BatchEnd(false, [], db)
    else
      var (outcome, d) := Turn(db, serial, reqs[0]);
      match outcome
      case Fatal => BatchEnd(true, [], d)
      case Refused => Batch(d, serial, reqs[1..])
      case Issued =>
        var rest := Batch(d, serial + 1, reqs[1..]);
        rest.(certs := [Cert(serial, reqs[0].name, reqs[0].notAfter)] + rest.certs)
  }

  /** A request that the policy, the signatures and the operator all let through. */
  predicate Askable(r: Request) {
    r.Ready? && r.accept && r.signed
  }

  function AskableCount(reqs: seq<Request>): nat {
    if reqs == [] then 0 else (if Askable(reqs[0]) then 1 else 0) + AskableCount(reqs[1..])
  }

  lemma TurnIssues(db: Db, serial: int, r: Request)
    ensures var (outcome, d) := Turn(db, serial, r);
            && d.unique == db.unique
            && (outcome == Issued ==> r.Ready? && Askable(r) && d.rows == db.rows + [FreshRow(Cert(serial, r.name, r.notAfter))])
            && (outcome != Issued ==> d == db)
            && (outcome == Refused ==> !Askable(r))
  {
    hide FreshRow, SerialText, Find, NameTaken, NameColumn;
  }

  /**
   Certificates carry consecutive serials from the loaded one, refused requests
   use none, the rows added are exactly those of the certificates, in order, and
   a batch that ends well has issued to every request that could be issued.
   */
  lemma {:induction false} BatchSerials(db: Db, serial: int, reqs: seq<Request>)
    ensures var b := Batch(db, serial, reqs);
            && (forall k :: 0 <= k < |b.certs| ==> b.certs[k].serial == serial + k)
            && b.db.rows == db.rows + FreshRows(b.certs)
            && b.db.unique == db.unique
            && (!b.fatal ==> |b.certs| == AskableCount(reqs))
    decreases |reqs|
  {
    hide FreshRow, Turn, Askable;
    if reqs == [] {
      assert db.rows + FreshRows([]) == db.rows;
    } else {
      TurnIssues(db, serial, reqs[0]);
      var (outcome, d) := Turn(db, serial, reqs[0]);
      match outcome {
        case Fatal => assert db.rows + FreshRows([]) == db.rows;
        case Refused => BatchSerials(d, serial, reqs[1..]);
        case Issued =>
          BatchSerials(d, serial + 1, reqs[1..]);
          var c := Cert(serial, reqs[0].name, reqs[0].notAfter);
          var rest := Batch(d, serial + 1, reqs[1..]).certs;
          assert FreshRows([c] + rest) == [FreshRow(c)] + FreshRows(rest);
      }
    }
  }

  lemma BatchNone(db: Db, serial: int)
    ensures Batch(db, serial, []) == BatchEnd(false, [], db)
  {
  }

  /**
   The last request of a batch: it is not looked at after a fatal one; otherwise it is certified
   with the serial that the certificates so far have left, on the database they have left.
   */
  lemma {:induction false} BatchLast(db: Db, serial: int, reqs: seq<Request>)
    requires reqs != []
    ensures var n := |reqs| - 1;
            var b, p := Batch(db, serial, reqs), Batch(db, serial, reqs[..n]);
            if p.fatal then b == p
            else
              var (outcome, d) := Turn(p.db, serial + |p.certs|, reqs[n]);
              && b.fatal == (outcome == Fatal) && b.db == d
              && (outcome == Issued ==>
                    reqs[n].Ready? && b.certs == p.certs + [Cert(serial + |p.certs|, reqs[n].name, reqs[n].notAfter)])
              && (outcome != Issued ==> b.certs == p.certs)
    decreases |reqs|
  {
    hide Turn;
    var n := |reqs| - 1;
    TurnIssues(db, serial, reqs[0]);
    if n == 0 {
      assert reqs[..0] == [] && reqs[1..] == [];
    } else {
      var (outcome, d) := Turn(db, serial, reqs[0]);
      var next := if outcome == Issued then serial + 1 else serial;
      assert reqs[..n][0] == reqs[0] && reqs[..n][1..] == reqs[1..][..n - 1] && reqs[1..][n - 1] == reqs[n];
      if outcome != Fatal { BatchLast(d, next, reqs[1..]); }
      TurnIssues(Batch(db, serial, reqs[..n]).db, serial + |Batch(db, serial, reqs[..n]).certs|, reqs[n]);
    }
  }

  /** One request: an unreadable one or one against the policy is fatal, a bad signature is passed over. */
  method CertifyOne(db: CertDb, serial: int, r: Request) returns (outcome: Outcome)
    modifies db
    ensures (outcome, db.View()) == Turn(old(db.View()), serial, r)
    ensures r.Unreadable? || r.OutOfPolicy? ==> outcome == Fatal && db.View() == old(db.View())
    ensures r.BadSignature? ==> outcome == Refused && db.View() == old(db.View())
    ensures r.Ready? ==>
              (outcome, db.View()) == Certify(old(db.View()), Cert(serial, r.name, r.notAfter), r.accept, r.signed)
  {
    match r {
      case Unreadable | OutOfPolicy => return Fatal;
      case BadSignature => return Refused;
      case Ready(name, notAfter, accept, signed) =>
        outcome := db.CertifyCert(Cert(serial, name, notAfter), accept, signed);
    }
  }

  /** The request loop of ca_main. */
  method RunBatch(db: CertDb, start: int, reqs: seq<Request>) returns (fatal: bool, serial: int, certs: seq<Cert>)
    modifies db
    ensures BatchEnd(fatal, certs, db.View()) == Batch(old(db.View()), start, reqs)
    ensures serial == start + |certs|
  {
    hide Certify;
    serial, certs := start, [];
    ghost var whole := Batch(db.View(), start, reqs);
    assert reqs[0..] == reqs && [] + whole.certs == whole.certs;
    for i := 0 to |reqs|
      invariant serial == start + |certs|
      invariant var rest := Batch(db.View(), serial, reqs[i..]);
                whole == BatchEnd(rest.fatal, certs + rest.certs, rest.db)
    {
      assert reqs[i..][1..] == reqs[i + 1..];
      ghost var rest := Batch(db.View(), serial, reqs[i..]);
      var outcome := CertifyOne(db, serial, reqs[i]);
      if outcome == Fatal {
        assert certs + [] == certs;
        return true, serial, certs;
      }
      if outcome == Issued {
        var c := Cert(serial, reqs[i].name, reqs[i].notAfter);
        ghost var later := Batch(db.View(), serial + 1, reqs[i + 1..]);
        assert certs + ([c] + later.certs) == certs + [c] + later.certs;
        serial := serial + 1;
        certs := certs + [c];
      }
    }
    assert certs + [] == certs;
    fatal := false;
  }

  // ---- the name of a new certificate file -----------------------------------------------

  const PATH_MAX := 4096

  /** The bytes of an ASN.1 serial number, sign left aside. */
  function Magnitude(n: int): seq<byte> {
    Bytes(if n < 0 then -n else n)
  }

  function PathText(dir: string, n: int): string {
    dir + "/" + (if n == 0 then "00" else HexOf(Magnitude(n))) + ".pem"
  }

  method PutText(buf: array<char>, p: nat, s: string) returns (q: nat)
    requires p + |s| <= buf.Length
    modifies buf
    ensures q == p + |s|
    ensures buf[..q] == old(buf[..p]) + s
  {
    for k := 0 to |s|
      invariant buf[..p + k] == old(buf[..p]) + s[..k]
    {
      buf[p + k] := s[k];
    }
    q := p + |s|;
  }

  /** The digit loop over the serial bytes. */
  method PutHex(buf: array<char>, p: nat, bs: seq<byte>) returns (q: nat)
    requires p + 2 * |bs| <= buf.Length
    modifies buf
    ensures q == p + 2 * |bs|
    ensures buf[..q] == old(buf[..p]) + HexOf(bs)
  {
    q := p;
    assert bs[..0] == [] && HexOf([]) == "";
    hide HexOf;
    assert old(buf[..p]) + "" == buf[..p];
    for j := 0 to |bs|
      invariant q == p + 2 * j
      invariant buf[..q] == old(buf[..p]) + HexOf(bs[..j])
    {
      HexPrefix(bs, j);
      PutPair(buf, q, HexChar(bs[j] / 16), HexChar(bs[j] % 16));
      Assoc(old(buf[..p]), HexOf(bs[..j]), [HexChar(bs[j] / 16), HexChar(bs[j] % 16)]);
      q := q + 2;
    }
    assert bs[..|bs|] == bs;
  }

  method PutPair(buf: array<char>, p: nat, c0: char, c1: char)
    requires p + 2 <= buf.Length
    modifies buf
    ensures buf[..p + 2] == old(buf[..p]) + [c0, c1]
  {
    buf[p], buf[p + 1] := c0, c1;
  }

  lemma HexPrefix(bs: seq<byte>, j: nat)
    requires j < |bs|
    ensures HexOf(bs[..j + 1]) == HexOf(bs[..j]) + [HexChar(bs[j] / 16), HexChar(bs[j] % 16)]
  {
    assert bs[..j + 1][..j] == bs[..j];
  }

  /**
   The file name built in the path buffer: every write stays inside it, and the
   name is refused exactly when it and its closing NUL would not fit.
   */
  method NewCertPath(dir: string, n: int) returns (r: Option<string>)
    ensures r.Some? <==> |PathText(dir, n)| <= 4095
    ensures r.Some? ==> r.value == PathText(dir, n)
  {
    var bs := Magnitude(n);
    assert n != 0 ==> bs != [];
    hide HexOf, Bytes;
    var start := Strlcat(Strlcpy(dir, PATH_MAX), "/", PATH_MAX);
    var outdirlen := |Strlcpy(dir, PATH_MAX)| + 1;
    var len := 2 * (if |bs| > 0 then |bs| else 1) + 5;
    if outdirlen + len > PATH_MAX { return None; }
    var buf := new char[PATH_MAX];
    var p := FillPath(buf, start, bs);
    r := Some(buf[..p]);
  }

  /** The writes into the path buffer, the closing NUL last. */
  method FillPath(buf: array<char>, start: string, bs: seq<byte>) returns (p: nat)
    requires |start| + 2 * (if |bs| > 0 then |bs| else 1) + 5 <= buf.Length
    modifies buf
    ensures p < buf.Length
    ensures buf[..p] == start + (if bs == [] then "00" else HexOf(bs)) + ".pem"
  {
    hide HexOf;
    p := PutText(buf, 0, start);
    assert old(buf[..0]) + start == start;
    if |bs| > 0 {
      p := PutHex(buf, p, bs);
    } else {
      p := PutText(buf, p, "00");
    }
    p := PutText(buf, p, ".pem");
    ghost var text := buf[..p];
    buf[p] := '\0';
    assert buf[..p] == text;
  }

  // ---- the files -------------------------------------------------------------------------

  /** A file with its ".new" and ".old" companions. */
  datatype Versions<T> = Versions(live: Option<T>, next: Option<T>, prev: Option<T>)

  /** rename(live, old): `works` is the system's answer; a missing file is no failure here. */
  function RetireLive<T>(v: Versions<T>, works: bool): (bool, Versions<T>) {
    if v.live.None? then (true, v)
    else if works then (true, Versions(None, v.next, v.live))
    else (false, v)
  }

  /** rename(new, live) */
  function Promote<T>(v: Versions<T>, works: bool): (bool, Versions<T>) {
    if works && v.next.Some? then (true, Versions(v.next, None, v.prev)) else (false, v)
  }

  /** rename(old, live), as undo */
  function Restore<T>(v: Versions<T>, works: bool): Versions<T> {
    if works && v.prev.Some? then Versions(v.prev, v.next, None) else v
  }

  /** rename(live, new), as undo */
  function Demote<T>(v: Versions<T>, works: bool): Versions<T> {
    if works && v.live.Some? then Versions(None, v.live, v.prev) else v
  }

  /** What the system answers to each rename of a rotation, and to the undo renames. */
  datatype Answers = Answers(retire: bool, promote: bool, retireAttr: bool, promoteAttr: bool, undo: bool)

  /** rotate_serial */
  function RotateSerial<T>(v: Versions<T>, a: Answers): (bool, Versions<T>) {
    var (ok1, v1) := RetireLive(v, a.retire);
    if !ok1 then (false, v1)
    else
      var (ok2, v2) := Promote(v1, a.promote);
      if ok2 then (true, v2) else (false, Restore(v2, a.undo))
  }

  /** rotate_index: the index and its attribute file, each undone when a later rename fails. */
  function RotateIndex<T, U>(v: Versions<T>, w: Versions<U>, a: Answers): (bool, Versions<T>, Versions<U>) {
    var (ok, v2) := RotateSerial(v, a);
    if !ok then (false, v2, w)
    else
      var (ok3, w3) := RetireLive(w, a.retireAttr);
      if !ok3 then (false, Restore(Demote(v2, a.undo), a.undo), w3)
      else
        var (ok4, w4) := Promote(w3, a.promoteAttr);
        if ok4 then (true, v2, w4)
        else (false, Restore(Demote(v2, a.undo), a.undo), Restore(w4, a.undo))
  }

  /**
   A rotation replaces the index exactly when it reports success; otherwise the
   undo renames put the live index back.
   */
  lemma RotationAllOrNothing<T, U>(v: Versions<T>, w: Versions<U>, a: Answers)
    requires a.undo && v.live.Some?
    ensures var (ok, v', w') := RotateIndex(v, w, a);
            && (ok ==> v'.live == v.next && v'.live.Some? && v'.prev == v.live && w'.live == w.next)
            && (!ok ==> v'.live == v.live && v'.next == v.next)
  {
  }

  /** The renames of one file go through: nothing to retire or it works, and something to promote. */
  predicate Rotates<T>(v: Versions<T>, retire: bool, promote: bool) {
    (v.live.None? || retire) && promote && v.next.Some?
  }

  /** A rotation reports success exactly when the renames of both files go through. */
  lemma RotationSucceedsIff<T, U>(v: Versions<T>, w: Versions<U>, a: Answers)
    ensures RotateSerial(v, a).0 <==> Rotates(v, a.retire, a.promote)
    ensures RotateIndex(v, w, a).0
       <==> Rotates(v, a.retire, a.promote) && Rotates(w, a.retireAttr, a.promoteAttr)
  {
  }

  /**
   The attribute file is put back after a failure exactly when there was one, or
   there was no stale ".old" copy to mistake for it, or its renames were not reached.
   */
  lemma AttrPutBackIff<T, U>(v: Versions<T>, w: Versions<U>, a: Answers)
    requires a.undo && !(Rotates(v, a.retire, a.promote) && Rotates(w, a.retireAttr, a.promoteAttr))
    ensures RotateIndex(v, w, a).2.live == w.live
            <==> w.live.Some? || w.prev.None? || !Rotates(v, a.retire, a.promote)
  {
    RotationSucceedsIff(v, w, a);
  }

  /** In the same way a missing serial file comes back from a stale ".old" copy when the rotation fails. */
  lemma SerialPutBackIff<T>(v: Versions<T>, a: Answers)
    requires a.undo && !Rotates(v, a.retire, a.promote)
    ensures RotateSerial(v, a).1.live == if v.live.Some? then v.live else v.prev
  {
  }

  predicate AllWork(a: Answers) {
    a.retire && a.promote && a.retireAttr && a.promoteAttr
  }

  /** Every certificate of the batch has a path that fits and a file that can be written. */
  predicate AllFit(dir: string, batch: seq<Cert>, works: int -> bool) {
    forall i :: 0 <= i < |batch| ==> |PathText(dir, batch[i].serial)| <= 4095 && works(i)
  }

  /** The certificate files after a batch has been written in order. */
  function Written(dir: string, files: map<string, Cert>, batch: seq<Cert>): map<string, Cert> {
    if batch == [] then files
    else
      var c := batch[|batch| - 1];
      Written(dir, files, batch[..|batch| - 1])[PathText(dir, c.serial) := c]
  }

  function Size(n: int): nat {
    if n < 0 then -n else n
  }

  /** Files are named after the serial column without its sign, so that n and -n share one. */
  lemma PathsDiffer(dir: string, m: int, n: int)
    ensures PathText(dir, n) == dir + "/" + SerialText(Size(n)) + ".pem"
    ensures PathText(dir, m) == PathText(dir, n) <==> m == n || m == -n
  {
    var a, b := SerialText(Size(m)), SerialText(Size(n));
    SerialRoundTrip(Size(m));
    SerialRoundTrip(Size(n));
    hide SerialText, HexOf, Bytes, Hex2Bn;
    SizeText(m);
    SizeText(n);
    var p, q, k := dir + "/" + a + ".pem", dir + "/" + b + ".pem", |dir| + 1;
    assert p[k..|p| - 4] == a;
    assert q[k..|q| - 4] == b;
  }

  lemma SizeText(n: int)
    ensures (if n == 0 then "00" else HexOf(Magnitude(n))) == SerialText(Size(n))
  {
  }

  /** A later certificate of the batch has the opposite serial of the k-th. */
  predicate Overwritten(start: int, k: nat, count: nat) {
    k < -2 * start - k < count
  }

  /** After a batch each certificate is in its file, unless a later one has the opposite serial. */
  lemma {:induction false} NoneOverwritten(dir: string, files: map<string, Cert>, batch: seq<Cert>, start: int, k: nat)
    requires forall i :: 0 <= i < |batch| ==> batch[i].serial == start + i
    requires k < |batch|
    ensures PathText(dir, start + k) in Written(dir, files, batch)
    ensures Written(dir, files, batch)[PathText(dir, start + k)] == batch[k] <==> !Overwritten(start, k, |batch|)
    decreases |batch|
  {
    hide PathText;
    var n := |batch| - 1;
    PathsDiffer(dir, start + k, start + n);
    if k < n { NoneOverwritten(dir, files, batch[..n], start, k); }
  }

  /** The serial a batch starts from. */
  function FirstSerial(live: Option<int>, create: bool, drawn: Option<nat>): Option<int> {
    if live.Some? then live else if create && drawn.Some? then Some(drawn.value) else None
  }

  datatype Result = Canceled | Failed | Committed

  /** The CA's files; a certificate file is keyed by its path. */
  class CaFiles {
    var serial: Versions<int>
    var index: Versions<string>
    var attr: Versions<bool>
    var certs: map<string, Cert>

    constructor (serial: Versions<int>, index: Versions<string>, attr: Versions<bool>)
      ensures this.serial == serial && this.index == index && this.attr == attr && certs == map[]
    {
      this.serial, this.index, this.attr, this.certs := serial, index, attr, map[];
    }

    /** The loop that writes the new certificates; `works` is the system's answer to each. */
    method WriteFiles(dir: string, batch: seq<Cert>, works: int -> bool) returns (ok: bool)
      modifies this`certs
      ensures ok ==> certs == Written(dir, old(certs), batch)
      ensures ok <==> forall i :: 0 <= i < |batch| ==> |PathText(dir, batch[i].serial)| <= 4095 && works(i)
    {
      hide PathText;
      ok := true;
      assert batch[..0] == [];
      for i := 0 to |batch|
        invariant forall k :: 0 <= k < i ==> |PathText(dir, batch[k].serial)| <= 4095 && works(k)
        invariant certs == Written(dir, old(certs), batch[..i])
      {
        assert batch[..i + 1][..i] == batch[..i];
        var path := NewCertPath(dir, batch[i].serial);
        if path.None? || !works(i) { return false; }
        certs := certs[path.value := batch[i]];
      }
      assert batch[..|batch|] == batch;
    }

    method WriteCerts(dir: string, batch: seq<Cert>, works: int -> bool) returns (ok: bool)
      modifies this`certs
      ensures ok ==> certs == Written(dir, old(certs), batch)
      ensures ok <==> AllFit(dir, batch, works)
    {
      hide PathText, Written;
      ok := WriteFiles(dir, batch, works);
    }

    /** The rotation at the end: the serial file first, then the index. */
    method RotateAll(a1: Answers, a2: Answers) returns (ok: bool)
      requires serial.next.Some? && index.live.Some? && a1.undo && a2.undo
      modifies this`serial, this`index, this`attr
      ensures serial.live == old(if Rotates(serial, a1.retire, a1.promote) then serial.next
                                 else if serial.live.Some? then serial.live else serial.prev)
      ensures index.live == old(if ok then index.next else index.live)
      ensures ok <==> old(Rotates(serial, a1.retire, a1.promote) && Rotates(index, a2.retire, a2.promote)
                          && Rotates(attr, a2.retireAttr, a2.promoteAttr))
    {
      RotationSucceedsIff(serial, serial, a1);
      RotationSucceedsIff(index, attr, a2);
      if !Rotates(serial, a1.retire, a1.promote) { SerialPutBackIff(serial, a1); }
      var (moved, s) := RotateSerial(serial, a1);
      serial := s;
      if !moved { return false; }
      RotationAllOrNothing(index, attr, a2);
      var (done, i, t) := RotateIndex(index, attr, a2);
      index, attr, ok := i, t, done;
    }

    /** load_serial: the number in the file or, where there is none and -create_serial is given, a drawn one. */
    method LoadSerial(create: bool, drawn: Option<nat>) returns (start: Option<int>)
      ensures start == FirstSerial(serial.live, create, drawn)
      ensures serial.live.Some? ==> start == serial.live
      ensures serial.live.None? ==> start == if create && drawn.Some? then Some(drawn.value) else None
    {
      if serial.live.Some? { return serial.live; }
      if !create || drawn.None? { return None; }
      start := Some(drawn.value);
    }

    /**
     `ca` on a batch of requests. Whatever fails, the live index is the loaded one
     or the saved one; the saved one appears only after the serial file has moved
     past every certificate in it and after all certificate files are written.
     */
    method IssueAll(db: CertDb, dir: string, reqs: seq<Request>, create: bool, drawn: Option<nat>, commit: bool,
                    saves: bool, writes: int -> bool, a1: Answers, a2: Answers)
      returns (r: Result, ghost issued: seq<Cert>)
      requires index.live.Some? && a1.undo && a2.undo
      modifies this, db
      ensures var first := FirstSerial(old(serial.live), create, drawn);
              && (first.None? ==> r == Failed && issued == [] && db.View() == old(db.View())
                                  && serial == old(serial) && index == old(index) && certs == old(certs))
              && (first.Some? ==>
                    var b, start := Batch(old(db.View()), first.value, reqs), first.value;
                    && issued == b.certs && db.View() == b.db
                    && (r == Canceled <==> !b.fatal && issued != [] && !commit)
                    && (r == Committed ==> !b.fatal)
                    && (!b.fatal && commit && saves && AllFit(dir, issued, writes) && AllWork(a1) && AllWork(a2) ==> r == Committed)
                    && (r == Committed && issued != [] ==> serial.live == Some(start + |issued|))
                    && (index.live != old(index.live) ==> serial.live == Some(start + |issued|))
                    && (|| serial.live == old(serial.live)
                        || serial.live == Some(start + |issued|)
                        || (old(serial.live).None? && r == Failed && serial.live == old(serial.prev)))
                    && (r == Committed ==> forall k :: 0 <= k < |issued| ==>
                          && PathText(dir, issued[k].serial) in certs
                          && (certs[PathText(dir, issued[k].serial)] == issued[k] <==> !Overwritten(start, k, |issued|))))
      ensures r != Committed ==> index.live == old(index.live)
      ensures r == Committed && issued != [] ==> index.live == Some(Save(db.View()))
      ensures r == Committed && issued == [] ==> index.live == old(index.live) && serial.live == old(serial.live)
    {
      hide PathText, FreshRows, Save, Written, Batch, AllFit, AskableCount, Overwritten;
      issued := [];
      var first := LoadSerial(create, drawn);
      if first.None? { return Failed, issued; }
      var fatal, after, batch := RunBatch(db, first.value, reqs);
      issued := batch;
      BatchSerials(old(db.View()), first.value, reqs);
      if fatal { return Failed, issued; }
      if batch != [] {
        if !commit { return Canceled, issued; }
        if !saves { return Failed, issued; }
        serial := serial.(next := Some(after));
        var text := db.SaveIndex();
        index, attr := index.(next := Some(text)), attr.(next := Some(db.unique));
      }
      var written := WriteCerts(dir, batch, writes);
      if !written { return Failed, issued; }
      if batch != [] {
        var ok := RotateAll(a1, a2);
        if !ok { return Failed, issued; }
      }
      forall k | 0 <= k < |issued|
        ensures PathText(dir, issued[k].serial) in certs
        ensures certs[PathText(dir, issued[k].serial)] == issued[k] <==> !Overwritten(first.value, k, |issued|)
      {
        NoneOverwritten(dir, old(certs), issued, first.value, k);
      }
      r := Committed;
    }
  }
}
