/**
 The revocation column of the certificate database: make_revocation_str writes
 it, unpack_revinfo reads it back (apps/ca.c).
 */
module RevInfo {
  import opened CText

  /** Fields that survive the tab-separated file: no newline, no closing backslash. */
  predicate FieldSafe(s: string) {
    '\n' !in s && (s != "" ==> s[|s| - 1] != '\\')
  }

  /**
   The ASN.1 library as this program sees it: the time checks behind
   ASN1_TIME_set_string, ASN1_UTCTIME_set_string and
   ASN1_GENERALIZEDTIME_set_string, and OBJ_txt2obj.
   */
  datatype Lib = Lib(isTime: string -> bool, isUtc: string -> bool, isGen: string -> bool,
                     oid: string -> Option<nat>)
  {
    /** What is taken for granted of the library. */
    ghost predicate Ok() {
      && !isTime("")
      && (forall s: string :: isTime(s) ==> FieldSafe(s))
      && (forall s: string :: isUtc(s) ==> ',' !in s && FieldSafe(s))
      && (forall s: string :: isGen(s) ==> FieldSafe(s))
      && (forall s: string :: oid(s).Some? ==> FieldSafe(s))
    }
  }

  datatype RevType = MarkValid | Plain | Reason | Hold | KeyTime | CaKeyTime

  /** What a revocation column says; reason -1 is "no reason given". */
  datatype Info = Info(time: string, reason: int, hold: Option<nat>, invalidity: Option<string>)

  const NO_REASON := -1
  const KEY_COMPROMISE := 1
  const CA_COMPROMISE := 2
  const CERTIFICATE_HOLD := 6
  const REMOVE_FROM_CRL := 8

  /** crl_reasons: eight CRL reasons, then three pseudo reasons. */
  const REASONS: seq<string> := [
    "unspecified", "keyCompromise", "CACompromise", "affiliationChanged", "superseded",
    "cessationOfOperation", "certificateHold", "removeFromCRL",
    "holdInstruction", "keyTime", "CAkeyTime"
  ]

  /** The first of the leading n reasons that `s` names in any letter case, or n. */
  function FirstReason(s: string, n: nat): (i: nat)
    requires n <= |REASONS|
    ensures i <= n
    ensures i < n ==> EqNoCase(s, REASONS[i])
    ensures forall k :: 0 <= k < i ==> !EqNoCase(s, REASONS[k])
  {
    if n == 0 then 0
    else
      var i := FirstReason(s, n - 1);
      if i < n - 1 || EqNoCase(s, REASONS[n - 1]) then i else n
  }

  method FindReason(s: string, n: nat) returns (i: nat)
    requires n <= |REASONS|
    ensures i == FirstReason(s, n)
  {
    i := 0;
    while i < n
      invariant i <= n
      invariant forall k :: 0 <= k < i ==> !EqNoCase(s, REASONS[k])
    {
      if EqNoCase(s, REASONS[i]) { return; }
      i := i + 1;
    }
  }

  // ---- what is meant ---------------------------------------------------------------

  /** The reason code of RFC 5280, section 5.3.1, for the i-th reason name. */
  function ReasonCode(i: nat): int
    requires i < 8
  {
    if i == 7 then REMOVE_FROM_CRL else i
  }

  /** Whether the operator's argument is one the given kind of revocation accepts. */
  predicate ArgOk(lib: Lib, kind: RevType, arg: string) {
    match kind
    case MarkValid | Plain => true
    case Reason => FirstReason(arg, 8) < 8
    case Hold => lib.oid(arg).Some?
    case KeyTime | CaKeyTime => lib.isGen(arg)
  }

  /** What a revocation of that kind, at that time, is meant to record. */
  function Meaning(lib: Lib, kind: RevType, arg: string, now: string): Info
    requires ArgOk(lib, kind, arg)
  {
    match kind
    case MarkValid | Plain => Info(now, NO_REASON, None, None)
    case Reason => Info(now, ReasonCode(FirstReason(arg, 8)), None, None)
    case Hold => Info(now, CERTIFICATE_HOLD, lib.oid(arg), None)
    case KeyTime => Info(now, KEY_COMPROMISE, None, Some(arg))
    case CaKeyTime => Info(now, CA_COMPROMISE, None, Some(arg))
  }

  // ---- writing -----------------------------------------------------------------------

  /** The column as the comment above make_revocation_str lays it out: revtime[,reason[,extra]]. */
  function RevText(lib: Lib, kind: RevType, arg: string, now: string): string
    requires ArgOk(lib, kind, arg)
  {
    match kind
    case MarkValid | Plain => now
    case Reason => now + "," + REASONS[FirstReason(arg, 8)]
    case Hold => now + "," + "holdInstruction" + "," + arg
    case KeyTime => now + "," + "keyTime" + "," + arg
    case CaKeyTime => now + "," + "CAkeyTime" + "," + arg
  }

  /** make_revocation_str: the bounded copies never cut the text. `now` is None when the clock fails. */
  method MakeRevocationStr(lib: Lib, kind: RevType, arg: string, now: Option<string>)
    returns (r: Option<string>)
    ensures r.Some? <==> ArgOk(lib, kind, arg) && now.Some?
    ensures r.Some? ==> r.value == RevText(lib, kind, arg, now.value)
  {
    var reason: Option<string>, other: Option<string> := None, None;
    match kind {
      case MarkValid | Plain =>
      case Reason =>
        var i := FindReason(arg, 8);
        if i == 8 { return None; }
        reason := Some(REASONS[i]);
      case Hold =>
        if lib.oid(arg).None? { return None; }
        reason, other := Some("holdInstruction"), Some(arg);
      case KeyTime | CaKeyTime =>
        if !lib.isGen(arg) { return None; }
        other := Some(arg);
        reason := Some(if kind == KeyTime then "keyTime" else "CAkeyTime");
    }
    if now.None? { return None; }
    var i := |now.value| + 1;
    if reason.Some? { i := i + |reason.value| + 1; }
    if other.Some? { i := i + |other.value| + 1; }
    var str := Strlcpy(now.value, i);
    if reason.Some? {
      str := Strlcat(str, ",", i);
      str := Strlcat(str, reason.value, i);
    }
    if other.Some? {
      str := Strlcat(str, ",", i);
      str := Strlcat(str, other.value, i);
    }
    r := Some(str);
  }

  // ---- reading -----------------------------------------------------------------------

  /** unpack_revinfo on its three pieces. */
  function UnpackParts(lib: Lib, time: string, reason: Option<string>, arg: Option<string>): Option<Info> {
    if !lib.isUtc(time) then None
    else if reason.None? then Some(Info(time, NO_REASON, None, None))
    else
      var i := FirstReason(reason.value, 11);
      if i == 11 then None
      else if i == 7 then Some(Info(time, REMOVE_FROM_CRL, None, None))
      else if i == 8 then
        if arg.None? || lib.oid(arg.value).None? then None
        else Some(Info(time, CERTIFICATE_HOLD, lib.oid(arg.value), None))
      else if i == 9 || i == 10 then
        if arg.None? || !lib.isGen(arg.value) then None
        else Some(Info(time, if i == 9 then KEY_COMPROMISE else CA_COMPROMISE, None, arg))
      else Some(Info(time, i, None, None))
  }

  /** unpack_revinfo: cut the text at its first two commas. */
  function Unpack(lib: Lib, s: string): Option<Info> {
    var c := IndexOf(s, ',', 0);
    if c == |s| then UnpackParts(lib, s, None, None)
    else
      var d := IndexOf(s, ',', c + 1);
      if d == |s| then UnpackParts(lib, s[..c], Some(s[c + 1..]), None)
      else UnpackParts(lib, s[..c], Some(s[c + 1..d]), Some(s[d + 1..]))
  }

  lemma {:induction false} IndexOfMiddle(a: string, b: string, from: nat)
    requires from <= |a|
    requires forall k :: from <= k < |a| ==> a[k] != ','
    ensures IndexOf(a + "," + b, ',', from) == |a|
  {
    var s := a + "," + b;
    var i := IndexOf(s, ',', from);
    assert s[|a|] == ',';
    assert forall k :: from <= k < |a| ==> s[k] == a[k];
  }

  lemma UnpackOne(lib: Lib, time: string)
    requires ',' !in time
    ensures Unpack(lib, time) == UnpackParts(lib, time, None, None)
  {
    assert IndexOf(time, ',', 0) == |time|;
  }

  /** A text joined at two commas, cut at them again. */
  lemma ThreeSlices(time: string, reason: string, arg: string)
    ensures var s := time + "," + reason + "," + arg;
            var c := |time|;
            var d := c + 1 + |reason|;
            |s| == d + 1 + |arg| && s[..c] == time && s[c + 1..d] == reason && s[d + 1..] == arg
  {
    var front := time + "," + reason;
    Halves(time + ",", reason);
    Halves(time, ",");
    Halves(front + ",", arg);
    Halves(front, ",");
    var s := front + "," + arg;
    assert s[..|front|] == front;
    assert s[..|time|] == front[..|time|] == time;
    assert s[|time| + 1..|front|] == front[|time| + 1..];
  }

  /** A column with a reason and an argument is cut where it was joined. */
  lemma UnpackThree(lib: Lib, time: string, reason: string, arg: string)
    requires ',' !in time && ',' !in reason
    ensures Unpack(lib, time + "," + reason + "," + arg) == UnpackParts(lib, time, Some(reason), Some(arg))
  {
    hide UnpackParts;
    var s := time + "," + reason + "," + arg;
    assert s == time + "," + (reason + "," + arg) by {
      Assoc(time + ",", reason, ",");
      Assoc(time + ",", reason + ",", arg);
    }
    IndexOfMiddle(time, reason + "," + arg, 0);
    var front := time + "," + reason;
    assert forall k :: |time| + 1 <= k < |front| ==> front[k] == reason[k - |time| - 1];
    IndexOfMiddle(front, arg, |time| + 1);
    ThreeSlices(time, reason, arg);
  }

  lemma UnpackTwo(lib: Lib, time: string, reason: string)
    requires ',' !in time && ',' !in reason
    ensures Unpack(lib, time + "," + reason) == UnpackParts(lib, time, Some(reason), None)
  {
    var s := time + "," + reason;
    IndexOfMiddle(time, reason, 0);
    assert s[..|time|] == time && s[|time| + 1..] == reason;
    assert forall k :: |time| < k < |s| ==> s[k] == reason[k - |time| - 1];
    assert IndexOf(s, ',', |time| + 1) == |s|;
  }

  lemma ReasonPair(i: nat, k: nat)
    requires k < i < |REASONS|
    ensures |REASONS[i]| == |REASONS[k]| ==> REASONS[i] != [] && Lower(REASONS[i][0]) != Lower(REASONS[k][0])
  {
  }

  lemma NamedReasons()
    ensures |REASONS| == 11
    ensures REASONS[8] == "holdInstruction" && REASONS[9] == "keyTime" && REASONS[10] == "CAkeyTime"
  {
  }

  lemma ReasonText(i: nat)
    requires i < |REASONS|
    ensures ',' !in REASONS[i]
  {
  }

  /** No two reason names are equal up to letter case, and none holds a comma. */
  lemma ReasonsDistinct(i: nat, n: nat)
    requires i < n <= |REASONS|
    ensures FirstReason(REASONS[i], n) == i
    ensures ',' !in REASONS[i]
  {
    hide REASONS;
    ReasonText(i);
    forall k | 0 <= k < i
      ensures !EqNoCase(REASONS[i], REASONS[k])
    {
      ReasonPair(i, k);
      assert |REASONS[i]| == |REASONS[k]| ==> LowerAll(REASONS[i])[0] != LowerAll(REASONS[k])[0];
    }
  }

  /** Reading back a written column gives what was meant, for every kind and argument. */
  lemma UnpackOfRevText(lib: Lib, kind: RevType, arg: string, now: string)
    requires lib.Ok() && lib.isUtc(now) && ArgOk(lib, kind, arg)
    ensures Unpack(lib, RevText(lib, kind, arg, now)) == Some(Meaning(lib, kind, arg, now))
  {
    NamedReasons();
    hide Unpack, FirstReason, REASONS;
    match kind {
      case MarkValid | Plain =>
        UnpackOne(lib, now);
      case Reason =>
        var i := FirstReason(arg, 8);
        ReasonsDistinct(i, 11);
        UnpackTwo(lib, now, REASONS[i]);
      case Hold =>
        ReasonsDistinct(8, 11);
        UnpackThree(lib, now, REASONS[8], arg);
      case KeyTime =>
        ReasonsDistinct(9, 11);
        UnpackThree(lib, now, REASONS[9], arg);
      case CaKeyTime =>
        ReasonsDistinct(10, 11);
        UnpackThree(lib, now, REASONS[10], arg);
    }
  }

  /** A written column survives the database file. */
  lemma RevTextSafe(lib: Lib, kind: RevType, arg: string, now: string)
    requires lib.Ok() && lib.isUtc(now) && ArgOk(lib, kind, arg)
    ensures FieldSafe(RevText(lib, kind, arg, now))
  {
    var t := RevText(lib, kind, arg, now);
    if kind.Hold? || kind.KeyTime? || kind.CaKeyTime? {
      assert FieldSafe(arg);
      if arg != "" { assert t[|t| - 1] == arg[|arg| - 1]; }
    }
  }

  // ---- reasons by name and number ------------------------------------------------------

  /** The reasons an operator may give, with their codes in RFC 5280, section 5.3.1. */
  predicate CrlReason(name: string, code: int) {
    || (name == "unspecified" && code == 0)
    || (name == "keyCompromise" && code == 1)
    || (name == "CACompromise" && code == 2)
    || (name == "affiliationChanged" && code == 3)
    || (name == "superseded" && code == 4)
    || (name == "cessationOfOperation" && code == 5)
    || (name == "certificateHold" && code == 6)
    || (name == "removeFromCRL" && code == 8)
  }

  lemma CaseKeepsCommas(s: string, name: string)
    requires EqNoCase(s, name) && ',' !in name
    ensures ',' !in s
  {
    forall k | 0 <= k < |s|
      ensures s[k] != ','
    {
      assert LowerAll(s)[k] == LowerAll(name)[k];
    }
  }

  lemma ReasonPosition(name: string, code: int) returns (i: nat)
    requires CrlReason(name, code)
    ensures i < 8 && REASONS[i] == name && (if i == 7 then code == 8 else code == i)
  {
    i := if code == 8 then 7 else code;
  }

  /** Names equal up to letter case take one position. */
  lemma SamePosition(s: string, i: nat, n: nat)
    requires i < n <= |REASONS| && EqNoCase(s, REASONS[i])
    ensures FirstReason(s, n) == i
  {
    hide REASONS;
    ReasonsDistinct(i, n);
    forall k | 0 <= k < i
      ensures !EqNoCase(s, REASONS[k])
    {
      assert !EqNoCase(REASONS[i], REASONS[k]);
    }
  }

  /** A column with one of these names, in any letter case, is read as its code. */
  lemma ReasonByName(lib: Lib, time: string, s: string, name: string, code: int)
    requires lib.Ok() && lib.isUtc(time) && CrlReason(name, code) && EqNoCase(s, name)
    ensures Unpack(lib, time + "," + s) == Some(Info(time, code, None, None))
  {
    NamedReasons();
    hide Unpack, FirstReason, REASONS, EqNoCase;
    var i := ReasonPosition(name, code);
    ReasonText(i);
    CaseKeepsCommas(s, name);
    SamePosition(s, i, 11);
    UnpackTwo(lib, time, s);
  }

  /** The three pseudo reasons: a hold is code 6 with its object, the key times are codes 1 and 2 with their time. */
  lemma PseudoReasons(lib: Lib, time: string, arg: string)
    requires lib.Ok() && lib.isUtc(time)
    ensures Unpack(lib, time + "," + "holdInstruction" + "," + arg)
         == if lib.oid(arg).Some? then Some(Info(time, 6, lib.oid(arg), None)) else None
    ensures Unpack(lib, time + "," + "keyTime" + "," + arg)
         == if lib.isGen(arg) then Some(Info(time, 1, None, Some(arg))) else None
    ensures Unpack(lib, time + "," + "CAkeyTime" + "," + arg)
         == if lib.isGen(arg) then Some(Info(time, 2, None, Some(arg))) else None
  {
    hide Unpack, FirstReason, REASONS;
    Pseudo(lib, time, 8, arg);
    Pseudo(lib, time, 9, arg);
    Pseudo(lib, time, 10, arg);
    NamedReasons();
  }

  lemma Pseudo(lib: Lib, time: string, i: nat, arg: string)
    requires lib.Ok() && lib.isUtc(time) && 8 <= i <= 10
    ensures var s := time + "," + REASONS[i] + "," + arg;
            && (i == 8 ==> Unpack(lib, s) == if lib.oid(arg).Some? then Some(Info(time, 6, lib.oid(arg), None)) else None)
            && (i == 9 ==> Unpack(lib, s) == if lib.isGen(arg) then Some(Info(time, 1, None, Some(arg))) else None)
            && (i == 10 ==> Unpack(lib, s) == if lib.isGen(arg) then Some(Info(time, 2, None, Some(arg))) else None)
  {
    hide Unpack, FirstReason, REASONS;
    NamedReasons();
    ReasonsDistinct(i, 11);
    UnpackThree(lib, time, REASONS[i], arg);
  }

  /** An operator's reason is accepted exactly when it is one of these names in some letter case. */
  lemma ReasonAccepted(lib: Lib, arg: string)
    ensures ArgOk(lib, Reason, arg) <==> exists name, code :: CrlReason(name, code) && EqNoCase(arg, name)
  {
    NamedReasons();
    if ArgOk(lib, Reason, arg) {
      var i := FirstReason(arg, 8);
      assert CrlReason(REASONS[i], if i == 7 then 8 else i);
    }
    hide FirstReason;
    if name: string, code: int :| CrlReason(name, code) && EqNoCase(arg, name) {
      var i := ReasonPosition(name, code);
      SamePosition(arg, i, 8);
    }
  }

  /** What the writer puts there for such a reason is read as its code. */
  lemma ReasonWritten(lib: Lib, arg: string, name: string, code: int, now: string)
    requires lib.Ok() && lib.isUtc(now) && CrlReason(name, code) && EqNoCase(arg, name)
    ensures ArgOk(lib, Reason, arg) && RevText(lib, Reason, arg, now) == now + "," + name
    ensures Meaning(lib, Reason, arg, now) == Info(now, code, None, None)
  {
    NamedReasons();
    hide FirstReason, EqNoCase, REASONS;
    var i := ReasonPosition(name, code);
    SamePosition(arg, i, 8);
  }
}
