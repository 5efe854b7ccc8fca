/**
 The subject name of a certificate to be issued: the policy loop of do_body
 and the removal of e-mail entries (apps/ca.c).
 */
module Policy {
  import opened CText

  /** A name entry: its object identifier and its string with the string type. */
  datatype Entry = Entry(obj: nat, value: string)

  type Name = seq<Entry>

  /** A line of the policy section; `obj` is None when the name is no known object. */
  datatype Line = Line(obj: Option<nat>, rule: string)

  // ---- what the policy means ---------------------------------------------------------

  /** The entries of one type, in order. */
  function Of(name: Name, obj: nat): (es: Name)
    ensures forall e :: e in es <==> e in name && e.obj == obj
  {
    if name == [] then []
    else
      var n := |name| - 1;
      Of(name[..n], obj) + if name[n].obj == obj then [name[n]] else []
  }

  predicate LineHolds(line: Line, req: Name, ca: Name) {
    && line.obj.Some?
    && var es := Of(req, line.obj.value);
       || line.rule == "optional"
       || (line.rule == "supplied" && es != [])
       || (line.rule == "match" && es != [] && forall e :: e in es ==> e in ca)
  }

  /** All request entries named by the policy, in policy order and then in request order. */
  function Subject(policy: seq<Line>, req: Name): Name {
    if policy == [] then []
    else
      var n := |policy| - 1;
      Subject(policy[..n], req) + if policy[n].obj.Some? then Of(req, policy[n].obj.value) else []
  }

  /** The entries at the ascending positions `at`. */
  ghost predicate Selects(name: Name, es: Name, at: seq<nat>) {
    && |at| == |es|
    && (forall k :: 0 <= k < |at| ==> at[k] < |name| && es[k] == name[at[k]])
    && forall j, k :: 0 <= j < k < |at| ==> at[j] < at[k]
  }

  /** One entry more to select from, and selected or not. */
  lemma SelectsMore(name: Name, es: Name, at: seq<nat>)
    requires name != [] && Selects(name[..|name| - 1], es, at)
    ensures Selects(name, es, at) && Selects(name, es + [name[|name| - 1]], at + [|name| - 1])
    ensures forall i :: 0 <= i < |name| ==> (i in at + [|name| - 1] <==> i in at || i == |name| - 1)
    ensures |name| - 1 !in at
  {
  }

  lemma OfLast(name: Name, obj: nat)
    ensures name == [] ==> Of(name, obj) == []
    ensures name != [] ==>
              var n := |name| - 1;
              Of(name, obj) == if name[n].obj == obj then Of(name[..n], obj) + [name[n]] else Of(name[..n], obj)
  {
    if name != [] { assert Of(name[..|name| - 1], obj) + [] == Of(name[..|name| - 1], obj); }
  }

  /** The entries of one type by position: all of them, in order, each once. */
  lemma {:induction false} OfByPosition(name: Name, obj: nat) returns (at: seq<nat>)
    ensures Selects(name, Of(name, obj), at)
    ensures forall i :: 0 <= i < |name| ==> (i in at <==> name[i].obj == obj)
    decreases |name|
  {
    hide Of;
    OfLast(name, obj);
    at := [];
    if name != [] {
      hide Selects;
      var n := |name| - 1;
      at := OfByPosition(name[..n], obj);
      SelectsMore(name, Of(name[..n], obj), at);
      assert forall i :: 0 <= i < n ==> name[..n][i] == name[i];
      if name[n].obj == obj { at := at + [n]; }
    }
  }

  /** A pair of positions, in the policy and in the request, comes before another. */
  predicate Before(a: (nat, nat), b: (nat, nat)) {
    a.0 < b.0 || (a.0 == b.0 && a.1 < b.1)
  }

  /** Entry k of the subject is the request entry at[k].1, which is of the type of policy line at[k].0. */
  ghost predicate Placed(policy: seq<Line>, req: Name, subject: Name, at: seq<(nat, nat)>) {
    |at| == |subject| && forall k :: 0 <= k < |at| ==> PlaceOk(policy, req, at[k]) && subject[k] == req[at[k].1]
  }

  predicate PlaceOk(policy: seq<Line>, req: Name, p: (nat, nat)) {
    p.0 < |policy| && p.1 < |req| && policy[p.0].obj == Some(req[p.1].obj)
  }

  /** The subject by positions: for each policy line all request entries of its type, in order, and nothing else. */
  ghost predicate SubjectAt(policy: seq<Line>, req: Name, subject: Name, at: seq<(nat, nat)>) {
    && Placed(policy, req, subject, at)
    && (forall j, k :: 0 <= j < k < |at| ==> Before(at[j], at[k]))
    && forall p :: PlaceOk(policy, req, p) ==> p in at
  }

  lemma {:induction false} SubjectByPosition(policy: seq<Line>, req: Name) returns (at: seq<(nat, nat)>)
    ensures SubjectAt(policy, req, Subject(policy, req), at)
    decreases |policy|
  {
    if policy == [] {
      at := [];
    } else {
      var n := |policy| - 1;
      at := SubjectByPosition(policy[..n], req);
      SubjectLast(policy, req);
      hide Subject, Of, Selects;
      if policy[n].obj.Some? {
        var es := OfByPosition(req, policy[n].obj.value);
        var more := seq(|es|, i requires 0 <= i < |es| => (n, es[i]));
        MorePlaced(policy, req, at, es, more);
        MoreOrdered(policy, req, at, es, more);
        MoreComplete(policy, req, at, es, more);
        at := at + more;
      } else {
        Unmoved(policy, req, Subject(policy[..n], req), at);
      }
    }
  }

  lemma SubjectLast(policy: seq<Line>, req: Name)
    requires policy != []
    ensures var n := |policy| - 1;
            Subject(policy, req)
            == Subject(policy[..n], req) + if policy[n].obj.Some? then Of(req, policy[n].obj.value) else []
  {
  }

  lemma Unmoved(policy: seq<Line>, req: Name, subject: Name, at: seq<(nat, nat)>)
    requires policy != [] && policy[|policy| - 1].obj.None? && SubjectAt(policy[..|policy| - 1], req, subject, at)
    ensures SubjectAt(policy, req, subject + [], at)
  {
    assert subject + [] == subject;
    forall p | PlaceOk(policy, req, p)
      ensures p in at
    {
      assert PlaceOk(policy[..|policy| - 1], req, p);
    }
  }

  lemma MorePlaced(policy: seq<Line>, req: Name, at: seq<(nat, nat)>, es: seq<nat>, more: seq<(nat, nat)>)
    requires policy != [] && policy[|policy| - 1].obj.Some?
    requires var n := |policy| - 1;
             && Placed(policy[..n], req, Subject(policy[..n], req), at)
             && Selects(req, Of(req, policy[n].obj.value), es)
             && (forall i :: 0 <= i < |req| ==> (i in es <==> req[i].obj == policy[n].obj.value))
             && |more| == |es| && forall i :: 0 <= i < |es| ==> more[i] == (n, es[i])
    ensures Placed(policy, req, Subject(policy, req), at + more)
  {
    SubjectLast(policy, req);
    hide Subject, Of;
    var all := at + more;
    forall k | 0 <= k < |all|
      ensures PlaceOk(policy, req, all[k]) && Subject(policy, req)[k] == req[all[k].1]
    {
      if k < |at| {
        assert PlaceOk(policy[..|policy| - 1], req, at[k]);
      } else {
        assert es[k - |at|] in es;
      }
    }
  }

  lemma MoreOrdered(policy: seq<Line>, req: Name, at: seq<(nat, nat)>, es: seq<nat>, more: seq<(nat, nat)>)
    requires policy != [] && SubjectAt(policy[..|policy| - 1], req, Subject(policy[..|policy| - 1], req), at)
    requires |more| == |es| && forall i :: 0 <= i < |es| ==> more[i] == (|policy| - 1, es[i])
    requires forall j, k :: 0 <= j < k < |es| ==> es[j] < es[k]
    ensures forall j, k :: 0 <= j < k < |at + more| ==> Before((at + more)[j], (at + more)[k])
  {
    hide Subject;
    assert forall k :: 0 <= k < |at| ==> PlaceOk(policy[..|policy| - 1], req, at[k]);
  }

  lemma MoreComplete(policy: seq<Line>, req: Name, at: seq<(nat, nat)>, es: seq<nat>, more: seq<(nat, nat)>)
    requires policy != [] && policy[|policy| - 1].obj.Some?
    requires forall p :: PlaceOk(policy[..|policy| - 1], req, p) ==> p in at
    requires forall i :: 0 <= i < |req| ==> (i in es <==> req[i].obj == policy[|policy| - 1].obj.value)
    requires |more| == |es| && forall i :: 0 <= i < |es| ==> more[i] == (|policy| - 1, es[i])
    ensures forall p :: PlaceOk(policy, req, p) ==> p in at + more
  {
    forall p | PlaceOk(policy, req, p)
      ensures p in at + more
    {
      if p.0 == |policy| - 1 {
        var k :| 0 <= k < |es| && es[k] == p.1;
        assert more[k] == p;
      } else {
        assert PlaceOk(policy[..|policy| - 1], req, p);
      }
    }
  }

  // ---- the loops -----------------------------------------------------------------------

  /** X509_NAME_get_index_by_OBJ: the next position of the type after `last`, or -1. */
  method NextOf(name: Name, obj: nat, last: int) returns (j: int)
    requires -1 <= last
    ensures j == -1 || (last < j < |name| && name[j].obj == obj)
    ensures forall k :: last < k < (if j == -1 then |name| else j) ==> name[k].obj != obj
  {
    j := last + 1;
    while j < |name|
      invariant last < j
      invariant forall k :: last < k < j && k < |name| ==> name[k].obj != obj
    {
      if name[j].obj == obj { return; }
      j := j + 1;
    }
    j := -1;
  }

  lemma {:induction false} OfSkips(name: Name, obj: nat, a: nat, b: nat)
    requires a <= b <= |name|
    requires forall k :: a <= k < b ==> name[k].obj != obj
    ensures Of(name[..b], obj) == Of(name[..a], obj)
    decreases b - a
  {
    if a < b {
      OfSkips(name, obj, a, b - 1);
      assert name[..b][..b - 1] == name[..b - 1];
    }
  }

  /** Reaching the next entry of a type extends the list of its entries by that entry. */
  lemma OfNext(name: Name, obj: nat, last: int, j: int)
    requires -1 <= last < j < |name| && name[j].obj == obj
    requires forall k :: last < k < j ==> name[k].obj != obj
    ensures Of(name[..j + 1], obj) == Of(name[..last + 1], obj) + [name[j]]
  {
    OfSkips(name, obj, last + 1, j);
    assert name[..j + 1][..j] == name[..j];
  }

  lemma OfEnd(name: Name, obj: nat, last: int)
    requires -1 <= last < |name|
    requires forall k :: last < k < |name| ==> name[k].obj != obj
    ensures Of(name, obj) == Of(name[..last + 1], obj)
  {
    OfSkips(name, obj, last + 1, |name|);
    assert name[..|name|] == name;
  }

  /** The again2 loop: a CA entry of the same type with the same string, or -1. */
  method MatchInCa(ca: Name, e: Entry) returns (j: int)
    ensures j == -1 || (0 <= j < |ca| && ca[j] == e)
    ensures j == -1 ==> e !in ca
  {
    var last2 := -1;
    while true
      invariant -1 <= last2 < |ca|
      invariant forall k :: 0 <= k <= last2 ==> ca[k] != e
      decreases |ca| - last2
    {
      j := NextOf(ca, e.obj, last2);
      if j < 0 { return; }
      last2 := j;
      if ca[j].value == e.value { return; }
    }
  }

  /** One turn of the outer loop over a known object. */
  method CheckLine(rule: string, obj: nat, req: Name, ca: Name, subject: Name) returns (r: Option<Name>)
    ensures r.Some? <==> LineHolds(Line(Some(obj), rule), req, ca)
    ensures r.Some? ==> r.value == subject + Of(req, obj)
  {
    var last, out := -1, subject;
    assert req[..0] == [];
    while true
      invariant -1 <= last < |req|
      invariant out == subject + Of(req[..last + 1], obj)
      invariant last >= 0 ==> req[last].obj == obj && (rule == "optional" || rule == "supplied" || rule == "match")
      invariant last >= 0 && rule == "match" ==> forall e :: e in Of(req[..last + 1], obj) ==> e in ca
      decreases |req| - last
    {
      var j := NextOf(req, obj, last);
      if j < 0 {
        if last != -1 {
          OfEnd(req, obj, last);
          break;
        }
        OfSkips(req, obj, 0, |req|);
        assert req[..|req|] == req;
        if rule != "optional" { return None; }
        break;
      }
      OfNext(req, obj, last, j);
      var tne := req[j];
      last := j;
      var push := tne;
      if rule == "match" {
        var k := MatchInCa(ca, tne);
        if k < 0 {
          assert tne in Of(req, obj);
          return None;
        }
        push := ca[k];
      } else if rule != "optional" && rule != "supplied" {
        return None;
      }
      out := out + [push];
    }
    r := Some(out);
  }

  /** The request has an entry of the type. */
  predicate Has(name: Name, obj: nat) {
    exists k :: 0 <= k < |name| && name[k].obj == obj
  }

  /** An optional line always holds, a supplied one with an entry, a match one if all of them are the CA's. */
  lemma LineMeans(line: Line, req: Name, ca: Name)
    ensures LineHolds(line, req, ca)
       <==> (&& line.obj.Some?
             && (|| line.rule == "optional"
                 || (line.rule == "supplied" && Has(req, line.obj.value))
                 || (&& line.rule == "match" && Has(req, line.obj.value)
                     && forall k :: 0 <= k < |req| && req[k].obj == line.obj.value ==> req[k] in ca)))
  {
    if line.obj.Some? {
      var at := OfByPosition(req, line.obj.value);
      var es := Of(req, line.obj.value);
      hide Of;
      if k :| 0 <= k < |req| && req[k].obj == line.obj.value { assert k in at && req[k] in es; }
      if es != [] { assert es[0] in es && req[at[0]].obj == line.obj.value; }
    }
  }

  /**
   The policy loop: it succeeds exactly when every line is known and holds, and
   then the subject is made of all request entries the policy names.
   */
  method CheckPolicy(policy: seq<Line>, req: Name, ca: Name) returns (r: Option<Name>)
    ensures r.Some? <==> forall i :: 0 <= i < |policy| ==> LineHolds(policy[i], req, ca)
    ensures r.Some? ==> r.value == Subject(policy, req)
    ensures r.Some? ==> exists at :: SubjectAt(policy, req, r.value, at)
  {
    hide SubjectAt, LineHolds, Of;
    ghost var positions := SubjectByPosition(policy, req);
    var subject: Name := [];
    for i := 0 to |policy|
      invariant forall k :: 0 <= k < i ==> LineHolds(policy[k], req, ca)
      invariant subject == Subject(policy[..i], req)
    {
      if policy[i].obj.None? {
        LineMeans(policy[i], req, ca);
        return None;
      }
      var next := CheckLine(policy[i].rule, policy[i].obj.value, req, ca, subject);
      if next.None? { return None; }
      assert policy[..i + 1][..i] == policy[..i];
      subject := next.value;
    }
    assert policy[..|policy|] == policy;
    r := Some(subject);
  }

  /** Everything but the entries of one type, in order. */
  function Without(name: Name, obj: nat): (es: Name)
    ensures forall e :: e in es <==> e in name && e.obj != obj
  {
    if name == [] then []
    else (if name[0].obj == obj then [] else [name[0]]) + Without(name[1..], obj)
  }

  lemma {:induction false} WithoutLast(name: Name, obj: nat)
    requires name != []
    ensures var n := |name| - 1;
            Without(name, obj) == Without(name[..n], obj) + if name[n].obj == obj then [] else [name[n]]
    decreases |name|
  {
    hide Without;
    var n := |name| - 1;
    var last: Name := if name[n].obj == obj then [] else [name[n]];
    WithoutStep(name, obj);
    WithoutNone(obj);
    if n == 0 {
      assert name[1..] == [] && name[..0] == [];
      assert last + [] == last && [] + last == last;
    } else {
      var front: Name := if name[0].obj == obj then [] else [name[0]];
      WithoutLast(name[1..], obj);
      WithoutStep(name[..n], obj);
      assert name[1..][..n - 1] == name[..n][1..] && name[1..][n - 1] == name[n] && name[..n][0] == name[0];
      Assoc(front, Without(name[..n][1..], obj), last);
    }
  }

  lemma WithoutNone(obj: nat)
    ensures Without([], obj) == []
  {
  }

  /** What is left by position: all entries of other types, in order, each once. */
  lemma {:induction false} WithoutByPosition(name: Name, obj: nat) returns (at: seq<nat>)
    ensures Selects(name, Without(name, obj), at)
    ensures forall i :: 0 <= i < |name| ==> (i in at <==> name[i].obj != obj)
    decreases |name|
  {
    hide Without;
    WithoutNone(obj);
    at := [];
    if name != [] {
      hide Selects;
      var n := |name| - 1;
      at := WithoutByPosition(name[..n], obj);
      WithoutLast(name, obj);
      SelectsMore(name, Without(name[..n], obj), at);
      assert Without(name[..n], obj) + [] == Without(name[..n], obj);
      assert forall i :: 0 <= i < n ==> name[..n][i] == name[i];
      if name[n].obj != obj { at := at + [n]; }
    }
  }

  lemma {:induction false} WithoutClean(name: Name, obj: nat)
    requires forall k :: 0 <= k < |name| ==> name[k].obj != obj
    ensures Without(name, obj) == name
    decreases |name|
  {
    if name != [] { WithoutClean(name[1..], obj); }
  }

  lemma {:induction false} WithoutDeleted(name: Name, obj: nat, i: nat)
    requires i < |name| && name[i].obj == obj
    ensures Without(name[..i] + name[i + 1..], obj) == Without(name, obj)
    decreases i
  {
    hide Without;
    WithoutStep(name, obj);
    if i == 0 {
      assert name[..0] + name[1..] == name[1..] && [] + Without(name[1..], obj) == Without(name[1..], obj);
    } else {
      WithoutDeleted(name[1..], obj, i - 1);
      var less := name[..i] + name[i + 1..];
      assert less[1..] == name[1..][..i - 1] + name[1..][i..] && less[0] == name[0];
      WithoutStep(less, obj);
    }
  }

  lemma WithoutStep(name: Name, obj: nat)
    requires name != []
    ensures Without(name, obj) == (if name[0].obj == obj then [] else [name[0]]) + Without(name[1..], obj)
  {
  }

  /** The deletion loop run when no e-mail is wanted in the subject. */
  method DropEntries(subject: Name, obj: nat) returns (dn: Name)
    ensures dn == Without(subject, obj)
  {
    dn := subject;
    var i := -1;
    while true
      invariant -1 <= i
      invariant forall k :: 0 <= k <= i && k < |dn| ==> dn[k].obj != obj
      invariant Without(dn, obj) == Without(subject, obj)
      decreases |dn|
    {
      i := NextOf(dn, obj, i);
      if i < 0 { break; }
      WithoutDeleted(dn, obj, i);
      dn := dn[..i] + dn[i + 1..];
      i := i - 1;
    }
    WithoutClean(dn, obj);
  }
}
