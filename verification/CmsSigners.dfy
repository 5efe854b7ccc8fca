/**
 How `openssl cms -sign` pairs -signer, -inkey and -keyopt options
 (apps/cms.c): the option loop with its pending signer and key, the list of
 parameter nodes, the final append and the lookup for each signer.
 */
module CmsSigners {
  import opened CText

  datatype Opt = Signer(file: string) | Inkey(file: string) | Keyopt(text: string)

  // ---- the grouping that is meant ------------------------------------------------------

  /** The signer option of a group, if it has one. */
  function SignerOf(g: seq<Opt>): Option<string> {
    if g == [] then None
    else if g[|g| - 1].Signer? then Some(g[|g| - 1].file)
    else SignerOf(g[..|g| - 1])
  }

  function KeyOf(g: seq<Opt>): Option<string> {
    if g == [] then None
    else if g[|g| - 1].Inkey? then Some(g[|g| - 1].file)
    else KeyOf(g[..|g| - 1])
  }

  function KeyoptsOf(g: seq<Opt>): seq<string> {
    if g == [] then []
    else KeyoptsOf(g[..|g| - 1]) + if g[|g| - 1].Keyopt? then [g[|g| - 1].text] else []
  }

  /** Whether an option is the second of its kind in a group. */
  predicate Second(g: seq<Opt>, o: Opt) {
    (o.Signer? && SignerOf(g).Some?) || (o.Inkey? && KeyOf(g).Some?)
  }

  /** The options cut into groups: a second signer or a second key starts the next group. */
  function Groups(opts: seq<Opt>): seq<seq<Opt>> {
    if opts == [] then []
    else AddTo(Groups(opts[..|opts| - 1]), opts[|opts| - 1])
  }

  function AddTo(gs: seq<seq<Opt>>, o: Opt): seq<seq<Opt>> {
    if gs == [] || Second(gs[|gs| - 1], o) then gs + [[o]]
    else gs[..|gs| - 1] + [gs[|gs| - 1] + [o]]
  }

  function Concat(gs: seq<seq<Opt>>): seq<Opt> {
    if gs == [] then [] else Concat(gs[..|gs| - 1]) + gs[|gs| - 1]
  }

  function Count(g: seq<Opt>, p: Opt -> bool): nat {
    if g == [] then 0 else Count(g[..|g| - 1], p) + if p(g[|g| - 1]) then 1 else 0
  }

  /** No group has two signers or two keys. */
  ghost predicate AtMostOne(g: seq<Opt>) {
    && Count(g, (o: Opt) => o.Signer?) == (if SignerOf(g).Some? then 1 else 0)
    && Count(g, (o: Opt) => o.Inkey?) == (if KeyOf(g).Some? then 1 else 0)
  }

  /** A grouping that cuts the options as late as it can. */
  ghost predicate Greedy(gs: seq<seq<Opt>>) {
    && (forall i :: 0 <= i < |gs| ==> gs[i] != [] && AtMostOne(gs[i]))
    && (forall i :: 0 < i < |gs| && gs[i] != [] ==> Second(gs[i - 1], gs[i][0]))
  }

  /** Groups is the greedy grouping: nothing lost, nothing reordered, no group too full or cut too early. */
  lemma {:induction false} GroupsGreedy(opts: seq<Opt>)
    ensures Concat(Groups(opts)) == opts && Greedy(Groups(opts))
    decreases |opts|
  {
    if opts != [] {
      var o := opts[|opts| - 1];
      GroupsGreedy(opts[..|opts| - 1]);
      AddGreedy(Groups(opts[..|opts| - 1]), o);
      assert opts == opts[..|opts| - 1] + [o];
    }
  }

  lemma AddGreedy(gs: seq<seq<Opt>>, o: Opt)
    requires Greedy(gs)
    ensures Greedy(AddTo(gs, o)) && Concat(AddTo(gs, o)) == Concat(gs) + [o]
  {
    hide AtMostOne, SignerOf, KeyOf;
    var r := AddTo(gs, o);
    if gs == [] || Second(gs[|gs| - 1], o) {
      assert r[..|r| - 1] == gs;
      Single(o);
    } else {
      var last := gs[|gs| - 1];
      assert r[..|r| - 1] == gs[..|gs| - 1];
      assert Concat(r) == Concat(gs[..|gs| - 1]) + (last + [o]);
      Extended(last, o);
      assert (last + [o])[0] == last[0];
    }
  }

  lemma Single(o: Opt)
    ensures AtMostOne([o])
  {
    assert [o][..0] == [];
  }

  lemma Extended(g: seq<Opt>, o: Opt)
    requires AtMostOne(g) && !Second(g, o)
    ensures AtMostOne(g + [o])
    ensures SignerOf(g + [o]) == if o.Signer? then Some(o.file) else SignerOf(g)
    ensures KeyOf(g + [o]) == if o.Inkey? then Some(o.file) else KeyOf(g)
    ensures KeyoptsOf(g + [o]) == KeyoptsOf(g) + if o.Keyopt? then [o.text] else []
  {
    assert (g + [o])[..|g|] == g;
  }

  /** The options are accepted: they do not start with a parameter, and every group has a signer. */
  predicate Accepted(opts: seq<Opt>) {
    && opts != [] && !opts[0].Keyopt?
    && forall i :: 0 <= i < |Groups(opts)| ==> SignerOf(Groups(opts)[i]).Some?
  }

  /** What is handed to CMS_add1_signer: certificate, key and key parameters. */
  datatype Job = Job(signer: string, key: string, params: Option<seq<string>>)

  /** A group's job: its key defaults to its signer. */
  function JobOf(g: seq<Opt>): Job
    requires SignerOf(g).Some?
  {
    Job(SignerOf(g).value,
        if KeyOf(g).Some? then KeyOf(g).value else SignerOf(g).value,
        if KeyoptsOf(g) == [] then None else Some(KeyoptsOf(g)))
  }

  lemma {:induction false} SignerAt(g: seq<Opt>)
    ensures SignerOf(g).Some? <==> exists k :: 0 <= k < |g| && g[k].Signer?
    ensures KeyOf(g).Some? <==> exists k :: 0 <= k < |g| && g[k].Inkey?
    decreases |g|
  {
    if g != [] {
      SignerAt(g[..|g| - 1]);
      assert forall k :: 0 <= k < |g| - 1 ==> g[..|g| - 1][k] == g[k];
    }
  }

  lemma {:induction false} CountSome(g: seq<Opt>, p: Opt -> bool, k: nat)
    requires k < |g| && p(g[k])
    ensures Count(g, p) > 0
    decreases |g|
  {
    if k < |g| - 1 { CountSome(g[..|g| - 1], p, k); }
  }

  /** With at most one signer and one key in the group, each is the one found. */
  lemma {:induction false} OnlyOne(g: seq<Opt>, k: nat)
    requires AtMostOne(g) && k < |g|
    ensures g[k].Signer? ==> SignerOf(g) == Some(g[k].file)
    ensures g[k].Inkey? ==> KeyOf(g) == Some(g[k].file)
    decreases |g|
  {
    var n := |g| - 1;
    var signer, key := (o: Opt) => o.Signer?, (o: Opt) => o.Inkey?;
    if k < n {
      if g[k].Signer? { CountSome(g[..n], signer, k); }
      if g[k].Inkey? { CountSome(g[..n], key, k); }
      SignerAt(g[..n]);
      SmallerGroup(g);
      OnlyOne(g[..n], k);
    }
  }

  lemma SmallerGroup(g: seq<Opt>)
    requires AtMostOne(g) && g != []
    ensures AtMostOne(g[..|g| - 1])
  {
    var f := g[..|g| - 1];
    NoneCounted(f);
    SignerAt(f);
  }

  lemma {:induction false} NoneCounted(g: seq<Opt>)
    ensures SignerOf(g).None? <==> Count(g, (o: Opt) => o.Signer?) == 0
    ensures KeyOf(g).None? <==> Count(g, (o: Opt) => o.Inkey?) == 0
    decreases |g|
  {
    if g != [] { NoneCounted(g[..|g| - 1]); }
  }

  /** The parameters of a group by position: the texts of all its -keyopt options, in order. */
  lemma {:induction false} KeyoptsAt(g: seq<Opt>) returns (at: seq<nat>)
    ensures |at| == |KeyoptsOf(g)|
    ensures forall k :: 0 <= k < |at| ==> TextAt(g, at[k], KeyoptsOf(g)[k])
    ensures forall j, k :: 0 <= j < k < |at| ==> at[j] < at[k]
    ensures forall i :: 0 <= i < |g| && g[i].Keyopt? ==> i in at
    decreases |g|
  {
    hide TextAt;
    at := [];
    if g != [] {
      var n := |g| - 1;
      var front := KeyoptsAt(g[..n]);
      var texts := KeyoptsOf(g[..n]);
      forall k | 0 <= k < |front|
        ensures front[k] < n && TextAt(g, front[k], texts[k])
      {
        TextStays(g, front[k], texts[k]);
      }
      forall i | 0 <= i < n && g[i].Keyopt?
        ensures i in front
      {
        assert g[..n][i] == g[i];
      }
      at := front;
      if g[n].Keyopt? {
        LastText(g);
        at := front + [n];
      }
    }
  }

  /** Position i is that of a -keyopt option with this text. */
  predicate TextAt(g: seq<Opt>, i: nat, text: string) {
    i < |g| && g[i] == Keyopt(text)
  }

  lemma TextStays(g: seq<Opt>, i: nat, text: string)
    requires g != [] && TextAt(g[..|g| - 1], i, text)
    ensures i < |g| - 1 && TextAt(g, i, text)
  {
  }

  lemma LastText(g: seq<Opt>)
    requires g != [] && g[|g| - 1].Keyopt?
    ensures TextAt(g, |g| - 1, g[|g| - 1].text)
  {
  }

  /** A job by the options of its group: its signer, its key or else the signer, its parameters if it has any. */
  lemma JobMeans(g: seq<Opt>)
    requires AtMostOne(g) && SignerOf(g).Some?
    ensures exists k :: 0 <= k < |g| && g[k] == Signer(JobOf(g).signer)
    ensures forall k :: 0 <= k < |g| && g[k].Signer? ==> g[k].file == JobOf(g).signer
    ensures forall k :: 0 <= k < |g| && g[k].Inkey? ==> g[k].file == JobOf(g).key
    ensures (forall k :: 0 <= k < |g| ==> !g[k].Inkey?) ==> JobOf(g).key == JobOf(g).signer
    ensures JobOf(g).params.None? <==> forall k :: 0 <= k < |g| ==> !g[k].Keyopt?
    ensures JobOf(g).params.Some? ==> JobOf(g).params.value == KeyoptsOf(g)
  {
    hide SignerOf, KeyOf, KeyoptsOf, AtMostOne;
    SignerAt(g);
    var at := KeyoptsAt(g);
    forall k | 0 <= k < |g|
      ensures g[k].Signer? ==> SignerOf(g) == Some(g[k].file)
      ensures g[k].Inkey? ==> KeyOf(g) == Some(g[k].file)
    {
      OnlyOne(g, k);
    }
    if KeyoptsOf(g) != [] { assert TextAt(g, at[0], KeyoptsOf(g)[0]); }
  }

  // ---- the option loop ---------------------------------------------------------------------

  /** cms_key_param: the parameters given for the key at position idx. */
  datatype KeyParam = KeyParam(idx: nat, param: seq<string>)

  class CmsOptions {
    var signerfile: Option<string>
    var keyfile: Option<string>
    var sksigners: seq<string>
    var skkeys: seq<string>
    var keyParams: seq<KeyParam>

    /** The fields hold the groups seen so far, the last one still pending. */
    ghost predicate Holds(gs: seq<seq<Opt>>)
      reads this
    {
      && |sksigners| == |skkeys| == (if gs == [] then 0 else |gs| - 1)
      && (forall i :: 0 <= i < |sksigners| ==>
            && SignerOf(gs[i]).Some?
            && sksigners[i] == JobOf(gs[i]).signer && skkeys[i] == JobOf(gs[i]).key)
      && signerfile == (if gs == [] then None else SignerOf(gs[|gs| - 1]))
      && keyfile == (if gs == [] then None else KeyOf(gs[|gs| - 1]))
      && keyParams == Params(gs)
      && (gs != [] ==> signerfile.Some? || keyfile.Some?)
    }

    constructor ()
      ensures Holds([])
    {
      signerfile, keyfile, sksigners, skkeys, keyParams := None, None, [], [], [];
    }

    /** -signer */
    method AddSigner(arg: string, ghost gs: seq<seq<Opt>>)
      requires Holds(gs) && Greedy(gs)
      modifies this
      ensures Holds(AddTo(gs, Signer(arg)))
    {
      hide SignerOf, KeyOf, KeyoptsOf, Params, AddTo, Greedy;
      ghost var o := Signer(arg);
      if signerfile.Some? {
        sksigners := sksigners + [signerfile.value];
        if keyfile.None? { keyfile := signerfile; }
        skkeys := skkeys + [keyfile.value];
        keyfile := None;
        NewGroup(gs, o);
      } else if gs == [] {
        FirstGroup(o);
      } else {
        GrowGroup(gs, o);
      }
      signerfile := Some(arg);
    }

    /** -inkey: fails when a second key comes before any signer. */
    method AddKey(arg: string, ghost gs: seq<seq<Opt>>) returns (ok: bool)
      requires Holds(gs) && Greedy(gs)
      modifies this
      ensures ok <==> !(gs != [] && Second(gs[|gs| - 1], Inkey(arg)) && SignerOf(gs[|gs| - 1]).None?)
      ensures ok ==> Holds(AddTo(gs, Inkey(arg)))
    {
      hide SignerOf, KeyOf, KeyoptsOf, Params, AddTo, Greedy;
      ghost var o := Inkey(arg);
      if keyfile.Some? {
        if signerfile.None? { return false; }
        sksigners := sksigners + [signerfile.value];
        signerfile := None;
        skkeys := skkeys + [keyfile.value];
        NewGroup(gs, o);
      } else if gs == [] {
        FirstGroup(o);
      } else {
        GrowGroup(gs, o);
      }
      keyfile := Some(arg);
      ok := true;
    }

    /** -keyopt: fails when no key or signer was given yet. */
    method AddKeyopt(arg: string, ghost gs: seq<seq<Opt>>) returns (ok: bool)
      requires Holds(gs) && Greedy(gs)
      modifies this
      ensures ok <==> gs != []
      ensures ok ==> Holds(AddTo(gs, Keyopt(arg)))
    {
      hide SignerOf, KeyOf, Params, JobOf, AddTo, Greedy;
      var keyidx := -1;
      if keyfile.Some? || signerfile.Some? { keyidx := keyidx + 1; }
      keyidx := keyidx + |skkeys|;
      if keyidx < 0 { return false; }
      GrowGroup(gs, Keyopt(arg));
      var n := |keyParams|;
      if n == 0 || keyParams[n - 1].idx != keyidx {
        keyParams := keyParams + [KeyParam(keyidx, [arg])];
      } else {
        keyParams := keyParams[..n - 1] + [KeyParam(keyidx, keyParams[n - 1].param + [arg])];
      }
      ok := true;
    }
  }

  /** The parameter nodes: one for each group that has parameters, in order of position. */
  function Params(gs: seq<seq<Opt>>): (ps: seq<KeyParam>)
    ensures forall j :: 0 <= j < |ps| ==> ps[j].idx < |gs|
    ensures forall j, k :: 0 <= j < k < |ps| ==> ps[j].idx < ps[k].idx
  {
    if gs == [] then []
    else
      var n := |gs| - 1;
      Params(gs[..n]) + Node(n, KeyoptsOf(gs[n]))
  }

  /** The node of the group at position n, none if it has no parameters. */
  function Node(n: nat, texts: seq<string>): seq<KeyParam> {
    if texts == [] then [] else [KeyParam(n, texts)]
  }

  lemma ParamsStep(gs: seq<seq<Opt>>)
    requires gs != []
    ensures var n := |gs| - 1; Params(gs) == Params(gs[..n]) + Node(n, KeyoptsOf(gs[n]))
  {
  }

  /** A second signer or key starts a group with no parameters yet. */
  lemma NewGroup(gs: seq<seq<Opt>>, o: Opt)
    requires gs != [] && Second(gs[|gs| - 1], o)
    ensures AddTo(gs, o) == gs + [[o]]
    ensures SignerOf([o]) == (if o.Signer? then Some(o.file) else None)
    ensures KeyOf([o]) == (if o.Inkey? then Some(o.file) else None)
    ensures Params(AddTo(gs, o)) == Params(gs)
  {
    assert [o][..0] == [];
    assert (gs + [[o]])[..|gs|] == gs;
    assert KeyoptsOf([o]) == [];
  }

  /** Any other option joins the last group. */
  lemma GrowGroup(gs: seq<seq<Opt>>, o: Opt)
    requires Greedy(gs) && gs != [] && !Second(gs[|gs| - 1], o)
    ensures var last, r := gs[|gs| - 1], AddTo(gs, o);
            && |r| == |gs| && (forall i :: 0 <= i < |gs| - 1 ==> r[i] == gs[i])
            && SignerOf(r[|gs| - 1]) == (if o.Signer? then Some(o.file) else SignerOf(last))
            && KeyOf(r[|gs| - 1]) == (if o.Inkey? then Some(o.file) else KeyOf(last))
            && (!o.Keyopt? ==> Params(r) == Params(gs))
            && (o.Keyopt? ==> Params(r) == WithParam(Params(gs), |gs| - 1, o.text))
  {
    hide SignerOf, KeyOf, KeyoptsOf, Params, WithParam, AtMostOne;
    var n, r := |gs| - 1, AddTo(gs, o);
    Extended(gs[n], o);
    assert r[..n] == gs[..n];
    ParamsStep(gs);
    ParamsStep(r);
    if o.Keyopt? {
      WithNode(Params(gs[..n]), n, KeyoptsOf(gs[n]), o.text);
    } else {
      assert KeyoptsOf(gs[n]) + [] == KeyoptsOf(gs[n]);
    }
  }

  lemma WithNode(ps: seq<KeyParam>, n: nat, texts: seq<string>, text: string)
    requires forall j :: 0 <= j < |ps| ==> ps[j].idx < n
    ensures WithParam(ps + Node(n, texts), n, text) == ps + Node(n, texts + [text])
  {
    if texts == [] {
      assert ps + Node(n, texts) == ps && texts + [text] == [text];
    } else {
      Halves(ps, Node(n, texts));
    }
  }

  /** A parameter goes to the last node if that is the node of position n, or else to a new node. */
  function WithParam(ps: seq<KeyParam>, n: nat, text: string): seq<KeyParam> {
    if ps == [] || ps[|ps| - 1].idx != n then ps + [KeyParam(n, [text])]
    else ps[..|ps| - 1] + [KeyParam(n, ps[|ps| - 1].param + [text])]
  }

  lemma FirstGroup(o: Opt)
    ensures AddTo([], o) == [[o]]
    ensures SignerOf([o]) == (if o.Signer? then Some(o.file) else None)
    ensures KeyOf([o]) == (if o.Inkey? then Some(o.file) else None)
    ensures Params([]) == [] && (!o.Keyopt? ==> Params([[o]]) == [])
  {
    assert [o][..0] == [];
    assert [[o]][..0] == [];
    assert KeyoptsOf([o]) == KeyoptsOf([]) + if o.Keyopt? then [o.text] else [];
    assert Params([]) == [];
  }

  method ReadOption(st: CmsOptions, o: Opt, ghost before: seq<Opt>) returns (ok: bool)
    requires st.Holds(Groups(before)) && Readable(before)
    modifies st
    ensures ok <==> Readable(before + [o])
    ensures ok ==> st.Holds(Groups(before + [o]))
  {
    GroupsGreedy(before);
    ReadableStep(before, o);
    hide Groups, Greedy, Readable, AddTo;
    ghost var gs := Groups(before);
    ok := true;
    match o {
      case Signer(f) =>
        SignerAccepted(gs, o);
        st.AddSigner(f, gs);
      case Inkey(f) => ok := st.AddKey(f, gs);
      case Keyopt(t) => ok := st.AddKeyopt(t, gs);
    }
  }

  lemma SignerAccepted(gs: seq<seq<Opt>>, o: Opt)
    requires o.Signer?
    ensures !(gs != [] && Second(gs[|gs| - 1], o) && SignerOf(gs[|gs| - 1]).None?)
  {
  }

  /** The options in order; false as soon as one is refused. */
  method ReadOptions(opts: seq<Opt>) returns (st: CmsOptions, ok: bool)
    ensures fresh(st)
    ensures ok ==> st.Holds(Groups(opts))
    ensures ok <==> Readable(opts)
  {
    hide Groups, Readable, CmsOptions.Holds;
    st := new CmsOptions();
    assert opts[..0] == [];
    NothingRead();
    for k := 0 to |opts|
      invariant fresh(st) && st.Holds(Groups(opts[..k])) && Readable(opts[..k])
    {
      assert opts[..k] + [opts[k]] == opts[..k + 1];
      var fine := ReadOption(st, opts[k], opts[..k]);
      if !fine {
        ReadablePrefix(opts, k + 1);
        return st, false;
      }
    }
    assert opts[..|opts|] == opts;
    ok := true;
  }

  lemma NothingRead()
    ensures Groups([]) == [] && Readable([])
  {
  }

  /** No parameter before the first signer or key, and no group without a signer but the last. */
  predicate Readable(opts: seq<Opt>) {
    && (opts != [] ==> !opts[0].Keyopt?)
    && forall i :: 0 <= i < |Groups(opts)| - 1 ==> SignerOf(Groups(opts)[i]).Some?
  }

  lemma ReadableStep(opts: seq<Opt>, o: Opt)
    requires Readable(opts)
    ensures var gs := Groups(opts);
            && Groups(opts + [o]) == AddTo(gs, o)
            && (gs == [] <==> opts == [])
            && (Readable(opts + [o]) <==>
                  !(o.Keyopt? && gs == [])
                  && !(gs != [] && Second(gs[|gs| - 1], o) && SignerOf(gs[|gs| - 1]).None?))
  {
    assert (opts + [o])[..|opts|] == opts;
    var gs, r := Groups(opts), AddTo(Groups(opts), o);
    GroupsGreedy(opts);
    assert opts == [] ==> gs == [];
    if gs != [] && Second(gs[|gs| - 1], o) {
      assert forall i :: 0 <= i < |gs| ==> r[i] == gs[i];
    } else if gs != [] {
      assert forall i :: 0 <= i < |gs| - 1 ==> r[i] == gs[i];
    }
  }

  /** Once refused, always refused. */
  lemma {:induction false} ReadablePrefix(opts: seq<Opt>, k: nat)
    requires k <= |opts| && !Readable(opts[..k])
    ensures !Readable(opts)
    decreases |opts| - k
  {
    if k == |opts| {
      assert opts[..k] == opts;
    } else {
      assert opts[..k + 1][..k] == opts[..k] && opts[..k] + [opts[k]] == opts[..k + 1];
      Worse(opts[..k], opts[k]);
      ReadablePrefix(opts, k + 1);
    }
  }

  lemma Worse(opts: seq<Opt>, o: Opt)
    requires !Readable(opts)
    ensures !Readable(opts + [o])
  {
    assert (opts + [o])[..|opts|] == opts;
    var gs, r := Groups(opts), AddTo(Groups(opts), o);
    assert opts != [] && (opts + [o])[0] == opts[0];
    if exists i :: 0 <= i < |gs| - 1 && SignerOf(gs[i]).None? {
      var i :| 0 <= i < |gs| - 1 && SignerOf(gs[i]).None?;
      assert r[i] == gs[i] && i < |r| - 1;
      assert Groups(opts + [o]) == r;
    }
  }

  /**
   Option loop, final append and per-signer lookup: accepted exactly when every
   group has a signer and no parameter comes first; then there is one job a group, in
   order, each with the parameters given while its group was pending.
   */
  method PairSigners(opts: seq<Opt>) returns (jobs: Option<seq<Job>>)
    ensures jobs.Some? <==> Accepted(opts)
    ensures jobs.Some? ==> |jobs.value| == |Groups(opts)|
    ensures jobs.Some? ==> forall i :: 0 <= i < |Groups(opts)| ==> jobs.value[i] == JobOf(Groups(opts)[i])
  {
    var st, ok := ReadOptions(opts);
    AcceptedIff(opts);
    if !ok { return None; }
    ghost var gs := Groups(opts);
    hide Groups, Accepted, Readable, SignerOf, KeyOf, KeyoptsOf, Params;
    if st.keyfile.Some? && st.signerfile.None? { return None; }
    var signers, keys, ps := st.sksigners, st.skkeys, st.keyParams;
    if st.signerfile.Some? {
      signers := signers + [st.signerfile.value];
      keys := keys + [if st.keyfile.None? then st.signerfile.value else st.keyfile.value];
    }
    if signers == [] { return None; }
    var out := MakeJobs(signers, keys, ps, gs);
    jobs := Some(out);
  }

  /** Accepted means readable with a signer in the last group. */
  lemma AcceptedIff(opts: seq<Opt>)
    ensures Accepted(opts) <==>
              (Readable(opts) && Groups(opts) != [] && SignerOf(Groups(opts)[|Groups(opts)| - 1]).Some?)
  {
    GroupsGreedy(opts);
    assert opts == [] ==> Groups(opts) == [];
    assert Groups(opts) == [] ==> Concat(Groups(opts)) == [];
  }

  method MakeJobs(signers: seq<string>, keys: seq<string>, ps: seq<KeyParam>, ghost gs: seq<seq<Opt>>)
    returns (out: seq<Job>)
    requires |signers| == |keys| == |gs| && ps == Params(gs)
    requires forall i :: 0 <= i < |gs| ==>
               SignerOf(gs[i]).Some? && signers[i] == JobOf(gs[i]).signer && keys[i] == JobOf(gs[i]).key
    ensures |out| == |gs| && forall i :: 0 <= i < |gs| ==> out[i] == JobOf(gs[i])
  {
    out := [];
    for i := 0 to |signers|
      invariant |out| == i
      invariant forall j :: 0 <= j < i ==> out[j] == JobOf(gs[j])
    {
      var params := FindParams(ps, i, gs);
      out := out + [Job(signers[i], keys[i], params)];
    }
  }

  /** The search through the parameter nodes for one signer. */
  method FindParams(ps: seq<KeyParam>, i: nat, ghost gs: seq<seq<Opt>>) returns (r: Option<seq<string>>)
    requires ps == Params(gs) && i < |gs|
    ensures r == if KeyoptsOf(gs[i]) == [] then None else Some(KeyoptsOf(gs[i]))
  {
    ParamsAt(gs, i);
    for k := 0 to |ps|
      invariant forall j :: 0 <= j < k ==> ps[j].idx != i
    {
      if ps[k].idx == i { return Some(ps[k].param); }
    }
    r := None;
  }

  lemma {:induction false} ParamsAt(gs: seq<seq<Opt>>, i: nat)
    requires i < |gs|
    ensures forall j :: 0 <= j < |Params(gs)| && Params(gs)[j].idx == i ==>
              KeyoptsOf(gs[i]) != [] && Params(gs)[j].param == KeyoptsOf(gs[i])
    ensures KeyoptsOf(gs[i]) != [] ==> exists j :: 0 <= j < |Params(gs)| && Params(gs)[j].idx == i
    decreases |gs|
  {
    hide Params, KeyoptsOf;
    var n := |gs| - 1;
    ParamsStep(gs);
    var ps, node := Params(gs[..n]), Node(n, KeyoptsOf(gs[n]));
    assert forall j :: 0 <= j < |ps| ==> Params(gs)[j] == ps[j];
    if i < n {
      ParamsAt(gs[..n], i);
      assert gs[..n][i] == gs[i];
      if KeyoptsOf(gs[i]) != [] {
        var j :| 0 <= j < |ps| && ps[j].idx == i;
        assert Params(gs)[j].idx == i;
      }
    } else if KeyoptsOf(gs[n]) != [] {
      assert Params(gs)[|ps|] == node[0];
    }
  }
}
