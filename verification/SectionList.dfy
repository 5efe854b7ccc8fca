/**
 Lists of section names in the CMP client (apps/cmp.c): prev_item walks a comma-
 or space-separated list backwards, conf_get_string asks each section in turn.
 */
module SectionList {
  import opened CText

  const SECTION_NAME_MAX := 40

  predicate Sep(c: char) {
    c == ',' || c == ' ' || '\t' <= c <= '\r'
  }

  // ---- what the list means -----------------------------------------------------------

  /** s[a..b] is a whole item: no separator inside, one on each side or the end of the list. */
  ghost predicate Item(s: string, a: nat, b: nat) {
    && a < b <= |s|
    && (forall k :: a <= k < b ==> !Sep(s[k]))
    && (a > 0 ==> Sep(s[a - 1]))
    && (b < |s| ==> Sep(s[b]))
  }

  /** The name looked up for s[a..b]. */
  function NameAt(s: string, a: nat, b: nat): string
    requires a <= b <= |s|
  {
    if b - a > SECTION_NAME_MAX then s[a..a + SECTION_NAME_MAX] else s[a..b]
  }

  /** Separators are the comma and the six white space characters of C. */
  lemma SepIs(c: char)
    ensures Sep(c) <==> c in {',', ' ', '\t', '\n', 11 as char, 12 as char, '\r'}
  {
  }

  /** A name of up to forty characters is taken whole, a longer one is cut to forty. */
  lemma NameMeans(s: string, a: nat, b: nat)
    requires a <= b <= |s|
    ensures b - a <= 40 ==> NameAt(s, a, b) == s[a..b]
    ensures b - a > 40 ==> |NameAt(s, a, b)| == 40 && NameAt(s, a, b) <= s[a..b]
  {
  }

  // ---- one call ------------------------------------------------------------------------

  /** Where the run without separators that ends at `end` begins. */
  function Begin(s: string, end: nat): (a: nat)
    requires end <= |s|
    ensures a <= end
    ensures forall k :: a <= k < end ==> !Sep(s[k])
    ensures a > 0 ==> Sep(s[a - 1])
  {
    if end == 0 || Sep(s[end - 1]) then end else Begin(s, end - 1)
  }

  /** Where the separators before `a` begin. */
  function SkipBack(s: string, a: nat): (e: nat)
    requires a <= |s|
    ensures e <= a
    ensures forall k :: e <= k < a ==> Sep(s[k])
    ensures e > 0 ==> !Sep(s[e - 1])
  {
    if a == 0 || !Sep(s[a - 1]) then a else SkipBack(s, a - 1)
  }

  /** prev_item: the new end position and the item, or None at the start of the list. */
  method PrevItem(opt: string, end: nat) returns (r: Option<(nat, string)>)
    requires end <= |opt|
    ensures r == if end == 0 then None
                 else Some((SkipBack(opt, Begin(opt, end)), NameAt(opt, Begin(opt, end), end)))
  {
    if end == 0 { return None; }
    var beg := end;
    while beg > 0
      invariant 0 <= beg <= end && Begin(opt, beg) == Begin(opt, end)
    {
      beg := beg - 1;
      if Sep(opt[beg]) {
        beg := beg + 1;
        break;
      }
    }
    assert beg == Begin(opt, end);
    var len := end - beg;
    if len > SECTION_NAME_MAX { len := SECTION_NAME_MAX; }
    var item := opt[beg..beg + len];
    ghost var start := beg;
    while beg > 0
      invariant 0 <= beg <= start && SkipBack(opt, beg) == SkipBack(opt, start)
    {
      beg := beg - 1;
      if !Sep(opt[beg]) {
        beg := beg + 1;
        break;
      }
    }
    r := Some((beg, item));
  }

  // ---- all calls ---------------------------------------------------------------------------

  /** The runs met by calling prev_item until it stops, from position `end`. */
  function Met(s: string, end: nat): (ms: seq<(nat, nat)>)
    requires end <= |s|
    ensures forall m :: m in ms ==> m.0 <= m.1 <= end
    decreases end
  {
    if end == 0 then []
    else
      var a := Begin(s, end);
      assert a == end ==> Sep(s[end - 1]);
      [(a, end)] + Met(s, SkipBack(s, a))
  }

  /** Each call moves strictly to the left, so the calls come to an end. */
  lemma PrevItemMoves(s: string, end: nat)
    requires 0 < end <= |s|
    ensures SkipBack(s, Begin(s, end)) < end
  {
    if Begin(s, end) == end { assert Sep(s[end - 1]); }
  }

  /**
   From the end of the list, the runs met are exactly its items, from last to first, and
   one empty run in front of them when the list ends in a separator.
   */
  lemma MetAreItems(s: string)
    ensures var ms := Met(s, |s|);
            && (forall a: nat, b: nat :: a < b ==> ((a, b) in ms <==> Item(s, a, b)))
            && (forall i, j :: 0 <= i < j < |ms| ==> ms[j].1 < ms[i].0)
            && (forall i :: 0 <= i < |ms| && ms[i].0 == ms[i].1 ==> i == 0)
            && (ms != [] && ms[0].0 == ms[0].1 <==> s != "" && Sep(s[|s| - 1]))
  {
    forall a: nat, b: nat | a < b
      ensures (a, b) in Met(s, |s|) <==> Item(s, a, b)
    {
      MetFrom(s, |s|, a, b);
    }
    MetOrder(s, |s|);
  }

  /** An item that ends at or before `end` is the run that ends there, or ends before its separators. */
  lemma ItemCases(s: string, end: nat, a: nat, b: nat)
    requires 0 < end <= |s| && (end == |s| || Sep(s[end]))
    ensures var x := Begin(s, end);
            Item(s, a, b) && b <= end <==> (a == x && b == end && x < end) || (Item(s, a, b) && b <= SkipBack(s, x))
  {
    var x := Begin(s, end);
    var e := SkipBack(s, x);
    if Item(s, a, b) && e < b <= end {
      assert !Sep(s[b - 1]);
      assert b > x;
      assert b == end;
    }
  }

  lemma {:induction false} MetFrom(s: string, end: nat, a: nat, b: nat)
    requires end <= |s| && a < b
    requires end == 0 || end == |s| || Sep(s[end])
    ensures (a, b) in Met(s, end) <==> Item(s, a, b) && b <= end
    decreases end
  {
    if end > 0 {
      PrevItemMoves(s, end);
      ItemCases(s, end, a, b);
      MetFrom(s, SkipBack(s, Begin(s, end)), a, b);
    }
  }

  lemma {:induction false} MetOrder(s: string, end: nat)
    requires end <= |s|
    ensures var ms := Met(s, end);
            && (forall i, j :: 0 <= i < j < |ms| ==> ms[j].1 < ms[i].0)
            && (forall i :: 0 < i < |ms| ==> ms[i].0 < ms[i].1)
            && (end > 0 ==> ms != [] && ms[0].1 == end && (ms[0].0 == end <==> Sep(s[end - 1])))
    decreases end
  {
    if end > 0 {
      PrevItemMoves(s, end);
      MetOrder(s, SkipBack(s, Begin(s, end)));
    }
  }

  // ---- the lookup ------------------------------------------------------------------------------

  /** The value of the first run, in the order met, whose name is defined. */
  function FirstDefined(s: string, ms: seq<(nat, nat)>, lookup: string -> Option<string>): Option<string>
    requires forall m :: m in ms ==> m.0 <= m.1 <= |s|
  {
    if ms == [] then None
    else
      var v := lookup(NameAt(s, ms[0].0, ms[0].1));
      if v.Some? then v else FirstDefined(s, ms[1..], lookup)
  }

  /** conf_get_string; `lookup` is the value of the wanted name in a section. */
  method ConfGetString(groups: string, lookup: string -> Option<string>) returns (res: Option<string>)
    ensures res == FirstDefined(groups, Met(groups, |groups|), lookup)
    ensures Rightmost(groups, lookup, res)
  {
    hide Rightmost;
    RightmostWins(groups, lookup);
    var end := |groups|;
    while true
      invariant 0 <= end <= |groups|
      invariant FirstDefined(groups, Met(groups, end), lookup) == FirstDefined(groups, Met(groups, |groups|), lookup)
      decreases end
    {
      var prev := PrevItem(groups, end);
      if prev.None? { return None; }
      PrevItemMoves(groups, end);
      assert Met(groups, end)[1..] == Met(groups, prev.value.0);
      res := lookup(prev.value.1);
      if res.Some? { return; }
      end := prev.value.0;
    }
  }

  /** The answer comes from the first run that defines the name. */
  lemma {:induction false} FirstRunWins(s: string, ms: seq<(nat, nat)>, lookup: string -> Option<string>)
    requires forall m :: m in ms ==> m.0 <= m.1 <= |s|
    ensures FirstDefined(s, ms, lookup).Some? ==>
              exists i :: 0 <= i < |ms| && lookup(NameAt(s, ms[i].0, ms[i].1)) == FirstDefined(s, ms, lookup)
                          && forall j :: 0 <= j < i ==> lookup(NameAt(s, ms[j].0, ms[j].1)).None?
    ensures FirstDefined(s, ms, lookup).None? ==>
              forall i :: 0 <= i < |ms| ==> lookup(NameAt(s, ms[i].0, ms[i].1)).None?
    decreases |ms|
  {
    if ms != [] {
      FirstRunWins(s, ms[1..], lookup);
      var v := lookup(NameAt(s, ms[0].0, ms[0].1));
      if v.None? && FirstDefined(s, ms, lookup).Some? {
        var i :| 0 <= i < |ms[1..]| && lookup(NameAt(s, ms[1..][i].0, ms[1..][i].1)) == FirstDefined(s, ms[1..], lookup)
                 && forall j :: 0 <= j < i ==> lookup(NameAt(s, ms[1..][j].0, ms[1..][j].1)).None?;
        assert forall j :: 0 < j < i + 1 ==> ms[j] == ms[1..][j - 1];
        assert ms[i + 1] == ms[1..][i];
      }
    }
  }

  /** What is looked up in the option text: its items, and an empty name behind a separator at its end. */
  ghost predicate Asked(s: string, a: nat, b: nat) {
    Item(s, a, b) || (a == b == |s| && s != "" && Sep(s[|s| - 1]))
  }

  lemma AskedAreMet(s: string, a: nat, b: nat)
    ensures Asked(s, a, b) <==> (a, b) in Met(s, |s|)
  {
    hide Met;
    MetAreItems(s);
    MetOrder(s, |s|);
    var ms := Met(s, |s|);
    if (a, b) in ms && a >= b {
      var i :| 0 <= i < |ms| && ms[i] == (a, b);
    }
    if a == b == |s| && s != "" && Sep(s[|s| - 1]) { assert ms[0] == (a, b); }
  }

  /**
   The value is that of the right-most item of the option text whose section defines the
   name, and there is none exactly when no item's section does.
   */
  ghost predicate Rightmost(s: string, lookup: string -> Option<string>, r: Option<string>) {
    && (r.None? ==> forall a: nat, b: nat :: Asked(s, a, b) ==> lookup(NameAt(s, a, b)).None?)
    && (r.Some? ==> exists a: nat, b: nat :: Asked(s, a, b) && lookup(NameAt(s, a, b)) == r
                      && forall c: nat, d: nat :: Asked(s, c, d) && c > a ==> lookup(NameAt(s, c, d)).None?)
  }

  /** Of the runs met, one further right came before. */
  lemma MetBefore(s: string, i: nat, c: nat, d: nat) returns (j: nat)
    requires i < |Met(s, |s|)| && Asked(s, c, d) && c > Met(s, |s|)[i].0
    ensures j < i && Met(s, |s|)[j] == (c, d)
  {
    hide Met, Asked, Item;
    AskedAreMet(s, c, d);
    MetOrder(s, |s|);
    var ms := Met(s, |s|);
    j :| 0 <= j < |ms| && ms[j] == (c, d);
  }

  /** Walking the list backwards finds the right-most value. */
  lemma RightmostWins(s: string, lookup: string -> Option<string>)
    ensures Rightmost(s, lookup, FirstDefined(s, Met(s, |s|), lookup))
  {
    hide NameAt, FirstDefined, Met, Sep;
    var ms := Met(s, |s|);
    FirstRunWins(s, ms, lookup);
    var r := FirstDefined(s, ms, lookup);
    if r.None? {
      forall a: nat, b: nat | Asked(s, a, b)
        ensures lookup(NameAt(s, a, b)).None?
      {
        AskedAreMet(s, a, b);
      }
    } else {
      var i :| 0 <= i < |ms| && lookup(NameAt(s, ms[i].0, ms[i].1)) == r
               && forall j :: 0 <= j < i ==> lookup(NameAt(s, ms[j].0, ms[j].1)).None?;
      AskedAreMet(s, ms[i].0, ms[i].1);
      forall c: nat, d: nat | Asked(s, c, d) && c > ms[i].0
        ensures lookup(NameAt(s, c, d)).None?
      {
        var j := MetBefore(s, i, c, d);
      }
    }
  }
}
