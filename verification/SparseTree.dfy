/**
 The sparse array of crypto/sparse_array.c: a radix tree of 16-way blocks that
 grows by pushing its root down. The tree reads like a map, keeps the least
 height for its largest index, counts its elements, and is traversed in order.
 */
module SparseTree {
  import opened CText

  const BLOCK := 16
  const MAX_LEVELS := 16
  const UINTMAX := 0x1_0000_0000_0000_0000

  type Index = n: int | 0 <= n < UINTMAX

  // ---- indices -----------------------------------------------------------------------

  /** n >> 4 * k */
  function Shift(n: nat, k: nat): nat
    decreases k
  {
    if k == 0 then n else Shift(n / BLOCK, k - 1)
  }

  /** (n >> 4 * k) & 15 */
  function Digit(n: nat, k: nat): (d: nat)
    ensures d < BLOCK
  {
    Shift(n, k) % BLOCK
  }

  function Pow16(k: nat): (p: nat)
    ensures p > 0
  {
    if k == 0 then 1 else BLOCK * Pow16(k - 1)
  }

  lemma {:induction false} ShiftNext(n: nat, k: nat)
    ensures Shift(n, k + 1) == Shift(n, k) / BLOCK
    decreases k
  {
    if k > 0 { ShiftNext(n / BLOCK, k - 1); }
  }

  /** Nothing is left after k shifts exactly when the index fits in k digits. */
  lemma {:induction false} ShiftZero(n: nat, k: nat)
    ensures Shift(n, k) == 0 <==> n < Pow16(k)
    decreases k
  {
    if k > 0 { ShiftZero(n / BLOCK, k - 1); }
  }

  lemma {:induction false} ShiftMonotone(a: nat, b: nat, k: nat)
    requires a <= b
    ensures Shift(a, k) <= Shift(b, k)
    decreases k
  {
    if k > 0 { ShiftMonotone(a / BLOCK, b / BLOCK, k - 1); }
  }

  /** The least height h >= 1 that holds index n. */
  ghost predicate LeastHeight(n: nat, h: nat) {
    h >= 1 && n < Pow16(h) && (h > 1 ==> n >= Pow16(h - 1))
  }

  /** No smaller height holds it. */
  lemma LeastIs(n: nat, h: nat, k: nat)
    requires LeastHeight(n, h) && k >= 1 && n < Pow16(k)
    ensures n < Pow16(h) && h <= k
  {
    if k < h { PowMonotone(k, h - 1); }
  }

  lemma {:induction false} PowMonotone(a: nat, b: nat)
    requires a <= b
    ensures Pow16(a) <= Pow16(b)
    decreases b - a
  {
    if a < b { PowMonotone(a, b - 1); }
  }

  // ---- trees ---------------------------------------------------------------------------

  /** What a pointer in a block leads to. */
  datatype Slot<T> = Null | Val(v: T) | Node(slots: seq<Slot<T>>)

  function Empty<T>(): (t: Slot<T>) {
    Node(seq(BLOCK, i => Null))
  }

  /** A pointer to a block `h` levels above the values, or no block. */
  ghost predicate Shape<T>(t: Slot<T>, h: nat)
    decreases h
  {
    || t.Null?
    || (&& h > 0 && t.Node? && |t.slots| == BLOCK
        && forall i :: 0 <= i < BLOCK ==>
             if h == 1 then !t.slots[i].Node? else Shape(t.slots[i], h - 1))
  }

  /** The value under the low h digits of n. */
  ghost function TreeGet<T>(t: Slot<T>, h: nat, n: nat): Slot<T>
    requires Shape(t, h)
    decreases h
  {
    if t.Null? then Null
    else
      var s := t.slots[Digit(n, h - 1)];
      if h == 1 then s else TreeGet(s, h - 1, n)
  }

  /** Store under the low h digits of n, allocating blocks on the way. */
  ghost function TreePut<T>(t: Slot<T>, h: nat, n: nat, x: Slot<T>): (r: Slot<T>)
    requires h > 0 && Shape(t, h) && !x.Node?
    ensures r.Node? && Shape(r, h)
    decreases h
  {
    var slots := if t.Null? then Empty<T>().slots else t.slots;
    var i := Digit(n, h - 1);
    if h == 1 then Node(slots[i := x]) else Node(slots[i := TreePut(slots[i], h - 1, n, x)])
  }

  ghost predicate SameLow(a: nat, b: nat, h: nat) {
    forall k :: 0 <= k < h ==> Digit(a, k) == Digit(b, k)
  }

  lemma {:induction false} PutGet<T>(t: Slot<T>, h: nat, n: nat, x: Slot<T>, m: nat)
    requires h > 0 && Shape(t, h) && !x.Node?
    ensures TreeGet(TreePut(t, h, n, x), h, m) == if SameLow(n, m, h) then x else TreeGet(t, h, m)
    decreases h
  {
    var slots := if t.Null? then Empty<T>().slots else t.slots;
    var i, j := Digit(n, h - 1), Digit(m, h - 1);
    if h > 1 {
      if i == j {
        PutGet(slots[i], h - 1, n, x, m);
      }
      assert SameLow(n, m, h) <==> i == j && SameLow(n, m, h - 1);
    } else {
      assert SameLow(n, m, 1) <==> i == j;
    }
  }

  lemma {:induction false} SameLowEqual(a: nat, b: nat, h: nat)
    requires Shift(a, h) == 0 && Shift(b, h) == 0
    ensures SameLow(a, b, h) <==> a == b
    decreases h
  {
    if h > 0 && SameLow(a, b, h) {
      assert Digit(a, 0) == Digit(b, 0);
      forall k | 0 <= k < h - 1
        ensures Digit(a / BLOCK, k) == Digit(b / BLOCK, k)
      {
        assert Digit(a, k + 1) == Digit(b, k + 1);
      }
      SameLowEqual(a / BLOCK, b / BLOCK, h - 1);
    }
  }

  // ---- pushing the root down -----------------------------------------------------------

  function PushDown<T>(t: Slot<T>): Slot<T> {
    Node([t] + seq(BLOCK - 1, i => Null))
  }

  /** A pushed-down root reads as before below the old height, and as nothing above it. */
  lemma PushDownReads<T>(t: Slot<T>, h: nat, n: nat)
    requires Shape(t, h) && Shift(n, h + 1) == 0
    ensures Shape(PushDown(t), h + 1)
    ensures TreeGet(PushDown(t), h + 1, n) == if Shift(n, h) == 0 then TreeGet(t, h, n) else Null
  {
    ShiftNext(n, h);
  }

  // ---- the skeleton of blocks ------------------------------------------------------------

  /** The blocks of a tree, whatever values they hold. */
  ghost function Skeleton<T>(t: Slot<T>): Slot<T> {
    match t
    case Null => Null
    case Val(_) => Null
    case Node(slots) => Node(seq(|slots|, i requires 0 <= i < |slots| => Skeleton(slots[i])))
  }

  /** Storing over an index that holds a value, or removing it, allocates and frees nothing. */
  lemma {:induction false} PutKeepsBlocks<T>(t: Slot<T>, h: nat, n: nat, x: Slot<T>)
    requires h > 0 && Shape(t, h) && !x.Node? && TreeGet(t, h, n) != Null
    ensures Skeleton(TreePut(t, h, n, x)) == Skeleton(t)
    decreases h
  {
    var i := Digit(n, h - 1);
    var r := TreePut(t, h, n, x);
    if h > 1 { PutKeepsBlocks(t.slots[i], h - 1, n, x); }
    assert forall k :: 0 <= k < BLOCK ==> Skeleton(r.slots[k]) == Skeleton(t.slots[k]);
  }

  // ---- traversal in order ------------------------------------------------------------------

  /** The leaves of slots n.. of a block, with the indices under the given leading digits. */
  ghost function Visits<T>(t: Slot<T>, h: nat, pre: nat, n: nat): seq<(nat, T)>
    requires Shape(t, h) && n <= BLOCK
    decreases h, BLOCK - n
  {
    if t.Null? || n == BLOCK then []
    else
      var s := t.slots[n];
      (if h > 1 then Visits(s, h - 1, pre * BLOCK + n, 0)
       else if s.Val? then [(pre * BLOCK + n, s.v)]
       else [])
      + Visits(t, h, pre, n + 1)
  }

  /** The leaves of one slot of a block. */
  ghost function SlotVisits<T>(t: Slot<T>, h: nat, pre: nat, n: nat): seq<(nat, T)>
    requires Shape(t, h) && t.Node? && n < BLOCK
  {
    var s := t.slots[n];
    if h > 1 then Visits(s, h - 1, pre * BLOCK + n, 0)
    else if s.Val? then [(pre * BLOCK + n, s.v)]
    else []
  }

  lemma VisitsStep<T>(t: Slot<T>, h: nat, pre: nat, n: nat)
    requires Shape(t, h) && t.Node? && n < BLOCK
    ensures Visits(t, h, pre, n) == SlotVisits(t, h, pre, n) + Visits(t, h, pre, n + 1)
  {
  }

  lemma NoVisits<T>(t: Slot<T>, h: nat, pre: nat, n: nat)
    requires Shape(t, h) && n <= BLOCK && (t.Null? || n == BLOCK)
    ensures Visits(t, h, pre, n) == []
    ensures t.Null? ==> TreeGet(t, h, pre) == Null
  {
  }

  lemma SlotExact<T>(t: Slot<T>, h: nat, pre: nat, n: nat, k: nat, v: T)
    requires Shape(t, h) && t.Node? && n < BLOCK && h > 0
    requires h > 1 ==>
               ((k, v) in Visits(t.slots[n], h - 1, pre * BLOCK + n, 0)
                <==> Shift(k, h - 1) == pre * BLOCK + n && TreeGet(t.slots[n], h - 1, k) == Val(v))
    ensures (k, v) in SlotVisits(t, h, pre, n) <==> Shift(k, h - 1) == pre * BLOCK + n && TreeGet(t, h, k) == Val(v)
  {
    hide Visits;
    ShiftNext(k, h - 1);
  }

  /** Everything visited from slot n on is stored under those leading digits, and everything so stored is visited. */
  lemma {:induction false} VisitsExact<T>(t: Slot<T>, h: nat, pre: nat, n: nat, k: nat, v: T)
    requires Shape(t, h) && n <= BLOCK && h > 0
    ensures (k, v) in Visits(t, h, pre, n)
            <==> Shift(k, h) == pre && Digit(k, h - 1) >= n && TreeGet(t, h, k) == Val(v)
    decreases h, BLOCK - n
  {
    hide Visits, TreeGet, SlotVisits;
    if t.Null? {
      NoVisits(t, h, pre, n);
      NoVisits(t, h, k, n);
    } else if n == BLOCK {
      NoVisits(t, h, pre, n);
    } else {
      VisitsStep(t, h, pre, n);
      VisitsExact(t, h, pre, n + 1, k, v);
      ShiftNext(k, h - 1);
      if h > 1 { VisitsExact(t.slots[n], h - 1, pre * BLOCK + n, 0, k, v); }
      SlotExact(t, h, pre, n, k, v);
    }
  }

  ghost predicate Ascending<T>(vs: seq<(nat, T)>) {
    forall i, j :: 0 <= i < j < |vs| ==> vs[i].0 < vs[j].0
  }

  lemma SlotShift<T>(t: Slot<T>, h: nat, pre: nat, n: nat, a: (nat, T))
    requires Shape(t, h) && t.Node? && n < BLOCK && h > 0
    requires a in SlotVisits(t, h, pre, n)
    ensures Shift(a.0, h - 1) == pre * BLOCK + n
  {
    if h > 1 { VisitsExact(t.slots[n], h - 1, pre * BLOCK + n, 0, a.0, a.1); }
  }

  /** Leaves of a slot come before leaves of the slots after it. */
  lemma SlotBeforeRest<T>(t: Slot<T>, h: nat, pre: nat, n: nat, a: (nat, T), b: (nat, T))
    requires Shape(t, h) && t.Node? && n < BLOCK && h > 0
    requires a in SlotVisits(t, h, pre, n) && b in Visits(t, h, pre, n + 1)
    ensures a.0 < b.0
  {
    SlotShift(t, h, pre, n, a);
    hide Visits, SlotVisits, TreeGet;
    VisitsExact(t, h, pre, n + 1, b.0, b.1);
    ShiftNext(b.0, h - 1);
    assert Shift(b.0, h - 1) > Shift(a.0, h - 1);
    if b.0 <= a.0 { ShiftMonotone(b.0, a.0, h - 1); }
  }

  /** The traversal meets indices in strictly increasing order. */
  lemma {:induction false} VisitsAscend<T>(t: Slot<T>, h: nat, pre: nat, n: nat)
    requires Shape(t, h) && n <= BLOCK && h > 0
    ensures Ascending(Visits(t, h, pre, n))
    decreases h, BLOCK - n
  {
    if !t.Null? && n < BLOCK {
      var a, b := SlotVisits(t, h, pre, n), Visits(t, h, pre, n + 1);
      assert Visits(t, h, pre, n) == a + b;
      VisitsAscend(t, h, pre, n + 1);
      if h > 1 { VisitsAscend(t.slots[n], h - 1, pre * BLOCK + n, 0); }
      forall i, j | 0 <= i < |a| && 0 <= j < |b|
        ensures a[i].0 < b[j].0
      {
        SlotBeforeRest(t, h, pre, n, a[i], b[j]);
      }
    }
  }

  ghost function Weight<T>(x: Slot<T>): int {
    if x.Val? then 1 else 0
  }

  /** How storing into an allocated block changes the number of elements from slot `from` on. */
  lemma {:induction false} PutCounts<T>(t: Slot<T>, h: nat, n: nat, x: Slot<T>, pre: nat, from: nat)
    requires h > 0 && Shape(t, h) && !x.Node? && from <= BLOCK
    ensures |Visits(TreePut(t, h, n, x), h, pre, from)|
         == |Visits(t, h, pre, from)|
            + if from <= Digit(n, h - 1) then Weight(x) - Weight(TreeGet(t, h, n)) else 0
    decreases h, if t.Null? then 1 else 0, BLOCK - from
  {
    hide Visits, TreePut, TreeGet, SlotVisits, Digit;
    if t.Null? {
      EmptyVisits<T>(h, pre, from);
      PutCounts(Empty<T>(), h, n, x, pre, from);
      EmptyGet<T>(h, n);
      PutNull<T>(h, n, x);
      NoVisits(t, h, pre, from);
    } else if from == BLOCK {
      NoVisits(t, h, pre, from);
      NoVisits(TreePut(t, h, n, x), h, pre, from);
    } else {
      var d := Digit(n, h - 1);
      PutCounts(t, h, n, x, pre, from + 1);
      if h > 1 && from == d {
        PutCounts(t.slots[d], h - 1, n, x, pre * BLOCK + d, 0);
      }
      SlotCounts(t, h, n, x, pre, from);
    }
  }

  lemma PutNull<T>(h: nat, n: nat, x: Slot<T>)
    requires h > 0 && !x.Node?
    ensures Shape(Empty<T>(), h) && TreePut(Null, h, n, x) == TreePut(Empty<T>(), h, n, x)
    ensures TreeGet<T>(Null, h, n) == Null
  {
  }

  lemma SlotCounts<T>(t: Slot<T>, h: nat, n: nat, x: Slot<T>, pre: nat, k: nat)
    requires h > 0 && Shape(t, h) && t.Node? && !x.Node? && k < BLOCK
    requires h > 1 && k == Digit(n, h - 1) ==>
               (|Visits(TreePut(t.slots[k], h - 1, n, x), h - 1, pre * BLOCK + k, 0)|
               == |Visits(t.slots[k], h - 1, pre * BLOCK + k, 0)| + Weight(x) - Weight(TreeGet(t.slots[k], h - 1, n)))
    ensures |SlotVisits(TreePut(t, h, n, x), h, pre, k)|
         == |SlotVisits(t, h, pre, k)| + if k == Digit(n, h - 1) then Weight(x) - Weight(TreeGet(t, h, n)) else 0
    ensures Visits(t, h, pre, k) == SlotVisits(t, h, pre, k) + Visits(t, h, pre, k + 1)
    ensures Visits(TreePut(t, h, n, x), h, pre, k)
         == SlotVisits(TreePut(t, h, n, x), h, pre, k) + Visits(TreePut(t, h, n, x), h, pre, k + 1)
  {
  }

  lemma EmptyGet<T>(h: nat, n: nat)
    requires h > 0
    ensures Shape(Empty<T>(), h) && TreeGet(Empty<T>(), h, n) == Null
  {
  }

  lemma EmptyShape<T>(h: nat)
    requires h > 0
    ensures Shape(Empty<T>(), h)
  {
  }

  lemma {:induction false} EmptyVisits<T>(h: nat, pre: nat, from: nat)
    requires h > 0 && from <= BLOCK
    ensures Shape(Empty<T>(), h) && Visits(Empty<T>(), h, pre, from) == []
    decreases BLOCK - from
  {
    EmptyShape<T>(h);
    if from < BLOCK { EmptyVisits<T>(h, pre, from + 1); }
  }
}
