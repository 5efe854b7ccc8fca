/**
 The sparse array as an object: ossl_sa_get, ossl_sa_set and the traversal of
 crypto/sparse_array.c on blocks updated in place.
 */
module SparseStore {
  import opened CText
  import opened SparseTree
  import opened SparseHeap

  // ---- reading trees as maps --------------------------------------------------------------

  /** What index n holds in a tree of height h. */
  ghost function ValueIn<T>(t: Slot<T>, h: nat, n: nat): Option<T>
    requires Shape(t, h)
  {
    if Shift(n, h) == 0 && TreeGet(t, h, n).Val? then Some(TreeGet(t, h, n).v) else None
  }

  ghost function SlotOf<T>(val: Option<T>): Slot<T> {
    if val.None? then Null else Val(val.value)
  }

  lemma {:induction false} GetIsLeaf<T>(t: Slot<T>, h: nat, n: nat)
    requires Shape(t, h)
    ensures !TreeGet(t, h, n).Node?
    decreases h
  {
    if !t.Null? && h > 1 { GetIsLeaf(t.slots[Digit(n, h - 1)], h - 1, n); }
  }

  /** Storing changes one index and no other. */
  lemma PutIsUpdate<T>(t: Slot<T>, h: nat, n: nat, val: Option<T>, m: nat)
    requires h > 0 && Shape(t, h) && Shift(n, h) == 0
    ensures ValueIn(TreePut(t, h, n, SlotOf(val)), h, m) == if m == n then val else ValueIn(t, h, m)
  {
    PutGet(t, h, n, SlotOf(val), m);
    if Shift(m, h) == 0 { SameLowEqual(n, m, h); }
  }

  /** Raising the height changes no index. */
  lemma PushDownSame<T>(t: Slot<T>, h: nat, m: nat)
    requires Shape(t, h)
    ensures Shape(PushDown(t), h + 1)
    ensures ValueIn(PushDown(t), h + 1, m) == ValueIn(t, h, m)
  {
    ShiftNext(m, h);
    if Shift(m, h + 1) == 0 { PushDownReads(t, h, m); }
    PushDownReads(t, h, 0) by { ZeroShift(h + 1); }
  }

  lemma {:induction false} ZeroShift(h: nat)
    ensures Shift(0, h) == 0
    decreases h
  {
    if h > 0 { ZeroShift(h - 1); }
  }

  lemma {:induction false} NullVisits<T>(t: Slot<T>, h: nat, pre: nat, n: nat)
    requires Shape(t, h) && t.Node? && 1 <= n <= BLOCK
    requires forall k :: 1 <= k < BLOCK ==> t.slots[k] == Null
    ensures Visits(t, h, pre, n) == []
    decreases BLOCK - n
  {
    if n < BLOCK { NullVisits(t, h, pre, n + 1); }
  }

  /** Raising the height changes no element. */
  lemma PushDownVisits<T>(t: Slot<T>, h: nat)
    requires Shape(t, h)
    ensures Shape(PushDown(t), h + 1)
    ensures Visits(PushDown(t), h + 1, 0, 0) == Visits(t, h, 0, 0)
  {
    PushDownSame(t, h, 0);
    NullVisits(PushDown(t), h + 1, 0, 1);
    assert PushDown(t).slots[0] == t;
  }

  /** The traversal lists exactly what the tree holds. */
  lemma VisitsAreValues<T>(t: Slot<T>, h: nat, n: nat, v: T)
    requires Shape(t, h) && h > 0
    ensures (n, v) in Visits(t, h, 0, 0) <==> ValueIn(t, h, n) == Some(v)
  {
    VisitsExact(t, h, 0, 0, n, v);
  }

  // ---- heights --------------------------------------------------------------------------------

  /** The first loop of ossl_sa_set. */
  method Height(posn: Index) returns (level: nat)
    ensures LeastHeight(posn, level) && level <= MAX_LEVELS
  {
    var n: nat := posn;
    level := 1;
    ShiftZero(posn, 0);
    while level < MAX_LEVELS
      invariant 1 <= level <= MAX_LEVELS
      invariant n == Shift(posn, level - 1)
      invariant level > 1 ==> n != 0
    {
      ShiftNext(posn, level - 1);
      n := n / BLOCK;
      if n == 0 { break; }
      level := level + 1;
    }
    ShiftZero(posn, level - 1);
    ShiftZero(posn, level);
    PowMax();
  }

  lemma PowMax()
    ensures Pow16(MAX_LEVELS) == UINTMAX
  {
    assert Pow16(4) == 0x1_0000;
    assert Pow16(8) == 0x1_0000_0000;
    assert Pow16(12) == 0x1_0000_0000_0000;
  }

  lemma HeightOfMax(a: nat, b: nat, h: nat, k: nat)
    requires LeastHeight(a, h) && LeastHeight(b, k)
    ensures LeastHeight(if a < b then b else a, if h < k then k else h)
  {
    if h < k { PowMonotone(h, k - 1); }
    if k < h { PowMonotone(k, h - 1); }
  }

  // ---- the object -------------------------------------------------------------------------------

  class SparseArray<T> {
    var levels: nat
    var top: nat
    var nelem: nat
    var nodes: Cell<T>
    var mem: Heap<T>
    var free: nat

    /** What growing and storing keep between them. */
    ghost predicate Core()
      reads this
    {
      && Owns(mem, nodes, levels) && levels <= MAX_LEVELS
      && (forall q :: q in mem ==> q < free)
      && (levels == 0 <==> nodes.Nil?)
      && nelem == |Visits(Tree(mem, nodes, levels), levels, 0, 0)|
    }

    ghost predicate Valid()
      reads this
    {
      && Core()
      && (levels == 0 ==> top == 0)
      && (levels > 0 ==> LeastHeight(top, levels))
      && (forall n: nat :: n > top ==> Value(n) == None)
    }

    ghost function Abs(): Slot<T>
      requires Core()
      reads this
    {
      Tree(mem, nodes, levels)
    }

    /** The map the array stands for. */
    ghost function Value(n: nat): Option<T>
      requires Core()
      reads this
    {
      ValueIn(Abs(), levels, n)
    }

    /** ossl_sa_new */
    constructor ()
      ensures Valid() && levels == 0 && top == 0 && nelem == 0
      ensures forall n: nat :: Value(n) == None
    {
      levels, top, nelem, nodes, mem, free := 0, 0, 0, Nil, map[], 0;
    }

    /** ossl_sa_get */
    method Get(n: Index) returns (r: Option<T>)
      requires Valid()
      ensures r == Value(n)
    {
      if nelem == 0 {
        if levels > 0 && Value(n).Some? { VisitsAreValues(Abs(), levels, n, Value(n).value); }
        return None;
      }
      r := None;
      if n <= top {
        ShiftZero(top, levels);
        ShiftMonotone(n, top, levels);
        r := Descend(n);
      }
    }

    method Descend(n: Index) returns (r: Option<T>)
      requires Core() && nelem > 0 && levels > 0
      requires Shift(n, levels) == 0
      ensures r == Value(n)
    {
      hide Owns, Tree, TreeGet, Visits, Digit;
      var p, level := nodes, levels - 1;
      while !p.Nil? && level > 0
        invariant 0 <= level < levels && Owns(mem, p, level + 1)
        invariant TreeGet(Tree(mem, p, level + 1), level + 1, n) == TreeGet(Abs(), levels, n)
      {
        IsPointer(mem, p, level + 1);
        GetStep(mem, p, level + 1, n);
        p := mem[p.p][Digit(n, level)];
        level := level - 1;
      }
      IsPointer(mem, p, level + 1);
      if p.Nil? {
        NullGet(mem, level + 1, n);
        return None;
      }
      GetStep(mem, p, 1, n);
      var c := mem[p.p][Digit(n, 0)];
      r := if c.Item? then Some(c.v) else None;
    }

    /** The loop of ossl_sa_set that pushes the root down until the height is enough. */
    method Grow(level: nat)
      requires Core() && level <= MAX_LEVELS
      modifies this`levels, this`nodes, this`mem, this`free
      ensures Core()
      ensures levels == if old(levels) < level then level else old(levels)
      ensures forall n: nat :: Value(n) == old(Value(n))
      ensures old(levels) >= level ==> nodes == old(nodes) && mem == old(mem)
    {
      while levels < level
        invariant Core() && old(levels) <= levels
        invariant levels <= if old(levels) < level then level else old(levels)
        invariant forall n: nat :: Value(n) == old(Value(n))
        invariant old(levels) >= level ==> nodes == old(nodes) && mem == old(mem)
      {
        PushRoot();
      }
    }

    method PushRoot()
      requires Core() && levels < MAX_LEVELS
      modifies this`levels, this`nodes, this`mem, this`free
      ensures Core() && levels == old(levels) + 1
      ensures forall n: nat :: Value(n) == old(Value(n))
    {
      hide Owns, Tree, Visits, PushDown, ValueIn, Shape, Foot;
      ghost var t, h := Abs(), levels;
      PushBlock(mem, nodes, levels, free);
      PushDownVisits(t, h);
      forall n: nat ensures ValueIn(PushDown(t), h + 1, n) == ValueIn(t, h, n) {
        PushDownSame(t, h, n);
      }
      mem := mem[free := [nodes] + Nils<T>()[1..]];
      nodes, levels, free := Link(free), levels + 1, free + 1;
    }

    /** The descent of ossl_sa_set: the address of the lowest block on the path, allocated as needed. */
    method Reach(posn: Index, ghost x: Slot<T>) returns (p: nat)
      requires Core() && levels > 0 && !x.Node?
      modifies this`mem, this`free
      ensures Owns(mem, nodes, levels) && (forall q :: q in mem ==> q < free)
      ensures Walk(mem, nodes, levels, posn, 1) == Link(p)
      ensures TreePut(Tree(mem, nodes, levels), levels, posn, x) == old(TreePut(Abs(), levels, posn, x))
      ensures TreeGet(Tree(mem, nodes, levels), levels, posn) == old(TreeGet(Abs(), levels, posn))
    {
      hide Owns, Tree, TreePut, TreeGet, Visits, Digit;
      p := NodeAddress();
      var level := levels - 1;
      while level > 0
        invariant 0 <= level < levels
        invariant Owns(mem, nodes, levels) && (forall q :: q in mem ==> q < free)
        invariant Walk(mem, nodes, levels, posn, level + 1) == Link(p)
        invariant TreePut(Tree(mem, nodes, levels), levels, posn, x) == old(TreePut(Abs(), levels, posn, x))
        invariant TreeGet(Tree(mem, nodes, levels), levels, posn) == old(TreeGet(Abs(), levels, posn))
      {
        p := StepDown(posn, level, p, x);
        level := level - 1;
      }
    }

    method NodeAddress() returns (p: nat)
      requires Core() && levels > 0
      ensures nodes == Link(p)
    {
      p := nodes.p;
    }

    /** One turn of the descent loop. */
    method StepDown(posn: Index, level: nat, p: nat, ghost x: Slot<T>) returns (kid: nat)
      requires 0 < level < levels && !x.Node?
      requires Owns(mem, nodes, levels) && (forall q :: q in mem ==> q < free)
      requires Walk(mem, nodes, levels, posn, level + 1) == Link(p)
      modifies this`mem, this`free
      ensures Owns(mem, nodes, levels) && (forall q :: q in mem ==> q < free)
      ensures Walk(mem, nodes, levels, posn, level) == Link(kid)
      ensures TreePut(Tree(mem, nodes, levels), levels, posn, x) == old(TreePut(Tree(mem, nodes, levels), levels, posn, x))
      ensures TreeGet(Tree(mem, nodes, levels), levels, posn) == old(TreeGet(Tree(mem, nodes, levels), levels, posn))
    {
      hide Owns, Tree, TreePut, TreeGet, Walk, Foot, Digit, Shape;
      WalkNext(mem, nodes, levels, posn, level + 1);
      KidIsPointer(mem, nodes, levels, posn, level);
      var i := Digit(posn, level);
      if mem[p][i].Nil? {
        AllocStep(mem, nodes, levels, posn, level + 1, free, x);
        kid := free;
        mem := mem[free := Nils()][p := mem[p][i := Link(free)]];
        free := free + 1;
      } else {
        kid := mem[p][i].p;
      }
    }

    /** The last lines of ossl_sa_set: count and store. */
    method Store(posn: Index, val: Option<T>)
      requires Core() && levels > 0
      modifies this`mem, this`free, this`nelem
      ensures Core()
      ensures Abs() == old(TreePut(Abs(), levels, posn, SlotOf(val)))
    {
      hide Owns, Tree, TreePut, TreeGet, Walk, Digit, Visits, Shape, Foot;
      ghost var x := SlotOf(val);
      PutCounts(Abs(), levels, posn, x, 0, 0);
      GetIsLeaf(Abs(), levels, posn);
      var p := Reach(posn, x);
      WalkGet(mem, nodes, levels, posn);
      var c := if val.None? then Nil else Item(val.value);
      StoreValue(mem, nodes, levels, posn, c);
      var d := Digit(posn, 0);
      if val.None? && !mem[p][d].Nil? {
        nelem := nelem - 1;
      } else if val.Some? && mem[p][d].Nil? {
        nelem := nelem + 1;
      }
      mem := mem[p := mem[p][d := c]];
    }

    /**
     ossl_sa_set: one index changes, the height is the least that holds the largest
     index set so far, and overwriting or removing a value moves no block.
     */
    method Set(posn: Index, val: Option<T>)
      requires Valid()
      modifies this
      ensures Valid()
      ensures forall n: nat :: Value(n) == if n == posn then val else old(Value(n))
      ensures top == if old(top) < posn then posn else old(top)
      ensures LeastHeight(top, levels)
      ensures nelem == old(nelem) + (if val.Some? then 1 else 0) - (if old(Value(posn)).Some? then 1 else 0)
      ensures old(Value(posn)).Some? ==> levels == old(levels) && Skeleton(Abs()) == old(Skeleton(Abs()))
    {
      hide Owns, Tree, TreePut, TreeGet, Visits, Skeleton, ValueIn, LeastHeight;
      var level := Height(posn);
      HeightAfter(top, posn, levels, level);
      if levels == 0 { NothingAtZero(Abs(), posn); }
      Grow(level);
      ghost var t, h := Abs(), levels;
      assert forall n: nat :: old(Value(n)) == Value(n) == ValueIn(t, h, n);
      Fits(posn, level, levels);
      if top < posn { top := posn; }
      PutFacts(t, h, posn, val);
      Store(posn, val);
      assert Abs() == TreePut(t, h, posn, SlotOf(val));
    }
  }

  lemma IsPointer<T>(m: Heap<T>, c: Cell<T>, h: nat)
    requires Owns(m, c, h)
    ensures c.Nil? || c.Link?
  {
  }

  lemma NullGet<T>(m: Heap<T>, h: nat, n: nat)
    ensures Owns(m, Nil, h) && TreeGet(Tree(m, Nil, h), h, n) == Null
  {
  }

  lemma NothingAtZero<T>(t: Slot<T>, n: nat)
    requires Shape(t, 0)
    ensures ValueIn(t, 0, n) == None
  {
  }

  /** Height and largest index move together. */
  lemma HeightAfter(top: nat, posn: nat, levels: nat, level: nat)
    requires LeastHeight(posn, level)
    requires levels == 0 ==> top == 0
    requires levels > 0 ==> LeastHeight(top, levels)
    ensures level > 0
    ensures LeastHeight(if top < posn then posn else top, if levels < level then level else levels)
    ensures levels > 0 && posn <= top ==> level <= levels
  {
    if levels > 0 {
      HeightOfMax(top, posn, levels, level);
      if posn <= top && levels < level { PowMonotone(levels, level - 1); }
    } else {
      HeightOfMax(0, posn, 1, level);
    }
  }

  /** Everything that storing does to a tree. */
  lemma PutFacts<T>(t: Slot<T>, h: nat, posn: nat, val: Option<T>)
    requires h > 0 && Shape(t, h) && Shift(posn, h) == 0
    ensures var r := TreePut(t, h, posn, SlotOf(val));
            && (forall n: nat :: ValueIn(r, h, n) == if n == posn then val else ValueIn(t, h, n))
            && |Visits(r, h, 0, 0)| == |Visits(t, h, 0, 0)| + (if val.Some? then 1 else 0)
                                       - (if ValueIn(t, h, posn).Some? then 1 else 0)
            && (ValueIn(t, h, posn).Some? ==> Skeleton(r) == Skeleton(t))
  {
    forall n: nat
      ensures ValueIn(TreePut(t, h, posn, SlotOf(val)), h, n) == if n == posn then val else ValueIn(t, h, n)
    {
      PutIsUpdate(t, h, posn, val, n);
    }
    PutCounts(t, h, posn, SlotOf(val), 0, 0);
    GetIsLeaf(t, h, posn);
    if ValueIn(t, h, posn).Some? { PutKeepsBlocks(t, h, posn, SlotOf(val)); }
  }

  /** A reachable pointer above the values is null or a link. */
  lemma KidIsPointer<T>(m: Heap<T>, c: Cell<T>, h: nat, n: nat, l: nat)
    requires Owns(m, c, h) && 1 <= l <= h
    ensures !Walk(m, c, h, n, l).Item?
  {
    WalkFoot(m, c, h, n, l);
  }

  lemma Fits(posn: nat, level: nat, levels: nat)
    requires LeastHeight(posn, level) && level <= levels
    ensures Shift(posn, levels) == 0
  {
    PowMonotone(level, levels);
    ShiftZero(posn, levels);
  }
}
