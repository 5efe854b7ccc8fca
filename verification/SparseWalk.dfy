/**
 The traversal of a sparse array with its explicit stack (sa_doall in
 crypto/sparse_array.c), and arrays built by a sequence of sets.
 */
module SparseWalk {
  import opened CText
  import opened SparseTree
  import opened SparseHeap
  import opened SparseStore

  /** The stack of sa_doall from its bottom: a block of each height with the slot to look at next. */
  ghost predicate StackOk<T>(m: Heap<T>, nodes: seq<Cell<T>>, i: seq<nat>, height: nat, l: int) {
    && |nodes| == |i| == MAX_LEVELS && -1 <= l < height <= MAX_LEVELS
    && forall d :: 0 <= d <= l ==> i[d] <= BLOCK && Owns(m, nodes[d], height - d)
  }

  /** What is still to be visited, when the indices below level l share the leading digits q. */
  ghost function Rest<T>(m: Heap<T>, nodes: seq<Cell<T>>, i: seq<nat>, height: nat, l: int, q: nat): seq<(nat, T)>
    requires StackOk(m, nodes, i, height, l)
    decreases l + 1
  {
    if l < 0 then []
    else Visits(Tree(m, nodes[l], height - l), height - l, q, i[l]) + Rest(m, nodes, i, height, l - 1, q / BLOCK)
  }

  /** How many turns a block takes from slot n on, the turn that leaves it included. */
  ghost function Turns<T>(t: Slot<T>, h: nat, n: nat): nat
    requires Shape(t, h) && n <= BLOCK
    decreases h, BLOCK - n
  {
    if n == BLOCK then 1
    else 1 + (if t.Node? && h > 1 && t.slots[n].Node? then Turns(t.slots[n], h - 1, 0) else 0) + Turns(t, h, n + 1)
  }

  ghost function TurnsLeft<T>(m: Heap<T>, nodes: seq<Cell<T>>, i: seq<nat>, height: nat, l: int): nat
    requires StackOk(m, nodes, i, height, l)
    decreases l + 1
  {
    if l < 0 then 0
    else Turns(Tree(m, nodes[l], height - l), height - l, i[l]) + TurnsLeft(m, nodes, i, height, l - 1)
  }

  lemma {:induction false} BelowSame<T>(m: Heap<T>, nodes: seq<Cell<T>>, i: seq<nat>,
                                        nodes': seq<Cell<T>>, i': seq<nat>, height: nat, l: int, q: nat)
    requires StackOk(m, nodes, i, height, l) && |nodes'| == |i'| == MAX_LEVELS
    requires forall d :: 0 <= d <= l ==> nodes'[d] == nodes[d] && i'[d] == i[d]
    ensures StackOk(m, nodes', i', height, l)
    ensures Rest(m, nodes', i', height, l, q) == Rest(m, nodes, i, height, l, q)
    ensures TurnsLeft(m, nodes', i', height, l) == TurnsLeft(m, nodes, i, height, l)
    decreases l + 1
  {
    if l >= 0 { BelowSame(m, nodes, i, nodes', i', height, l - 1, q / BLOCK); }
  }

  /** What the traversal does at one slot. */
  lemma SlotStep<T>(m: Heap<T>, p: Cell<T>, h: nat, q: nat, n: nat)
    requires Owns(m, p, h) && h > 0 && n < BLOCK
    ensures p.Nil? || (p.Link? && p.p in m && |m[p.p]| == BLOCK)
    ensures p.Nil? || m[p.p][n].Nil? ==>
              Visits(Tree(m, p, h), h, q, n) == Visits(Tree(m, p, h), h, q, n + 1)
    ensures p.Link? && h == 1 ==> !m[p.p][n].Link?
    ensures p.Link? && h == 1 && m[p.p][n].Item? ==>
              Visits(Tree(m, p, h), h, q, n) == [(q * BLOCK + n, m[p.p][n].v)] + Visits(Tree(m, p, h), h, q, n + 1)
    ensures p.Link? && h > 1 ==> !m[p.p][n].Item? && Owns(m, m[p.p][n], h - 1)
    ensures p.Link? && h > 1 && m[p.p][n].Link? ==>
              Visits(Tree(m, p, h), h, q, n)
              == Visits(Tree(m, m[p.p][n], h - 1), h - 1, q * BLOCK + n, 0) + Visits(Tree(m, p, h), h, q, n + 1)
    ensures Turns(Tree(m, p, h), h, n)
            == 1 + (if p.Link? && h > 1 && m[p.p][n].Link? then Turns(Tree(m, m[p.p][n], h - 1), h - 1, 0) else 0)
               + Turns(Tree(m, p, h), h, n + 1)
  {
    if p.Link? && h > 1 {
      KidTrees(m, p, h);
      var c := m[p.p][n];
      assert Owns(m, c, h - 1);
      assert c.Nil? ==> Tree(m, c, h - 1) == Null;
    }
  }

  // ---- the turns of the loop --------------------------------------------------------------

  lemma Leave<T>(m: Heap<T>, nodes: seq<Cell<T>>, i: seq<nat>, height: nat, l: int, q: nat)
    requires StackOk(m, nodes, i, height, l) && l >= 0 && i[l] == BLOCK
    ensures StackOk(m, nodes, i, height, l - 1)
    ensures Rest(m, nodes, i, height, l, q) == Rest(m, nodes, i, height, l - 1, q / BLOCK)
    ensures TurnsLeft(m, nodes, i, height, l) == 1 + TurnsLeft(m, nodes, i, height, l - 1)
  {
    assert Visits(Tree(m, nodes[l], height - l), height - l, q, BLOCK) == [];
  }

  /** Moving on from slot i[l] without going down. */
  lemma Advance<T>(m: Heap<T>, nodes: seq<Cell<T>>, i: seq<nat>, height: nat, l: int, q: nat, out: seq<(nat, T)>)
    requires StackOk(m, nodes, i, height, l) && l >= 0 && i[l] < BLOCK
    requires var t, h := Tree(m, nodes[l], height - l), height - l;
             && Visits(t, h, q, i[l]) == out + Visits(t, h, q, i[l] + 1)
             && Turns(t, h, i[l]) == 1 + Turns(t, h, i[l] + 1)
    ensures var i' := i[l := i[l] + 1];
            && StackOk(m, nodes, i', height, l)
            && Rest(m, nodes, i, height, l, q) == out + Rest(m, nodes, i', height, l, q)
            && TurnsLeft(m, nodes, i', height, l) < TurnsLeft(m, nodes, i, height, l)
  {
    hide Visits, Turns, Tree, Owns;
    var i' := i[l := i[l] + 1];
    MovedOn(m, nodes, i, nodes, i', height, l, q);
    var t, h := Tree(m, nodes[l], height - l), height - l;
    Assoc(out, Visits(t, h, q, i[l] + 1), Rest(m, nodes, i, height, l - 1, q / BLOCK));
  }

  /** Going down into slot i[l]. */
  lemma Enter<T>(m: Heap<T>, nodes: seq<Cell<T>>, i: seq<nat>, height: nat, l: int, q: nat)
    requires StackOk(m, nodes, i, height, l) && 0 <= l < height - 1 && i[l] < BLOCK
    requires var p := nodes[l]; p.Link? && p.p in m && |m[p.p]| == BLOCK && m[p.p][i[l]].Link?
    ensures var kid := m[nodes[l].p][i[l]];
            var nodes', i' := nodes[l + 1 := kid], i[l := i[l] + 1][l + 1 := 0];
            && StackOk(m, nodes', i', height, l + 1)
            && Rest(m, nodes, i, height, l, q) == Rest(m, nodes', i', height, l + 1, q * BLOCK + i[l])
            && TurnsLeft(m, nodes', i', height, l + 1) < TurnsLeft(m, nodes, i, height, l)
  {
    hide Visits, Turns, Tree, Owns;
    var kid := m[nodes[l].p][i[l]];
    var nodes', i' := nodes[l + 1 := kid], i[l := i[l] + 1][l + 1 := 0];
    SlotStep(m, nodes[l], height - l, q, i[l]);
    MovedOn(m, nodes, i, nodes', i', height, l, q);
    assert (q * BLOCK + i[l]) / BLOCK == q;
    assert StackOk(m, nodes', i', height, l + 1);
    var first := Visits(Tree(m, kid, height - l - 1), height - l - 1, q * BLOCK + i[l], 0);
    var second := Visits(Tree(m, nodes[l], height - l), height - l, q, i[l] + 1);
    Assoc(first, second, Rest(m, nodes, i, height, l - 1, q / BLOCK));
  }

  /** Only the position in the top block has changed. */
  lemma MovedOn<T>(m: Heap<T>, nodes: seq<Cell<T>>, i: seq<nat>,
                   nodes': seq<Cell<T>>, i': seq<nat>, height: nat, l: int, q: nat)
    requires StackOk(m, nodes, i, height, l) && l >= 0 && i[l] < BLOCK && |nodes'| == |i'| == MAX_LEVELS
    requires forall d :: 0 <= d <= l ==> nodes'[d] == nodes[d] && i'[d] == if d == l then i[d] + 1 else i[d]
    ensures StackOk(m, nodes', i', height, l)
    ensures var t, h := Tree(m, nodes[l], height - l), height - l;
            && Rest(m, nodes', i', height, l, q)
               == Visits(t, h, q, i[l] + 1) + Rest(m, nodes, i, height, l - 1, q / BLOCK)
            && TurnsLeft(m, nodes', i', height, l) == Turns(t, h, i[l] + 1) + TurnsLeft(m, nodes, i, height, l - 1)
  {
    hide Visits, Turns, Tree, Owns;
    BelowSame(m, nodes, i, nodes', i', height, l - 1, q / BLOCK);
  }

  lemma Start<T>(a: SparseArray<T>, nodes: seq<Cell<T>>, i: seq<nat>, height: nat)
    requires a.Core() && height == (if a.levels == 0 then 1 else a.levels)
    requires |nodes| == |i| == MAX_LEVELS && nodes[0] == a.nodes && i[0] == 0
    ensures StackOk(a.mem, nodes, i, height, 0)
    ensures Rest(a.mem, nodes, i, height, 0, 0) == Visits(a.Abs(), a.levels, 0, 0)
  {
    assert Rest(a.mem, nodes, i, height, -1, 0) == [];
  }

  /** Appending a digit to an index of l + 1 digits, and shifting it, stays below 16^(l + 2). */
  lemma IndexFits(l: nat, idx: nat, n: nat)
    requires idx < Pow16(l + 1) && n < BLOCK
    ensures var x := idx - idx % BLOCK + n;
            && x == idx / BLOCK * BLOCK + n && x / BLOCK == idx / BLOCK
            && x < Pow16(l + 1) && x * BLOCK < Pow16(l + 2) && x * BLOCK / BLOCK == x
  {
    var p := Pow16(l);
    assert Pow16(l + 1) == BLOCK * p && Pow16(l + 2) == BLOCK * (BLOCK * p);
    assert idx / BLOCK < p;
  }

  /** One turn of the loop of sa_doall; `visits` grows when a leaf is met. */
  method Turn<T>(m: Heap<T>, levels: nat, ghost height: nat, nodes: array<Cell<T>>, i: array<nat>,
                 l0: int, idx0: nat, visits0: seq<(nat, T)>)
    returns (l: int, idx: nat, visits: seq<(nat, T)>)
    requires StackOk(m, nodes[..], i[..], height, l0) && l0 >= 0 && idx0 < Pow16(l0 + 1)
    requires height == if levels == 0 then 1 else levels
    modifies nodes, i
    ensures StackOk(m, nodes[..], i[..], height, l) && idx < Pow16(l + 1)
    ensures visits + Rest(m, nodes[..], i[..], height, l, idx / BLOCK)
         == visits0 + old(Rest(m, nodes[..], i[..], height, l0, idx0 / BLOCK))
    ensures TurnsLeft(m, nodes[..], i[..], height, l) < old(TurnsLeft(m, nodes[..], i[..], height, l0))
  {
    hide Visits, Turns, Tree, Owns, Rest, TurnsLeft;
    l, idx, visits := l0, idx0, visits0;
    var n, p := i[l], nodes[l];
    var next: nat := n + 1;
    ghost var q, ns, js := idx / BLOCK, nodes[..], i[..];
    if n >= BLOCK {
      Leave(m, ns, js, height, l, q);
      PowStep(l);
      l, idx := l - 1, idx / BLOCK;
      return;
    }
    SlotStep(m, p, height - l, q, n);
    if p.Nil? || m[p.p][n].Nil? {
      Advance(m, ns, js, height, l, q, []);
      i[l] := next;
      assert i[..] == js[l := next];
      return;
    }
    IndexFits(l, idx, n);
    idx := idx - idx % BLOCK + n;
    if l < levels - 1 {
      Enter(m, ns, js, height, l, q);
      i[l] := next;
      l := l + 1;
      i[l], nodes[l] := 0, m[p.p][n];
      assert nodes[..] == ns[l := m[p.p][n]] && i[..] == js[l - 1 := next][l := 0];
      idx := idx * BLOCK;
    } else {
      Advance(m, ns, js, height, l, q, [(idx, m[p.p][n].v)]);
      i[l] := next;
      assert i[..] == js[l := next];
      visits := visits + [(idx, m[p.p][n].v)];
    }
  }

  lemma PowStep(l: nat)
    ensures Pow16(l + 1) == BLOCK * Pow16(l)
  {
  }

  /**
   sa_doall: every leaf is visited once, in order of index. The stack of 16
   levels never overflows and the index never leaves 64 bits.
   */
  method DoAll<T(!new)>(a: SparseArray<T>) returns (visits: seq<(nat, T)>)
    requires a.Core()
    ensures visits == Visits(a.Abs(), a.levels, 0, 0)
    ensures Ascending(visits)
    ensures forall n: nat, v: T :: (n, v) in visits <==> a.Value(n) == Some(v)
    ensures |visits| == a.nelem
  {
    hide Visits, Turns, Tree, Owns, TurnsLeft;
    ghost var height := if a.levels == 0 then 1 else a.levels;
    var i := new nat[MAX_LEVELS](_ => 0);
    var nodes := new Cell<T>[MAX_LEVELS](_ => Nil);
    nodes[0] := a.nodes;
    var idx: nat, l := 0, 0;
    visits := [];
    Start(a, nodes[..], i[..], height);
    while l >= 0
      invariant StackOk(a.mem, nodes[..], i[..], height, l) && idx < Pow16(l + 1)
      invariant visits + Rest(a.mem, nodes[..], i[..], height, l, idx / BLOCK) == Visits(a.Abs(), a.levels, 0, 0)
      decreases TurnsLeft(a.mem, nodes[..], i[..], height, l)
    {
      l, idx, visits := Turn(a.mem, a.levels, height, nodes, i, l, idx, visits);
    }
    AllVisited(a);
  }

  lemma AllVisited<T(!new)>(a: SparseArray<T>)
    requires a.Core()
    ensures var vs := Visits(a.Abs(), a.levels, 0, 0);
            Ascending(vs) && forall n: nat, v: T :: (n, v) in vs <==> a.Value(n) == Some(v)
  {
    if a.levels > 0 {
      VisitsAscend(a.Abs(), a.levels, 0, 0);
      forall n: nat, v: T
        ensures (n, v) in Visits(a.Abs(), a.levels, 0, 0) <==> a.Value(n) == Some(v)
      {
        VisitsAreValues(a.Abs(), a.levels, n, v);
      }
    }
  }

  // ---- arrays built by a sequence of sets ------------------------------------------------------

  datatype SetOp<T> = SetOp(posn: Index, val: Option<T>)

  /** The last value set at n: what a map would hold. */
  function LastSet<T>(ops: seq<SetOp<T>>, n: nat): Option<T> {
    if ops == [] then None
    else
      var op := ops[|ops| - 1];
      if op.posn == n then op.val else LastSet(ops[..|ops| - 1], n)
  }

  /** It is the value of the last operation on n, if there is one. */
  lemma {:induction false} LastSetIs<T>(ops: seq<SetOp<T>>, n: nat, k: nat)
    requires k < |ops| && ops[k].posn == n && forall j :: k < j < |ops| ==> ops[j].posn != n
    ensures LastSet(ops, n) == ops[k].val
    decreases |ops|
  {
    var last := |ops| - 1;
    if k < last {
      assert ops[last].posn != n;
      LastSetIs(ops[..last], n, k);
    }
  }

  lemma {:induction false} NeverSet<T>(ops: seq<SetOp<T>>, n: nat)
    requires forall k :: 0 <= k < |ops| ==> ops[k].posn != n
    ensures LastSet(ops, n) == None
    decreases |ops|
  {
    if ops != [] {
      assert ops[|ops| - 1].posn != n;
      NeverSet(ops[..|ops| - 1], n);
    }
  }

  function LargestSet<T>(ops: seq<SetOp<T>>): nat {
    if ops == [] then 0
    else
      var m, p := LargestSet(ops[..|ops| - 1]), ops[|ops| - 1].posn;
      if m < p then p else m
  }

  lemma {:induction false} LargestSetIs<T>(ops: seq<SetOp<T>>)
    ensures forall k :: 0 <= k < |ops| ==> ops[k].posn <= LargestSet(ops)
    ensures if ops == [] then LargestSet(ops) == 0 else exists k :: 0 <= k < |ops| && ops[k].posn == LargestSet(ops)
    decreases |ops|
  {
    if ops != [] {
      LargestSetIs(ops[..|ops| - 1]);
    }
  }

  /** Any sequence of additions and removals leaves an array that reads like a map. */
  method Replay<T>(ops: seq<SetOp<T>>) returns (a: SparseArray<T>)
    ensures fresh(a) && a.Valid()
    ensures forall n: nat :: a.Value(n) == LastSet(ops, n)
    ensures a.top == LargestSet(ops)
    ensures ops != [] ==> LeastHeight(LargestSet(ops), a.levels)
  {
    a := new SparseArray<T>();
    assert ops[..0] == [];
    for k := 0 to |ops|
      invariant fresh(a) && a.Valid()
      invariant forall n: nat :: a.Value(n) == LastSet(ops[..k], n)
      invariant a.top == LargestSet(ops[..k])
      invariant k > 0 ==> LeastHeight(a.top, a.levels)
    {
      assert ops[..k + 1][..k] == ops[..k];
      a.Set(ops[k].posn, ops[k].val);
    }
    assert ops[..|ops|] == ops;
  }
}
