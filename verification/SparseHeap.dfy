/**
 The blocks of a sparse array in memory: pointers to blocks of pointers,
 updated in place, each block owned by one pointer (crypto/sparse_array.c).
 */
module SparseHeap {
  import opened CText
  import opened SparseTree

  /** A void* in a block: nothing, a user value, or the address of a block. */
  datatype Cell<T> = Nil | Item(v: T) | Link(p: nat)

  type Heap<T> = map<nat, seq<Cell<T>>>

  /** The addresses of the blocks below a pointer. */
  ghost function Foot<T>(m: Heap<T>, c: Cell<T>, h: nat): set<nat>
    decreases h
  {
    if !c.Link? || h == 0 || c.p !in m then {}
    else
      {c.p} + if h == 1 then {}
              else set q | q in m.Keys && exists i :: 0 <= i < |m[c.p]| && q in Foot(m, m[c.p][i], h - 1)
  }

  /** Below the pointer there is a tree: right levels, and no block reached twice. */
  ghost predicate Owns<T>(m: Heap<T>, c: Cell<T>, h: nat)
    decreases h
  {
    || c.Nil?
    || (&& c.Link? && h > 0 && c.p in m && |m[c.p]| == BLOCK
        && if h == 1 then forall i :: 0 <= i < BLOCK ==> !m[c.p][i].Link?
           else
             && (forall i :: 0 <= i < BLOCK ==> Owns(m, m[c.p][i], h - 1))
             && (forall i :: 0 <= i < BLOCK ==> c.p !in Foot(m, m[c.p][i], h - 1))
             && (forall i, j :: 0 <= i < j < BLOCK ==> Foot(m, m[c.p][i], h - 1) !! Foot(m, m[c.p][j], h - 1)))
  }

  ghost function LeafOf<T>(c: Cell<T>): (s: Slot<T>)
    requires !c.Link?
    ensures !s.Node?
  {
    if c.Nil? then Null else Val(c.v)
  }

  /** The tree a pointer stands for. */
  ghost function Tree<T>(m: Heap<T>, c: Cell<T>, h: nat): (t: Slot<T>)
    requires Owns(m, c, h)
    ensures Shape(t, h)
    decreases h
  {
    if c.Nil? then Null
    else if h == 1 then Node(seq(BLOCK, i requires 0 <= i < BLOCK => LeafOf(m[c.p][i])))
    else Node(seq(BLOCK, i requires 0 <= i < BLOCK => Tree(m, m[c.p][i], h - 1)))
  }

  lemma FootKid<T>(m: Heap<T>, c: Cell<T>, h: nat, i: nat)
    requires Owns(m, c, h) && c.Link? && h > 1 && i < BLOCK
    ensures Foot(m, m[c.p][i], h - 1) <= Foot(m, c, h)
    ensures c.p in Foot(m, c, h)
  {
    FootKeys(m, m[c.p][i], h - 1);
  }

  lemma {:induction false} FootKeys<T>(m: Heap<T>, c: Cell<T>, h: nat)
    ensures Foot(m, c, h) <= m.Keys
    decreases h
  {
  }

  /** What is not touched below a pointer stays the same tree. */
  lemma {:induction false} Frame<T>(m: Heap<T>, m': Heap<T>, c: Cell<T>, h: nat)
    requires Owns(m, c, h)
    requires forall q :: q in Foot(m, c, h) ==> q in m' && m'[q] == m[q]
    ensures Owns(m', c, h) && Foot(m', c, h) == Foot(m, c, h) && Tree(m', c, h) == Tree(m, c, h)
    decreases h
  {
    if c.Nil? || h == 1 {
      FrameLow(m, m', c, h);
    } else {
      FrameStep(m, m', c, h);
    }
  }

  lemma FrameLow<T>(m: Heap<T>, m': Heap<T>, c: Cell<T>, h: nat)
    requires Owns(m, c, h) && (c.Nil? || h == 1)
    requires forall q :: q in Foot(m, c, h) ==> q in m' && m'[q] == m[q]
    ensures Owns(m', c, h) && Foot(m', c, h) == Foot(m, c, h) && Tree(m', c, h) == Tree(m, c, h)
  {
    if c.Link? { assert c.p in Foot(m, c, h); }
  }

  lemma {:induction false} FrameStep<T>(m: Heap<T>, m': Heap<T>, c: Cell<T>, h: nat)
    requires Owns(m, c, h) && c.Link? && h > 1
    requires forall q :: q in Foot(m, c, h) ==> q in m' && m'[q] == m[q]
    ensures Owns(m', c, h) && Foot(m', c, h) == Foot(m, c, h) && Tree(m', c, h) == Tree(m, c, h)
    decreases h, 0
  {
    hide Owns, Foot, Tree;
    KidTrees(m, c, h);
    FootKid(m, c, h, 0);
    forall i | 0 <= i < BLOCK
      ensures Owns(m', m[c.p][i], h - 1)
      ensures Foot(m', m[c.p][i], h - 1) == Foot(m, m[c.p][i], h - 1)
      ensures Tree(m', m[c.p][i], h - 1) == Tree(m, m[c.p][i], h - 1)
    {
      FootKid(m, c, h, i);
      Frame(m, m', m[c.p][i], h - 1);
    }
    FootSame(m, m', c, h);
    FrameOwns(m, m', c, h);
    KidTrees(m', c, h);
    assert Tree(m', c, h).slots == Tree(m, c, h).slots;
  }

  lemma FrameOwns<T>(m: Heap<T>, m': Heap<T>, c: Cell<T>, h: nat)
    requires Owns(m, c, h) && c.Link? && h > 1 && c.p in m' && m'[c.p] == m[c.p]
    requires forall i :: 0 <= i < BLOCK ==> Owns(m', m[c.p][i], h - 1)
    requires forall i :: 0 <= i < BLOCK ==> Foot(m', m[c.p][i], h - 1) == Foot(m, m[c.p][i], h - 1)
    ensures Owns(m', c, h)
  {
    hide Foot;
    forall j, k | 0 <= j < k < BLOCK
      ensures Foot(m', m'[c.p][j], h - 1) !! Foot(m', m'[c.p][k], h - 1)
    {
      KidsApart(m, c, h, j, k);
    }
  }

  /** Two kids of a block share no block. */
  lemma KidsApart<T>(m: Heap<T>, c: Cell<T>, h: nat, i: nat, k: nat)
    requires Owns(m, c, h) && c.Link? && h > 1 && i < BLOCK && k < BLOCK && i != k
    ensures Owns(m, m[c.p][k], h - 1)
    ensures Foot(m, m[c.p][i], h - 1) !! Foot(m, m[c.p][k], h - 1)
  {
    hide Foot;
  }

  lemma TopNotBelow<T>(m: Heap<T>, c: Cell<T>, h: nat, k: nat)
    requires Owns(m, c, h) && c.Link? && h > 1 && k < BLOCK
    ensures c.p !in Foot(m, m[c.p][k], h - 1)
  {
    hide Foot;
  }

  lemma FootSame<T>(m: Heap<T>, m': Heap<T>, c: Cell<T>, h: nat)
    requires Owns(m, c, h) && c.Link? && h > 1 && c.p in m' && m'[c.p] == m[c.p]
    requires forall i :: 0 <= i < BLOCK ==> Foot(m', m[c.p][i], h - 1) == Foot(m, m[c.p][i], h - 1)
    ensures Foot(m', c, h) == Foot(m, c, h)
  {
    forall q
      ensures q in Foot(m', c, h) <==> q in Foot(m, c, h)
    {
      if q in Foot(m, c, h) && q != c.p {
        var i :| 0 <= i < |m[c.p]| && q in Foot(m, m[c.p][i], h - 1);
        FootKeys(m', m[c.p][i], h - 1);
      }
      if q in Foot(m', c, h) && q != c.p {
        var i :| 0 <= i < |m'[c.p]| && q in Foot(m', m'[c.p][i], h - 1);
        FootKeys(m, m[c.p][i], h - 1);
      }
    }
  }

  /** Following the digits of n down from height h to height l. */
  ghost function Walk<T>(m: Heap<T>, c: Cell<T>, h: nat, n: nat, l: nat): Cell<T>
    requires Owns(m, c, h) && 1 <= l <= h
    decreases h
  {
    if h == l || c.Nil? then c else Walk(m, m[c.p][Digit(n, h - 1)], h - 1, n, l)
  }

  lemma {:induction false} WalkFoot<T>(m: Heap<T>, c: Cell<T>, h: nat, n: nat, l: nat)
    requires Owns(m, c, h) && 1 <= l <= h
    ensures Owns(m, Walk(m, c, h, n, l), l)
    ensures Foot(m, Walk(m, c, h, n, l), l) <= Foot(m, c, h)
    decreases h
  {
    if h > l && c.Link? {
      WalkFoot(m, m[c.p][Digit(n, h - 1)], h - 1, n, l);
      FootKid(m, c, h, Digit(n, h - 1));
    }
  }

  /**
   A change confined to the block at height l on the path of n, and to blocks not
   used so far.
   */
  ghost predicate Confined<T>(m: Heap<T>, m': Heap<T>, c: Cell<T>, h: nat, b: Cell<T>, l: nat) {
    && (forall q :: q in Foot(m, c, h) && q !in Foot(m, b, l) ==> q in m' && m'[q] == m[q])
    && (forall q :: q in Foot(m', b, l) ==> q in Foot(m, b, l) || q !in Foot(m, c, h))
  }

  ghost predicate Within<T>(m: Heap<T>, m': Heap<T>, c: Cell<T>, h: nat, b: Cell<T>, l: nat) {
    forall q :: q in Foot(m', c, h) ==> q in Foot(m, c, h) || q in Foot(m', b, l)
  }

  lemma ConfinedKid<T>(m: Heap<T>, m': Heap<T>, c: Cell<T>, h: nat, b: Cell<T>, l: nat, i: nat)
    requires Owns(m, c, h) && c.Link? && h > 1 && i < BLOCK
    requires Confined(m, m', c, h, b, l)
    ensures Confined(m, m', m[c.p][i], h - 1, b, l)
  {
    FootKid(m, c, h, i);
  }

  /** A sibling of the path is untouched. */
  lemma SiblingSame<T>(m: Heap<T>, m': Heap<T>, c: Cell<T>, h: nat, b: Cell<T>, l: nat, i: nat, k: nat)
    requires Owns(m, c, h) && c.Link? && h > 1 && i < BLOCK && k < BLOCK && i != k
    requires Foot(m, b, l) <= Foot(m, m[c.p][i], h - 1)
    requires Confined(m, m', c, h, b, l)
    ensures var s := m[c.p][k];
            Owns(m', s, h - 1) && Foot(m', s, h - 1) == Foot(m, s, h - 1) && Tree(m', s, h - 1) == Tree(m, s, h - 1)
  {
    hide Owns, Foot, Tree;
    KidTrees(m, c, h);
    FootKid(m, c, h, k);
    KidsApart(m, c, h, i, k);
    Frame(m, m', m[c.p][k], h - 1);
  }

  /** A block owns its kids again when one of them was replaced by something disjoint. */
  lemma KidsOwned<T>(m: Heap<T>, m': Heap<T>, c: Cell<T>, h: nat, i: nat)
    requires Owns(m, c, h) && c.Link? && h > 1 && i < BLOCK && c.p in m' && m'[c.p] == m[c.p]
    requires Owns(m', m[c.p][i], h - 1) && c.p !in Foot(m', m[c.p][i], h - 1)
    requires forall k :: 0 <= k < BLOCK && k != i ==> Owns(m', m[c.p][k], h - 1)
    requires forall k :: 0 <= k < BLOCK && k != i ==> Foot(m', m[c.p][k], h - 1) == Foot(m, m[c.p][k], h - 1)
    requires forall k :: 0 <= k < BLOCK && k != i ==> Foot(m', m[c.p][k], h - 1) !! Foot(m', m[c.p][i], h - 1)
    ensures Owns(m', c, h)
  {
    forall j, k | 0 <= j < k < BLOCK
      ensures Foot(m', m[c.p][j], h - 1) !! Foot(m', m[c.p][k], h - 1)
    {
      if j != i && k != i {
        assert Foot(m, m[c.p][j], h - 1) !! Foot(m, m[c.p][k], h - 1);
      }
    }
  }

  lemma StillApart<T>(m: Heap<T>, m': Heap<T>, c: Cell<T>, h: nat, i: nat, k: nat, b: Cell<T>, l: nat)
    requires Owns(m, c, h) && c.Link? && h > 1 && i < BLOCK && k < BLOCK && i != k
    requires Foot(m, b, l) <= Foot(m, m[c.p][i], h - 1)
    requires Confined(m, m', c, h, b, l) && Within(m, m', m[c.p][i], h - 1, b, l)
    ensures Foot(m, m[c.p][k], h - 1) !! Foot(m', m[c.p][i], h - 1)
    ensures c.p !in Foot(m', m[c.p][i], h - 1)
  {
    FootKid(m, c, h, k);
    assert Foot(m, m[c.p][i], h - 1) !! Foot(m, m[c.p][k], h - 1);
  }

  /** Ownership and the path survive a confined change. */
  lemma {:induction false} LiftOwns<T>(m: Heap<T>, m': Heap<T>, c: Cell<T>, h: nat, n: nat, l: nat)
    requires Owns(m, c, h) && 1 <= l <= h
    requires var b := Walk(m, c, h, n, l); b.Link? && Owns(m', b, l) && Confined(m, m', c, h, b, l)
    ensures Owns(m', c, h) && Walk(m', c, h, n, l) == Walk(m, c, h, n, l)
    ensures Within(m, m', c, h, Walk(m, c, h, n, l), l)
    decreases h
  {
    if h > l {
      LiftStep(m, m', c, h, n, l);
    }
  }

  /** What is known at a block above height l on the path. */
  lemma OnPath<T>(m: Heap<T>, m': Heap<T>, c: Cell<T>, h: nat, n: nat, l: nat)
    requires Owns(m, c, h) && 1 <= l < h
    requires var b := Walk(m, c, h, n, l); b.Link? && Confined(m, m', c, h, b, l)
    ensures c.Link? && c.p in m && |m[c.p]| == BLOCK && c.p in m' && m'[c.p] == m[c.p]
    ensures var kid, b := m[c.p][Digit(n, h - 1)], Walk(m, c, h, n, l);
            && Owns(m, kid, h - 1) && Walk(m, kid, h - 1, n, l) == b
            && Foot(m, b, l) <= Foot(m, kid, h - 1)
            && Confined(m, m', kid, h - 1, b, l)
  {
    var i := Digit(n, h - 1);
    WalkFoot(m, m[c.p][i], h - 1, n, l);
    FootKid(m, c, h, i);
    ConfinedKid(m, m', c, h, Walk(m, c, h, n, l), l, i);
  }

  lemma {:induction false} LiftStep<T>(m: Heap<T>, m': Heap<T>, c: Cell<T>, h: nat, n: nat, l: nat)
    requires Owns(m, c, h) && 1 <= l < h
    requires var b := Walk(m, c, h, n, l); b.Link? && Owns(m', b, l) && Confined(m, m', c, h, b, l)
    ensures Owns(m', c, h) && Walk(m', c, h, n, l) == Walk(m, c, h, n, l)
    ensures Within(m, m', c, h, Walk(m, c, h, n, l), l)
    decreases h, 0
  {
    hide Foot, Owns, Confined, Within, Digit;
    OnPath(m, m', c, h, n, l);
    var b := Walk(m, c, h, n, l);
    var i := Digit(n, h - 1);
    var kid := m[c.p][i];
    LiftOwns(m, m', kid, h - 1, n, l);
    forall k | 0 <= k < BLOCK && k != i
      ensures Owns(m', m[c.p][k], h - 1) && Foot(m', m[c.p][k], h - 1) == Foot(m, m[c.p][k], h - 1)
      ensures Foot(m', m[c.p][k], h - 1) !! Foot(m', kid, h - 1)
    {
      SiblingSame(m, m', c, h, b, l, i, k);
      StillApart(m, m', c, h, i, k, b, l);
    }
    StillApart(m, m', c, h, i, if i == 0 then 1 else 0, b, l);
    KidsOwned(m, m', c, h, i);
    LiftFoot(m, m', c, h, i, b, l);
  }

  lemma LiftFoot<T>(m: Heap<T>, m': Heap<T>, c: Cell<T>, h: nat, i: nat, b: Cell<T>, l: nat)
    requires Owns(m, c, h) && c.Link? && h > 1 && i < BLOCK && c.p in m' && m'[c.p] == m[c.p]
    requires forall k :: 0 <= k < BLOCK && k != i ==> Foot(m', m[c.p][k], h - 1) == Foot(m, m[c.p][k], h - 1)
    requires Within(m, m', m[c.p][i], h - 1, b, l)
    ensures Within(m, m', c, h, b, l)
  {
    forall q | q in Foot(m', c, h) && q != c.p
      ensures q in Foot(m, c, h) || q in Foot(m', b, l)
    {
      var k :| 0 <= k < |m'[c.p]| && q in Foot(m', m'[c.p][k], h - 1);
      FootKid(m, c, h, k);
    }
  }

  /** A confined change replaces one kid of each block on the path. */
  lemma KidsTree<T>(m: Heap<T>, m': Heap<T>, c: Cell<T>, h: nat, n: nat, l: nat)
    requires Owns(m, c, h) && 1 <= l < h
    requires var b := Walk(m, c, h, n, l); b.Link? && Owns(m', b, l) && Confined(m, m', c, h, b, l)
    ensures c.Link? && c.p in m && |m[c.p]| == BLOCK
    ensures Owns(m', c, h) && Owns(m', m[c.p][Digit(n, h - 1)], h - 1)
    ensures Tree(m', c, h)
         == Node(Tree(m, c, h).slots[Digit(n, h - 1) := Tree(m', m[c.p][Digit(n, h - 1)], h - 1)])
  {
    hide Foot, Owns, Confined, Tree, Digit, Walk, Within;
    LiftOwns(m, m', c, h, n, l);
    OnPath(m, m', c, h, n, l);
    KidTrees(m, c, h);
    KidTrees(m', c, h);
    var b, i := Walk(m, c, h, n, l), Digit(n, h - 1);
    forall k | 0 <= k < BLOCK && k != i
      ensures Tree(m', c, h).slots[k] == Tree(m, c, h).slots[k]
    {
      SiblingSame(m, m', c, h, b, l, i, k);
    }
    assert Tree(m', c, h).slots == Tree(m, c, h).slots[i := Tree(m', m[c.p][i], h - 1)];
  }

  lemma KidTrees<T>(m: Heap<T>, c: Cell<T>, h: nat)
    requires Owns(m, c, h) && c.Link? && h > 1
    ensures c.p in m && |m[c.p]| == BLOCK
    ensures Tree(m, c, h).Node? && |Tree(m, c, h).slots| == BLOCK
    ensures forall k :: 0 <= k < BLOCK ==> Owns(m, m[c.p][k], h - 1)
    ensures forall k :: 0 <= k < BLOCK ==> Tree(m, c, h).slots[k] == Tree(m, m[c.p][k], h - 1)
  {
  }

  /** What a confined change does at the block, it does to the whole tree. */
  lemma {:induction false} LiftPut<T>(m: Heap<T>, m': Heap<T>, c: Cell<T>, h: nat, n: nat, l: nat, x: Slot<T>)
    requires Owns(m, c, h) && 1 <= l <= h && !x.Node?
    requires var b := Walk(m, c, h, n, l); b.Link? && Owns(m', b, l) && Confined(m, m', c, h, b, l)
    requires Owns(m, Walk(m, c, h, n, l), l)
    ensures Owns(m', c, h)
    ensures var b := Walk(m, c, h, n, l);
            && (TreePut(Tree(m', b, l), l, n, x) == TreePut(Tree(m, b, l), l, n, x)
                ==> TreePut(Tree(m', c, h), h, n, x) == TreePut(Tree(m, c, h), h, n, x))
            && (Tree(m', b, l) == TreePut(Tree(m, b, l), l, n, x)
                ==> Tree(m', c, h) == TreePut(Tree(m, c, h), h, n, x))
            && (TreeGet(Tree(m', b, l), l, n) == TreeGet(Tree(m, b, l), l, n)
                ==> TreeGet(Tree(m', c, h), h, n) == TreeGet(Tree(m, c, h), h, n))
    decreases h
  {
    hide Foot, Owns, Confined, TreePut, TreeGet, Tree, Digit;
    if h > l {
      KidsTree(m, m', c, h, n, l);
      OnPath(m, m', c, h, n, l);
      LiftPut(m, m', m[c.p][Digit(n, h - 1)], h - 1, n, l, x);
      PutAtNode(m, m', c, h, n, x);
    }
  }

  lemma PutAtNode<T>(m: Heap<T>, m': Heap<T>, c: Cell<T>, h: nat, n: nat, x: Slot<T>)
    requires h > 1 && Owns(m, c, h) && Owns(m', c, h) && c.Link? && !x.Node?
    requires Owns(m', m[c.p][Digit(n, h - 1)], h - 1)
    requires Tree(m', c, h)
          == Node(Tree(m, c, h).slots[Digit(n, h - 1) := Tree(m', m[c.p][Digit(n, h - 1)], h - 1)])
    ensures var i := Digit(n, h - 1);
            var t, t' := Tree(m, m[c.p][i], h - 1), Tree(m', m[c.p][i], h - 1);
            && (TreePut(t', h - 1, n, x) == TreePut(t, h - 1, n, x)
                ==> TreePut(Tree(m', c, h), h, n, x) == TreePut(Tree(m, c, h), h, n, x))
            && (t' == TreePut(t, h - 1, n, x) ==> Tree(m', c, h) == TreePut(Tree(m, c, h), h, n, x))
            && TreeGet(Tree(m', c, h), h, n) == TreeGet(t', h - 1, n)
            && TreeGet(Tree(m, c, h), h, n) == TreeGet(t, h - 1, n)
  {
    var i := Digit(n, h - 1);
    var t, t' := Tree(m, m[c.p][i], h - 1), Tree(m', m[c.p][i], h - 1);
    var slots := Tree(m, c, h).slots;
    assert slots[i] == t;
    assert slots[i := t'][i := TreePut(t', h - 1, n, x)] == slots[i := TreePut(t', h - 1, n, x)];
  }

  // ---- the two writes of ossl_sa_set --------------------------------------------------------

  /** *p = val in the lowest block on the path stores the value in the tree. */
  lemma StoreValue<T>(m: Heap<T>, c: Cell<T>, h: nat, n: nat, x: Cell<T>)
    requires Owns(m, c, h) && h >= 1 && !x.Link? && Walk(m, c, h, n, 1).Link?
    ensures var p := Walk(m, c, h, n, 1).p;
            && p in m && |m[p]| == BLOCK
            && var m' := m[p := m[p][Digit(n, 0) := x]];
               Owns(m', c, h) && Tree(m', c, h) == TreePut(Tree(m, c, h), h, n, LeafOf(x))
  {
    var b := Walk(m, c, h, n, 1);
    WalkFoot(m, c, h, n, 1);
    var m' := m[b.p := m[b.p][Digit(n, 0) := x]];
    assert Owns(m', b, 1) && Confined(m, m', c, h, b, 1);
    assert Tree(m', b, 1).slots == TreePut(Tree(m, b, 1), 1, n, LeafOf(x)).slots;
    LiftPut(m, m', c, h, n, 1, LeafOf(x));
  }

  function Nils<T>(): (s: seq<Cell<T>>)
    ensures |s| == BLOCK && forall i :: 0 <= i < BLOCK ==> s[i] == Nil
  {
    seq(BLOCK, i => Nil)
  }

  /** A new block under a null pointer changes nothing that storing would not do itself. */
  lemma AllocBlock<T>(m: Heap<T>, c: Cell<T>, h: nat, n: nat, l: nat, q: nat, x: Slot<T>)
    requires Owns(m, c, h) && 1 < l <= h && Walk(m, c, h, n, l).Link? && q !in m && !x.Node?
    requires var p := Walk(m, c, h, n, l).p; p in m && |m[p]| == BLOCK && m[p][Digit(n, l - 1)].Nil?
    ensures var p := Walk(m, c, h, n, l).p;
            var m' := m[q := Nils()][p := m[p][Digit(n, l - 1) := Link(q)]];
            && Owns(m', c, h) && Walk(m', c, h, n, l) == Link(p)
            && TreePut(Tree(m', c, h), h, n, x) == TreePut(Tree(m, c, h), h, n, x)
            && TreeGet(Tree(m', c, h), h, n) == TreeGet(Tree(m, c, h), h, n)
  {
    var b := Walk(m, c, h, n, l);
    var d := Digit(n, l - 1);
    var m' := m[q := Nils()][b.p := m[b.p][d := Link(q)]];
    WalkFoot(m, c, h, n, l);
    FootKeys(m, c, h);
    AllocAt(m, b.p, l, d, q);
    assert Confined(m, m', c, h, b, l);
    LiftOwns(m, m', c, h, n, l);
    AllocPut(m, b.p, l, n, q, x);
    LiftPut(m, m', c, h, n, l, x);
  }

  lemma NewKid<T>(m: Heap<T>, l: nat, q: nat)
    requires l >= 1 && q in m && m[q] == Nils()
    ensures Owns(m, Link(q), l) && Foot(m, Link(q), l) == {q} && Tree(m, Link(q), l) == Empty<T>()
  {
    assert forall i :: 0 <= i < BLOCK ==> Foot(m, m[q][i], l - 1) == {};
    assert Tree(m, Link(q), l).slots == Empty<T>().slots;
  }

  lemma AllocAt<T>(m: Heap<T>, p: nat, l: nat, d: nat, q: nat)
    requires l > 1 && Owns(m, Link(p), l) && d < BLOCK && m[p][d].Nil? && q !in m
    ensures var m' := m[q := Nils()][p := m[p][d := Link(q)]];
            && Owns(m', Link(p), l)
            && (forall r :: r in Foot(m', Link(p), l) ==> r in Foot(m, Link(p), l) || r == q)
            && Tree(m', Link(p), l) == Node(Tree(m, Link(p), l).slots[d := Empty<T>()])
  {
    hide Owns, Foot, Tree, Shape;
    KidTrees(m, Link(p), l);
    var m' := m[q := Nils()][p := m[p][d := Link(q)]];
    NewKid(m', l - 1, q);
    FootKeys(m, Link(p), l);
    forall k | 0 <= k < BLOCK && k != d
      ensures Owns(m', m[p][k], l - 1)
      ensures Foot(m', m[p][k], l - 1) == Foot(m, m[p][k], l - 1)
      ensures Tree(m', m[p][k], l - 1) == Tree(m, m[p][k], l - 1)
      ensures q !in Foot(m', m[p][k], l - 1)
    {
      FootKid(m, Link(p), l, k);
      TopNotBelow(m, Link(p), l, k);
      Frame(m, m', m[p][k], l - 1);
    }
    AllocOwns(m, m', p, l, d, q);
    KidTrees(m', Link(p), l);
    assert Tree(m', Link(p), l).slots == Tree(m, Link(p), l).slots[d := Empty<T>()];
  }

  lemma AllocOwns<T>(m: Heap<T>, m': Heap<T>, p: nat, l: nat, d: nat, q: nat)
    requires l > 1 && Owns(m, Link(p), l) && d < BLOCK && p != q
    requires p in m' && m'[p] == m[p][d := Link(q)]
    requires Owns(m', Link(q), l - 1) && Foot(m', Link(q), l - 1) == {q}
    requires forall k :: 0 <= k < BLOCK && k != d ==> Owns(m', m[p][k], l - 1)
    requires forall k :: 0 <= k < BLOCK && k != d ==> Foot(m', m[p][k], l - 1) == Foot(m, m[p][k], l - 1)
    requires forall k :: 0 <= k < BLOCK && k != d ==> q !in Foot(m', m[p][k], l - 1)
    ensures Owns(m', Link(p), l)
    ensures forall r :: r in Foot(m', Link(p), l) ==> r in Foot(m, Link(p), l) || r == q
  {
    forall r | r in Foot(m', Link(p), l) && r != p
      ensures r in Foot(m, Link(p), l) || r == q
    {
      var k :| 0 <= k < |m'[p]| && r in Foot(m', m'[p][k], l - 1);
      if k != d { FootKid(m, Link(p), l, k); }
    }
    forall j, k | 0 <= j < k < BLOCK
      ensures Foot(m', m'[p][j], l - 1) !! Foot(m', m'[p][k], l - 1)
    {
      if j != d && k != d {
        assert Foot(m, m[p][j], l - 1) !! Foot(m, m[p][k], l - 1);
      }
    }
  }

  lemma AllocPut<T>(m: Heap<T>, p: nat, l: nat, n: nat, q: nat, x: Slot<T>)
    requires l > 1 && Owns(m, Link(p), l) && m[p][Digit(n, l - 1)].Nil? && q !in m && !x.Node?
    ensures var m' := m[q := Nils()][p := m[p][Digit(n, l - 1) := Link(q)]];
            && Owns(m', Link(p), l)
            && TreePut(Tree(m', Link(p), l), l, n, x) == TreePut(Tree(m, Link(p), l), l, n, x)
            && TreeGet(Tree(m', Link(p), l), l, n) == TreeGet(Tree(m, Link(p), l), l, n)
  {
    var d := Digit(n, l - 1);
    AllocAt(m, p, l, d, q);
    EmptyShape<T>(l - 1);
    var slots := Tree(m, Link(p), l).slots;
    assert slots[d] == Null;
    assert TreePut(Empty<T>(), l - 1, n, x) == TreePut(Null, l - 1, n, x);
    var s := TreePut(Empty<T>(), l - 1, n, x);
    assert slots[d := Empty<T>()][d := s] == slots[d := s];
    EmptyGet<T>(l - 1, n);
  }

  /** One step further down the path. */
  lemma {:induction false} WalkNext<T>(m: Heap<T>, c: Cell<T>, h: nat, n: nat, l: nat)
    requires Owns(m, c, h) && 1 < l <= h && Walk(m, c, h, n, l).Link?
    ensures var p := Walk(m, c, h, n, l).p;
            p in m && |m[p]| == BLOCK && Walk(m, c, h, n, l - 1) == m[p][Digit(n, l - 1)]
    decreases h
  {
    if h > l {
      WalkNext(m, m[c.p][Digit(n, h - 1)], h - 1, n, l);
    } else {
      var kid := m[c.p][Digit(n, h - 1)];
      assert Owns(m, kid, h - 1);
      assert Walk(m, kid, h - 1, n, l - 1) == kid;
    }
  }

  /** A new block under a null pointer, and the step down into it. */
  lemma AllocStep<T>(m: Heap<T>, c: Cell<T>, h: nat, n: nat, l: nat, q: nat, x: Slot<T>)
    requires Owns(m, c, h) && 1 < l <= h && Walk(m, c, h, n, l).Link? && q !in m && !x.Node?
    requires var p := Walk(m, c, h, n, l).p; p in m && |m[p]| == BLOCK && m[p][Digit(n, l - 1)].Nil?
    ensures var p := Walk(m, c, h, n, l).p;
            var m' := m[q := Nils()][p := m[p][Digit(n, l - 1) := Link(q)]];
            && Owns(m', c, h) && Walk(m', c, h, n, l - 1) == Link(q)
            && TreePut(Tree(m', c, h), h, n, x) == TreePut(Tree(m, c, h), h, n, x)
            && TreeGet(Tree(m', c, h), h, n) == TreeGet(Tree(m, c, h), h, n)
  {
    hide Owns, Tree, TreePut, TreeGet, Walk, Foot, Digit;
    AllocBlock(m, c, h, n, l, q, x);
    var p := Walk(m, c, h, n, l).p;
    WalkNext(m[q := Nils()][p := m[p][Digit(n, l - 1) := Link(q)]], c, h, n, l);
  }

  /** One step of a look-up, above the lowest block and in it. */
  lemma GetStep<T>(m: Heap<T>, c: Cell<T>, h: nat, n: nat)
    requires Owns(m, c, h) && h >= 1 && c.Link?
    ensures c.p in m && |m[c.p]| == BLOCK
    ensures h > 1 ==> Owns(m, m[c.p][Digit(n, h - 1)], h - 1)
                      && TreeGet(Tree(m, c, h), h, n) == TreeGet(Tree(m, m[c.p][Digit(n, h - 1)], h - 1), h - 1, n)
    ensures h == 1 ==> !m[c.p][Digit(n, 0)].Link? && TreeGet(Tree(m, c, h), h, n) == LeafOf(m[c.p][Digit(n, 0)])
  {
    hide Foot;
  }

  /** The lowest block on the path holds the value. */
  lemma {:induction false} WalkGet<T>(m: Heap<T>, c: Cell<T>, h: nat, n: nat)
    requires Owns(m, c, h) && h >= 1 && Walk(m, c, h, n, 1).Link?
    ensures var p := Walk(m, c, h, n, 1).p;
            && p in m && |m[p]| == BLOCK && !m[p][Digit(n, 0)].Link?
            && TreeGet(Tree(m, c, h), h, n) == LeafOf(m[p][Digit(n, 0)])
    decreases h
  {
    if h > 1 { WalkGet(m, m[c.p][Digit(n, h - 1)], h - 1, n); }
  }

  lemma RootOwns<T>(m: Heap<T>, q: nat, c: Cell<T>, h: nat)
    requires h > 0 && q in m && m[q] == [c] + Nils<T>()[1..] && Owns(m, c, h) && q !in Foot(m, c, h)
    ensures Owns(m, Link(q), h + 1)
  {
    assert forall i :: 1 <= i < BLOCK ==> m[q][i] == Nil && Foot(m, m[q][i], h) == {};
    hide Foot;
    assert m[q][0] == c;
  }

  /** A new root above the old one is the tree pushed down. */
  lemma PushBlock<T>(m: Heap<T>, c: Cell<T>, h: nat, q: nat)
    requires Owns(m, c, h) && q !in m
    ensures var m' := m[q := [c] + Nils<T>()[1..]];
            Owns(m', Link(q), h + 1) && Tree(m', Link(q), h + 1) == PushDown(Tree(m, c, h))
  {
    var m' := m[q := [c] + Nils<T>()[1..]];
    if h == 0 {
      assert Tree(m', Link(q), 1).slots == PushDown(Tree(m, c, 0)).slots;
    } else {
      PushAbove(m, c, h, q);
    }
  }

  lemma PushAbove<T>(m: Heap<T>, c: Cell<T>, h: nat, q: nat)
    requires Owns(m, c, h) && h > 0 && q !in m
    ensures var m' := m[q := [c] + Nils<T>()[1..]];
            Owns(m', Link(q), h + 1) && Tree(m', Link(q), h + 1) == PushDown(Tree(m, c, h))
  {
    hide Owns, Foot, Tree;
    var m' := m[q := [c] + Nils<T>()[1..]];
    FootKeys(m, c, h);
    Frame(m, m', c, h);
    RootOwns(m', q, c, h);
    KidTrees(m', Link(q), h + 1);
    NilTree(m', h);
    assert Tree(m', Link(q), h + 1).slots == PushDown(Tree(m, c, h)).slots;
  }

  lemma NilTree<T>(m: Heap<T>, h: nat)
    ensures Owns(m, Nil, h) && Tree(m, Nil, h) == Null
  {
  }
}
