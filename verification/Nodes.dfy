/**
 What the forest holds. `src/merge.rs` leaves the hash to the caller, so it is a parameter here:
 a record of the trait's functions, about which the general results assume nothing.
 */
module Nodes {
  import opened Bits
  import opened Forest
  import opened Store

  /** The merging half of the `Merge` trait, infallible. */
  datatype Hasher<!T> = Hasher(mergePos: (nat, T, T) -> T, merge: (T, T) -> T, mergePeaks: (T, T) -> T)

  /** The trait's default methods. */
  function DefaultHasher<T>(mergePos: (nat, T, T) -> T): Hasher<T> {
    Hasher(mergePos, (l: T, r: T) => mergePos(0, l, r), (l: T, r: T) => mergePos(0, l, r))
  }

  /** How a structure computes a parent from its position and its two children. */
  type Combine<!T> = (nat, T, T) -> T

  /** MMR merges without the position. */
  function MmrCombine<T>(m: Hasher<T>): Combine<T> {
    (p: nat, l: T, r: T) => m.merge(l, r)
  }

  /** MMRIVER merges the parent at p with position p + 1. */
  function MmriverCombine<T>(m: Hasher<T>): Combine<T> {
    (p: nat, l: T, r: T) => m.mergePos(p + 1, l, r)
  }

  /** The value of node (h, j) over the leaf hashes ls. */
  ghost function Node<T>(f: Combine<T>, ls: seq<T>, h: nat, j: nat): T
    requires InForest(|ls|, Coord(h, j))
    decreases h
  {
    if h == 0 then ls[j]
    else
      ChildrenInForest(|ls|, h - 1, j);
      f(Pos(h, j), Node(f, ls, h - 1, 2 * j), Node(f, ls, h - 1, 2 * j + 1))
  }

  lemma {:induction false} NodePrefix<T>(f: Combine<T>, ls: seq<T>, more: seq<T>, h: nat, j: nat)
    requires InForest(|ls|, Coord(h, j))
    ensures InForest(|ls + more|, Coord(h, j))
    ensures Node(f, ls + more, h, j) == Node(f, ls, h, j)
    decreases h
  {
    hide Pos, Shr;
    assert InForest(|ls + more|, Coord(h, j)) by { ShrMono(|ls|, |ls + more|, h); }
    LevelZero(|ls|, j);
    if h > 0 {
      ChildrenInForest(|ls|, h - 1, j);
      NodePrefix(f, ls, more, h - 1, 2 * j);
      NodePrefix(f, ls, more, h - 1, 2 * j + 1);
    }
  }

  lemma LevelZero(n: nat, j: nat)
    ensures InForest(n, Coord(0, j)) <==> j < n
  {
  }

  lemma NodeOfLeaf<T>(f: Combine<T>, ls: seq<T>, j: nat)
    requires InForest(|ls|, Coord(0, j))
    ensures j < |ls| && Node(f, ls, 0, j) == ls[j]
  {
  }

  /** MMR nodes above the leaves. */
  lemma MmrNode<T>(m: Hasher<T>, ls: seq<T>, h: nat, j: nat)
    requires h > 0 && InForest(|ls|, Coord(h, j))
    ensures InForest(|ls|, Coord(h - 1, 2 * j)) && InForest(|ls|, Coord(h - 1, 2 * j + 1))
    ensures Node(MmrCombine(m), ls, h, j)
            == m.merge(Node(MmrCombine(m), ls, h - 1, 2 * j), Node(MmrCombine(m), ls, h - 1, 2 * j + 1))
  {
    hide Pos, Shr;
    ChildrenInForest(|ls|, h - 1, j);
  }

  ghost predicate AllIn(n: nat, cs: seq<Coord>) {
    forall i :: 0 <= i < |cs| ==> InForest(n, cs[i])
  }

  ghost function Values<T>(f: Combine<T>, ls: seq<T>, cs: seq<Coord>): (vs: seq<T>)
    requires AllIn(|ls|, cs)
  {
    seq(|cs|, i requires 0 <= i < |cs| => Node(f, ls, cs[i].h, cs[i].j))
  }

  lemma ValuesAppend<T>(f: Combine<T>, ls: seq<T>, a: seq<Coord>, b: seq<Coord>)
    requires AllIn(|ls|, a + b)
    ensures AllIn(|ls|, a) && AllIn(|ls|, b)
    ensures Values(f, ls, a + b) == Values(f, ls, a) + Values(f, ls, b)
  {
    hide InForest, Node;
    assert forall i :: 0 <= i < |a| ==> a[i] == (a + b)[i];
    assert forall i :: 0 <= i < |b| ==> b[i] == (a + b)[|a| + i];
  }

  lemma ValuesPrefix<T>(f: Combine<T>, ls: seq<T>, more: seq<T>, cs: seq<Coord>)
    requires AllIn(|ls|, cs)
    ensures AllIn(|ls + more|, cs) && Values(f, ls + more, cs) == Values(f, ls, cs)
  {
    hide Node, InForest;
    forall i | 0 <= i < |cs|
      ensures InForest(|ls + more|, cs[i])
              && Node(f, ls + more, cs[i].h, cs[i].j) == Node(f, ls, cs[i].h, cs[i].j)
    {
      NodePrefix(f, ls, more, cs[i].h, cs[i].j);
    }
  }

  lemma ValuesCount<T>(f: Combine<T>, ls: seq<T>, cs: seq<Coord>)
    requires AllIn(|ls|, cs)
    ensures |Values(f, ls, cs)| == |cs|
  {
  }

  /** The value the flat array must hold at position p. */
  ghost function NodeAt<T>(f: Combine<T>, ls: seq<T>, p: nat): T
    requires p < Size(|ls|)
  {
    PosOfCoord(p);
    InForestPos(|ls|, Height(p), Block(p));
    Node(f, ls, Height(p), Block(p))
  }

  lemma NodeAtPos<T>(f: Combine<T>, ls: seq<T>, h: nat, j: nat)
    requires InForest(|ls|, Coord(h, j))
    ensures Pos(h, j) < Size(|ls|) && NodeAt(f, ls, Pos(h, j)) == Node(f, ls, h, j)
  {
    hide Pos, Size, Shr, Node, Height, Block;
    InForestPos(|ls|, h, j);
    CoordOfPos(h, j);
  }

  /** A store view that reads as the forest at every position below its size. */
  ghost predicate Holds<T>(view: map<nat, T>, f: Combine<T>, ls: seq<T>) {
    forall p: nat :: p < Size(|ls|) ==> p in view && view[p] == NodeAt(f, ls, p)
  }

  lemma HoldsNode<T>(view: map<nat, T>, f: Combine<T>, ls: seq<T>, h: nat, j: nat)
    requires Holds(view, f, ls) && InForest(|ls|, Coord(h, j))
    ensures Pos(h, j) in view && view[Pos(h, j)] == Node(f, ls, h, j)
  {
    hide Pos, Size, Shr, Node, Height, Block, NodeAt;
    NodeAtPos(f, ls, h, j);
  }

  // ----- pushing a leaf -----

  /** The nodes completed by leaf n lie above it, one for each trailing one of n. */
  lemma NewNodeInForest(n: nat, g: nat)
    requires g <= TrailingZeros(n + 1)
    ensures Pos(g, Shr(n, g)) == Size(n) + g
    ensures InForest(n + 1, Coord(g, Shr(n, g)))
  {
    hide Size, Pos, Shr, TrailingZeros, InForest, LastLeaf;
    LastLeafShr(n, g);
    PosFromLastLeaf(g, Shr(n, g));
    SizeSucc(n);
    InForestPos(n + 1, g, Shr(n, g));
  }

  /** The values a push appends when the forest holds ls and the new leaf hashes to x. */
  ghost function NewNodes<T>(f: Combine<T>, ls: seq<T>, x: T): (ns: seq<T>)
    ensures |ns| == TrailingZeros(|ls| + 1) + 1
  {
    seq(TrailingZeros(|ls| + 1) + 1, g requires 0 <= g <= TrailingZeros(|ls| + 1) =>
      NewNodeInForest(|ls|, g);
      Node(f, ls + [x], g, Shr(|ls|, g)))
  }

  /** One step of the carry chain: a right child meets its left sibling, already stored. */
  lemma CarryStep(n: nat, g: nat)
    requires g <= TrailingZeros(n + 1)
    ensures Shr(n, g) % 2 == 1 <==> g < TrailingZeros(n + 1)
    ensures g < TrailingZeros(n + 1) ==>
              var j := Shr(n, g);
              && j == 2 * (j / 2) + 1 && InForest(n, Coord(g, j - 1))
              && Pos(g, j - 1) == Size(n) + g + 1 - Pow2(g + 1)
              && Shr(n, g + 1) == j / 2
  {
    hide Pos, Size, Shr, TrailingZeros, Pow2;
    TrailingOnes(n, g);
    if g < TrailingZeros(n + 1) {
      NewNodeInForest(n, g);
      ShrStep(n, g);
      FamilyOf(g, Shr(n, g));
    }
  }

  lemma NewNodeStep<T>(f: Combine<T>, ls: seq<T>, x: T, g: nat)
    requires g < TrailingZeros(|ls| + 1)
    ensures var j := Shr(|ls|, g);
            && j > 0 && InForest(|ls|, Coord(g, j - 1))
            && NewNodes(f, ls, x)[g + 1]
               == f(Size(|ls|) + g + 1, Node(f, ls, g, j - 1), NewNodes(f, ls, x)[g])
  {
    hide Pos, Size, Shr, TrailingZeros, InForest, Pow2;
    var n, j := |ls|, Shr(|ls|, g);
    CarryStep(n, g);
    NewNodeInForest(n, g);
    NewNodeInForest(n, g + 1);
    ChildrenInForest(n + 1, g, j / 2);
    NodePrefix(f, ls, [x], g, j - 1);
  }

  /** One link of the carry chain: where the left child is, and what its parent is worth. */
  lemma NewNodeLink<T>(f: Combine<T>, ls: seq<T>, x: T, g: nat) returns (left: nat)
    requires g < TrailingZeros(|ls| + 1)
    ensures left + Pow2(g + 1) == Size(|ls|) + g + 1 && left < Size(|ls|)
    ensures NewNodes(f, ls, x)[g + 1] == f(Size(|ls|) + g + 1, NodeAt(f, ls, left), NewNodes(f, ls, x)[g])
  {
    hide Pos, Node, NodeAt, Size, TrailingZeros, NewNodes, InForest, Pow2, PopCount, MaxLeaves;
    var j := LeftSibling(f, ls, x, g);
    NodeAtPos(f, ls, g, j);
    left := Pos(g, j);
  }

  lemma Assoc<A>(a: seq<A>, b: seq<A>, c: seq<A>)
    ensures (a + b) + c == a + (b + c)
  {
  }

  lemma OneMore<A>(s: seq<A>, k: nat)
    requires k < |s|
    ensures s[..k + 1] == s[..k] + [s[k]]
  {
  }

  lemma LeftSibling<T>(f: Combine<T>, ls: seq<T>, x: T, g: nat) returns (j: nat)
    requires g < TrailingZeros(|ls| + 1)
    ensures InForest(|ls|, Coord(g, j)) && Pos(g, j) + Pow2(g + 1) == Size(|ls|) + g + 1
    ensures NewNodes(f, ls, x)[g + 1] == f(Size(|ls|) + g + 1, Node(f, ls, g, j), NewNodes(f, ls, x)[g])
  {
    hide Pos, Node, Size, Shr, TrailingZeros, NewNodes, InForest, Pow2;
    CarryStep(|ls|, g);
    NewNodeStep(f, ls, x, g);
    j := Shr(|ls|, g) - 1;
  }

  lemma {:induction false} TrailingOnes(n: nat, g: nat)
    requires g <= TrailingZeros(n + 1)
    ensures Shr(n, g) % 2 == 1 <==> g < TrailingZeros(n + 1)
    decreases g
  {
    if n % 2 == 1 { assert (n + 1) / 2 == n / 2 + 1; }
    if g > 0 {
      TrailingOnes(n / 2, g - 1);
    }
  }

  lemma OldNodeAt<T>(f: Combine<T>, ls: seq<T>, x: T, p: nat)
    requires p < Size(|ls|)
    ensures p < Size(|ls + [x]|) && NodeAt(f, ls + [x], p) == NodeAt(f, ls, p)
  {
    hide Pos, Size, Shr, Node, Height, Block, InForest;
    SizeMono(|ls|, |ls| + 1);
    PosOfCoord(p);
    InForestPos(|ls|, Height(p), Block(p));
    NodePrefix(f, ls, [x], Height(p), Block(p));
  }

  lemma NewNodeAt<T>(f: Combine<T>, ls: seq<T>, x: T, g: nat)
    requires g <= TrailingZeros(|ls| + 1)
    ensures Size(|ls|) + g < Size(|ls + [x]|)
    ensures NodeAt(f, ls + [x], Size(|ls|) + g) == NewNodes(f, ls, x)[g]
  {
    hide Pos, Size, Shr, Node, InForest, TrailingZeros;
    SizeSucc(|ls|);
    MaxLeavesUnique(Size(|ls|) + g, |ls|);
  }

  /** Appending the new nodes at the end turns a view of ls into a view of ls + [x]. */
  lemma HoldsAfterPush<T>(view: map<nat, T>, view': map<nat, T>, f: Combine<T>, ls: seq<T>, x: T)
    requires Holds(view, f, ls)
    requires forall p: nat :: p < Size(|ls|) && p in view ==> p in view' && view'[p] == view[p]
    requires forall g: nat :: g <= TrailingZeros(|ls| + 1) ==>
               Size(|ls|) + g in view' && view'[Size(|ls|) + g] == NewNodes(f, ls, x)[g]
    ensures Holds(view', f, ls + [x])
    ensures Size(|ls + [x]|) == Size(|ls|) + |NewNodes(f, ls, x)|
  {
    hide Size, TrailingZeros, NodeAt, NewNodes;
    SizeSucc(|ls|);
    forall p: nat | p < Size(|ls + [x]|)
      ensures p in view' && view'[p] == NodeAt(f, ls + [x], p)
    {
      if p < Size(|ls|) {
        OldNodeAt(f, ls, x, p);
      } else {
        NewNodeAt(f, ls, x, p - Size(|ls|));
        assert p == Size(|ls|) + (p - Size(|ls|));
      }
    }
  }

  /** Writing the new nodes where the forest ends. */
  lemma HoldsAfterWrite<T>(view: map<nat, T>, f: Combine<T>, ls: seq<T>, x: T, size: u64)
    requires Holds(view, f, ls) && size == Size(|ls|)
    ensures Holds(Write(view, Segment(size, NewNodes(f, ls, x))), f, ls + [x])
    ensures Size(|ls + [x]|) == size + |NewNodes(f, ls, x)|
  {
    hide Size, TrailingZeros, NodeAt, NewNodes;
    var s := Segment(size, NewNodes(f, ls, x));
    var view' := Write(view, s);
    forall g: nat | g <= TrailingZeros(|ls| + 1)
      ensures Size(|ls|) + g in view' && view'[Size(|ls|) + g] == NewNodes(f, ls, x)[g]
    {
      assert s.Covers(size + g);
    }
    HoldsAfterPush(view, view', f, ls, x);
  }
}
