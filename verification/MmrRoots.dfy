/** Runs with equal MMR roots are equal, under a hash without collisions. */
module MmrRoots {
  import opened Bits
  import opened Forest
  import opened Nodes
  import opened FreeHash
  import opened Bagging
  import opened ProofPlan
  import opened ProofSpec
  import opened MmrSoundness

  /** Equal peaks over equally many leaves come from equal leaves. */
  lemma PeaksBind<T(!new)>(f: Combine<T>, a: seq<T>, b: seq<T>)
    requires Injective(f) && |a| == |b| && PeakValues(f, a) == PeakValues(f, b)
    ensures a == b
  {
    hide Peaks, Node, Shr, PeakValues, Injective, Under;
    forall i | 0 <= i < |a|
      ensures a[i] == b[i]
    {
      var k := LeafInPeak(|a|, i);
      PeakValueAt(f, a, k);
      PeakValueAt(f, b, k);
      NodeBinds(f, a, b, Peaks(|a|)[k].h, Peaks(|a|)[k].j, i);
    }
  }

  /** Runs of one length, whatever their leaf hashes. */
  lemma SameLengthBinds<D(!new)>(a: seq<Hash<D>>, b: seq<Hash<D>>)
    requires a != [] && |a| == |b|
    requires Root(Free<D>(), MmrCombine(Free<D>()), a) == Root(Free<D>(), MmrCombine(Free<D>()), b)
    ensures a == b
  {
    hide Free, MmrCombine, PeakValues, Peaks, Bag, Injective;
    var f := MmrCombine(Free<D>());
    PeakTotal(f, a);
    PeakTotal(f, b);
    BagBinds(PeakValues(f, a), PeakValues(f, b));
    BothInjective<D>();
    PeaksBind(f, a, b);
  }

  // ----- counting the leaf hashes in a root -----

  function LeafCount<D>(t: Hash<D>): nat {
    match t
    case HLeaf(d) => 1
    case HNode(p, l, r) => LeafCount(l) + LeafCount(r)
  }

  lemma {:induction false} NodeCount<D>(ls: seq<Hash<D>>, h: nat, j: nat)
    requires Hashed(ls) && InForest(|ls|, Coord(h, j))
    ensures LeafCount(Node(MmrCombine(Free<D>()), ls, h, j)) == Pow2(h)
    decreases h
  {
    hide Pos, Shr, Free, MmrCombine, Node;
    LevelZero(|ls|, j);
    if h == 0 {
      NodeOfLeaf(MmrCombine(Free<D>()), ls, j);
    } else {
      MmrNode(Free<D>(), ls, h, j);
      FreeMerges(0, Node(MmrCombine(Free<D>()), ls, h - 1, 2 * j), Node(MmrCombine(Free<D>()), ls, h - 1, 2 * j + 1));
      NodeCount(ls, h - 1, 2 * j);
      NodeCount(ls, h - 1, 2 * j + 1);
    }
  }

  /** The peaks below height k, bagged, have as many as they cover. */
  lemma {:induction false} PeaksCount<D>(ls: seq<Hash<D>>, k: nat)
    requires Hashed(ls) && PeaksBelow(|ls|, k) != []
    ensures AllIn(|ls|, PeaksBelow(|ls|, k))
    ensures LeafCount(Bag(Free<D>(), Values(MmrCombine(Free<D>()), ls, PeaksBelow(|ls|, k)))) + Shl(Shr(|ls|, k), k) == |ls|
    decreases k
  {
    hide Shr, Shl, Node, Values, PeaksBelow, InForest, Free, MmrCombine, Bag, Pow2, Hashed, AllIn;
    var n, f := |ls|, MmrCombine(Free<D>());
    PeaksBelowIn(n, k);
    NoPeaksBelow(n);
    DecidedStep(n, k);
    PeaksBelowStep(n, k);
    if Shr(n, k - 1) % 2 == 0 {
      PeaksCount(ls, k - 1);
    } else {
      var c, rest := Coord(k - 1, Shr(n, k - 1) - 1), PeaksBelow(n, k - 1);
      PeaksBelowIn(n, k - 1);
      FirstIn(n, c, rest);
      NodeCount(ls, c.h, c.j);
      BagFirst(ls, c, rest);
      ShlOne(c.j, c.h);
      if rest == [] { NoneLeft(n, k - 1); } else { PeaksCount(ls, k - 1); }
    }
  }

  lemma FirstIn(n: nat, c: Coord, rest: seq<Coord>)
    requires AllIn(n, [c] + rest)
    ensures InForest(n, c)
  {
    hide InForest;
    assert ([c] + rest)[0] == c;
  }

  lemma BagFirst<D>(ls: seq<Hash<D>>, c: Coord, rest: seq<Coord>)
    requires InForest(|ls|, c) && AllIn(|ls|, rest)
    ensures AllIn(|ls|, [c] + rest)
    ensures var (m, f) := (Free<D>(), MmrCombine(Free<D>()));
            LeafCount(Bag(m, Values(f, ls, [c] + rest)))
            == LeafCount(Node(f, ls, c.h, c.j)) + if rest == [] then 0 else LeafCount(Bag(m, Values(f, ls, rest)))
  {
    hide Node, InForest, Free, MmrCombine;
    var f := MmrCombine(Free<D>());
    var values := Values(f, ls, [c] + rest);
    assert values == [Node(f, ls, c.h, c.j)] + Values(f, ls, rest);
    if rest != [] { BagOfTwo(values); }
  }

  /** Leaf hashes kept apart from merges: a root tells how long its run is, too. */
  lemma HashedRootsBind<D(!new)>(a: seq<Hash<D>>, b: seq<Hash<D>>)
    requires a != [] && b != [] && Hashed(a) && Hashed(b)
    requires Root(Free<D>(), MmrCombine(Free<D>()), a) == Root(Free<D>(), MmrCombine(Free<D>()), b)
    ensures a == b
  {
    hide Free, MmrCombine, Hashed, Root;
    RootCount(a);
    RootCount(b);
    SameLengthBinds(a, b);
  }

  lemma RootCount<D>(ls: seq<Hash<D>>)
    requires ls != [] && Hashed(ls)
    ensures LeafCount(Root(Free<D>(), MmrCombine(Free<D>()), ls)) == |ls|
  {
    hide Free, MmrCombine, Hashed, PeaksBelow, Values, Shl, Shr, Bag;
    var n, k := |ls|, BitLength(|ls|);
    PeaksNotEmpty(n);
    PeaksAllIn(n);
    BitLengthBounds(n);
    ShrZero(n, k);
    ShlLinear(0, 0, k);
    PeaksCount(ls, k);
  }
}
