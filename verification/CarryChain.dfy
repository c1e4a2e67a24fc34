/**
 The two structures compared: MMR reads its carry chain off the bitmap of the peaks, MMRIVER off the
 height of the next position.
 */
module CarryChain {
  import opened Bits
  import opened Forest
  import opened Nodes
  import opened Bagging
  import opened Store
  import opened Mmr
  import opened Mmriver
  import opened Replay
  import opened Wrappers

  /** From every complete size both loops go on for equally long, and take the same left child. */
  lemma SameGuard(n: nat, g: nat)
    requires g <= TrailingZeros(n + 1)
    ensures And(MaxLeaves(Size(n)), Pow2(g)) != 0 <==> Height(Size(n) + 1 + g) > g
    ensures And(MaxLeaves(Size(n)), Pow2(g)) != 0 ==>
              var leftOfMmr, leftOfMmriver := Size(n) + (g + 1) - Pow2(g + 1), (Size(n) + g + 1) - Shl(2, g);
              leftOfMmr == leftOfMmriver && 0 <= leftOfMmr < Size(n)
              && Height(leftOfMmr) == g
  {
    hide Size, Height, TrailingZeros, Pow2, Shl, And, Shr, Pos, Block, MaxLeaves, InForest, PopCount;
    MaxLeavesOfSize(n);
    AndBit(n, g);
    TrailingOnes(n, g);
    ClimbGuard(n, g);
    ShlTwo(g);
    if g < TrailingZeros(n + 1) {
      CarryStep(n, g);
      LeftChild(n, g, Shr(n, g) - 1);
    }
  }

  lemma LeftChild(n: nat, g: nat, j: nat)
    requires InForest(n, Coord(g, j))
    ensures Pos(g, j) < Size(n) && Height(Pos(g, j)) == g
  {
    hide Size, Height, Pos, Shr;
    InForestPos(n, g, j);
    CoordOfPos(g, j);
  }

  /** A merge that takes no notice of the position. */
  ghost predicate PositionBlind<T(!new)>(m: Hasher<T>) {
    forall p: nat, l: T, r: T :: m.mergePos(p, l, r) == m.merge(l, r)
  }

  lemma {:induction false} SameNode<T(!new)>(m: Hasher<T>, ls: seq<T>, h: nat, j: nat)
    requires PositionBlind(m) && InForest(|ls|, Coord(h, j))
    ensures Node(MmrCombine(m), ls, h, j) == Node(MmriverCombine(m), ls, h, j)
    decreases h
  {
    hide Pos, Shr;
    if h > 0 {
      ChildrenInForest(|ls|, h - 1, j);
      SameNode(m, ls, h - 1, 2 * j);
      SameNode(m, ls, h - 1, 2 * j + 1);
    }
  }

  lemma SameStored<T(!new)>(m: Hasher<T>, ls: seq<T>)
    requires PositionBlind(m)
    ensures Stored(MmrCombine(m), ls) == Stored(MmriverCombine(m), ls)
  {
    hide Pos, Size, Shr, Node, Height, Block, MmrCombine, MmriverCombine, InForest;
    forall p: nat | p < Size(|ls|)
      ensures NodeAt(MmrCombine(m), ls, p) == NodeAt(MmriverCombine(m), ls, p)
    {
      PosOfCoord(p);
      InForestPos(|ls|, Height(p), Block(p));
      SameNode(m, ls, Height(p), Block(p));
    }
  }

  lemma SamePeaks<T(!new)>(m: Hasher<T>, ls: seq<T>)
    requires PositionBlind(m)
    ensures PeakValues(MmrCombine(m), ls) == PeakValues(MmriverCombine(m), ls)
  {
    hide Node, Shr, Peaks, MmrCombine, MmriverCombine;
    PeaksAllIn(|ls|);
    forall i | 0 <= i < |Peaks(|ls|)|
      ensures PeakValues(MmrCombine(m), ls)[i] == PeakValues(MmriverCombine(m), ls)[i]
    {
      SameNode(m, ls, Peaks(|ls|)[i].h, Peaks(|ls|)[i].j);
    }
  }

  /**
   A run of one structure and a run of the other that push the same data, wherever each commits, end
   with the same readable contents, hand out the same positions and return the same root.
   */
  method SameRuns<D, T(==, !new)>(ops: seq<Op<D>>, ops': seq<Op<D>>, leafHash: D -> T, hasher: Hasher<T>)
    returns (mmr: MMR<D, T>, mmriver: MMRIVER<D, T>, root: Result<T>, root': Result<T>)
    requires PositionBlind(hasher) && Pushed(leafHash, ops) == Pushed(leafHash, ops')
    requires Size(|Pushed(leafHash, ops)|) <= SIZE_LIMIT
    ensures mmr.Valid() && mmriver.Valid() && mmr.leaves == mmriver.leaves == Pushed(leafHash, ops)
    ensures mmr.mmrSize == mmriver.mmrSize && mmr.batch.Contents() == mmriver.batch.Contents()
    ensures root == root' && (root.Ok? <==> Pushed(leafHash, ops) != [])
  {
    hide Stored, PeakValues, MmrCombine, MmriverCombine, Pushed, Size, Holds, Ascending, View, PositionBlind, Bag;
    SameStored(hasher, Pushed(leafHash, ops));
    SamePeaks(hasher, Pushed(leafHash, ops));
    var positions, positions';
    mmr, positions := ReplayMmr(ops, leafHash, hasher);
    mmriver, positions' := ReplayMmriver(ops', leafHash, hasher);
    root := mmr.GetRoot();
    root' := mmriver.GetRoot();
  }
}
