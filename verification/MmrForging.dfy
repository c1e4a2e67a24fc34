/**
 Accepted MMR proofs of false leaves where leaf hashes may be merges, as with a hasher that does not keep
 the two apart: at the one number of items that does not bind, they exist for every size and every list
 of leaf positions. Where leaf hashes are no merges, see MmrHashedRuns.
 */
module MmrForging {
  import opened Bits
  import opened Forest
  import opened Nodes
  import opened FreeHash
  import opened Bagging
  import opened ProofPlan
  import opened ProofSpec
  import opened Completeness
  import opened FirstClaims
  import opened MmrNextRoot
  import opened MmrSoundness
  import opened MmrBinding
  import opened Wrappers

  // ----- terms to forge with -----

  /** k levels of position-less merges from the top. */
  predicate Deep<D>(t: Hash<D>, k: nat) {
    k == 0 || (t.HNode? && t.pos == 0 && Deep(t.left, k - 1) && Deep(t.right, k - 1))
  }

  function Full<D>(k: nat, x: D): (t: Hash<D>)
    ensures Deep(t, k)
  {
    if k == 0 then HLeaf(x) else HNode(0, Full(k - 1, x), Full(k - 1, x))
  }

  /** What lies k levels down, left to right. */
  function Cut<D>(t: Hash<D>, k: nat): (s: seq<Hash<D>>)
    requires Deep(t, k)
    ensures |s| == Pow2(k)
  {
    if k == 0 then [t] else Cut(t.left, k - 1) + Cut(t.right, k - 1)
  }

  lemma {:induction false} DeepMono<D>(t: Hash<D>, k: nat, j: nat)
    requires j <= k && Deep(t, k)
    ensures Deep(t, j)
  {
    if j > 0 {
      DeepMono(t.left, k - 1, j - 1);
      DeepMono(t.right, k - 1, j - 1);
    }
  }

  lemma {:induction false} CutMerges<D>(t: Hash<D>, k: nat)
    requires Deep(t, k + 1)
    ensures Deep(t, k) && forall i :: 0 <= i < |Cut(t, k)| ==> Cut(t, k)[i].HNode?
  {
    if k > 0 {
      CutMerges(t.left, k - 1);
      CutMerges(t.right, k - 1);
    }
  }

  lemma CutStep<D>(t: Hash<D>, k: nat)
    requires Deep(t, k)
    ensures k == 0 ==> Cut(t, k) == [t]
    ensures k > 0 ==>
              && t == HNode(0, t.left, t.right) && Deep(t.left, k - 1) && Deep(t.right, k - 1)
              && Cut(t, k) == Cut(t.left, k - 1) + Cut(t.right, k - 1)
  {
  }

  /** Any node over what a term is cut into is that term. */
  lemma {:induction false} CutNode<D>(fs: seq<Hash<D>>, t: Hash<D>, h: nat, j: nat)
    requires Deep(t, h) && InForest(|fs|, Coord(h, j))
    requires Shl(j, h) + Pow2(h) <= |fs| && fs[Shl(j, h)..Shl(j, h) + Pow2(h)] == Cut(t, h)
    ensures Node(MmrCombine(Free<D>()), fs, h, j) == t
    decreases h
  {
    hide Pos, Shl, Shr, Free, Pow2, MmrCombine, Node, Cut, Deep;
    LevelZero(|fs|, j);
    ShlStep(j, h);
    if h == 0 {
      NodeOfLeaf(MmrCombine(Free<D>()), fs, j);
      CutStep(t, 0);
      assert fs[j..j + 1] == [fs[j]];
    } else {
      CutStep(t, h);
      var f, l, r := MmrCombine(Free<D>()), Cut(t.left, h - 1), Cut(t.right, h - 1);
      ChildrenInForest(|fs|, h - 1, j);
      ShlLinear(j, j, h - 1);
      ShlOne(2 * j, h - 1);
      var a, half := Shl(j, h), Pow2(h - 1);
      assert Shl(2 * j, h - 1) == a && Shl(2 * j + 1, h - 1) == a + half;
      Halves(fs, a, half, l, r);
      CutNode(fs, t.left, h - 1, 2 * j);
      CutNode(fs, t.right, h - 1, 2 * j + 1);
      MmrNode(Free<D>(), fs, h, j);
      FreeMerges(0, t.left, t.right);
    }
  }

  lemma Halves<A>(s: seq<A>, a: nat, half: nat, l: seq<A>, r: seq<A>)
    requires a + half + half <= |s| && |l| == |r| == half && s[a..a + half + half] == l + r
    ensures s[a..a + half] == l && s[a + half..a + half + half] == r
  {
    var t := s[a..a + half + half];
    assert s[a..a + half] == t[..half] && s[a + half..a + half + half] == t[half..];
  }

  /** The leaves of a node and of its two children. */
  lemma LeavesBelow(h: nat, j: nat, i: nat)
    requires h > 0
    ensures Under(0, i, h - 1, 2 * j) || Under(0, i, h - 1, 2 * j + 1) ==> Under(0, i, h, j)
  {
    hide Shr;
    ShrStep(i, h - 1);
  }

  /** A node depends on the leaves below it only. */
  lemma {:induction false} NodeAgrees<T>(f: Combine<T>, a: seq<T>, b: seq<T>, h: nat, j: nat)
    requires |a| == |b| && InForest(|a|, Coord(h, j))
    requires forall i :: 0 <= i < |a| && Under(0, i, h, j) ==> a[i] == b[i]
    ensures Node(f, a, h, j) == Node(f, b, h, j)
    decreases h
  {
    hide Pos, Under, Shr;
    LevelZero(|a|, j);
    if h == 0 {
      UnderZero(j, j);
    } else {
      ChildrenInForest(|a|, h - 1, j);
      forall i | 0 <= i < |a| && (Under(0, i, h - 1, 2 * j) || Under(0, i, h - 1, 2 * j + 1))
        ensures a[i] == b[i]
      {
        LeavesBelow(h, j, i);
      }
      NodeAgrees(f, a, b, h - 1, 2 * j);
      NodeAgrees(f, a, b, h - 1, 2 * j + 1);
    }
  }

  lemma {:induction false} NodeDeep<D>(ls: seq<Hash<D>>, h: nat, j: nat, d: nat)
    requires InForest(|ls|, Coord(h, j))
    requires forall i :: 0 <= i < |ls| && Under(0, i, h, j) ==> Deep(ls[i], d)
    ensures Deep(Node(MmrCombine(Free<D>()), ls, h, j), h + d)
    decreases h
  {
    hide Pos, Under, Shr, Free, MmrCombine;
    LevelZero(|ls|, j);
    if h == 0 {
      UnderZero(j, j);
      NodeOfLeaf(MmrCombine(Free<D>()), ls, j);
    } else {
      ChildrenInForest(|ls|, h - 1, j);
      forall i | 0 <= i < |ls| && (Under(0, i, h - 1, 2 * j) || Under(0, i, h - 1, 2 * j + 1))
        ensures Deep(ls[i], d)
      {
        LeavesBelow(h, j, i);
      }
      NodeDeep(ls, h - 1, 2 * j, d);
      NodeDeep(ls, h - 1, 2 * j + 1, d);
      MmrNode(Free<D>(), ls, h, j);
      FreeMerges(0, Node(MmrCombine(Free<D>()), ls, h - 1, 2 * j), Node(MmrCombine(Free<D>()), ls, h - 1, 2 * j + 1));
    }
  }

  lemma {:induction false} NodeFull<D>(ls: seq<Hash<D>>, h: nat, j: nat, d: nat, x: D)
    requires InForest(|ls|, Coord(h, j))
    requires forall i :: 0 <= i < |ls| && Under(0, i, h, j) ==> ls[i] == Full(d, x)
    ensures Node(MmrCombine(Free<D>()), ls, h, j) == Full(h + d, x)
    decreases h
  {
    hide Pos, Under, Shr, Free, MmrCombine;
    LevelZero(|ls|, j);
    if h == 0 {
      UnderZero(j, j);
      NodeOfLeaf(MmrCombine(Free<D>()), ls, j);
    } else {
      ChildrenInForest(|ls|, h - 1, j);
      forall i | 0 <= i < |ls| && (Under(0, i, h - 1, 2 * j) || Under(0, i, h - 1, 2 * j + 1))
        ensures ls[i] == Full(d, x)
      {
        LeavesBelow(h, j, i);
      }
      NodeFull(ls, h - 1, 2 * j, d, x);
      NodeFull(ls, h - 1, 2 * j + 1, d, x);
      MmrNode(Free<D>(), ls, h, j);
      FreeMerges(0, Node(MmrCombine(Free<D>()), ls, h - 1, 2 * j), Node(MmrCombine(Free<D>()), ls, h - 1, 2 * j + 1));
    }
  }

  lemma {:induction false} BagDeep<D>(hashes: seq<Hash<D>>, d: nat)
    requires hashes != [] && forall i :: 0 <= i < |hashes| ==> Deep(hashes[i], d)
    ensures Deep(Bag(Free<D>(), hashes), d)
  {
    hide Free;
    if |hashes| > 1 {
      var rest := hashes[1..];
      forall i | 0 <= i < |rest| ensures Deep(rest[i], d) { assert rest[i] == hashes[i + 1]; }
      BagDeep(rest, d);
      FreeMerges(0, Bag(Free<D>(), rest), hashes[0]);
      if d > 0 {
        DeepMono(hashes[0], d, d - 1);
        DeepMono(Bag(Free<D>(), rest), d, d - 1);
      }
    }
  }

  // ----- forging -----

  /** The leaves of fs at these positions. */
  ghost function Claims<T>(fs: seq<T>, positions: seq<u64>): (leaves: seq<Leaf<T>>)
    requires fs != []
    ensures LeafPositions(leaves) == positions
  {
    seq(|positions|, i requires 0 <= i < |positions| => Leaf(positions[i], TrueItem(fs, positions[i])))
  }

  lemma ClaimsAre<T>(fs: seq<T>, positions: seq<u64>)
    requires fs != [] && forall p :: p in positions ==> LeafPosition(|fs|, p)
    ensures LeavesFor(fs, positions, Claims(fs, positions))
    ensures TrueLeaves(fs, LeafIndices(positions), Distinct(LeafKey, Claims(fs, positions)))
    ensures Placed(LeafIndices(positions), Distinct(LeafKey, Claims(fs, positions)))
  {
    hide Size, Block, Distinct, LeafIndices, LeafPosition, TrueLeaves, Placed;
    var leaves := Claims(fs, positions);
    forall l | l in leaves
      ensures LeafPosition(|fs|, l.pos) && Block(l.pos) < |fs| && l.item == fs[Block(l.pos)]
    {
      assert l.pos in positions;
      LeafIndex(|fs|, l.pos);
    }
    LeavesForTrue(fs, positions, leaves);
    TruePlaced(fs, LeafIndices(positions), Distinct(LeafKey, leaves));
  }

  /** Items for the claims of fs up to the last one. */
  ghost function HeadItems<T>(m: Hasher<T>, fs: seq<T>, positions: seq<nat>): seq<T>
    requires forall p :: p in positions ==> LeafPosition(|fs|, p)
  {
    HeadIn(|fs|, positions);
    ItemValues(m, fs, HeadPlan(|fs|, LeafIndices(positions), BitLength(|fs|)))
  }

  lemma HeadIn(n: nat, positions: seq<nat>)
    requires forall p :: p in positions ==> LeafPosition(n, p)
    ensures PlanIn(n, HeadPlan(n, LeafIndices(positions), BitLength(n)))
  {
    hide LeafPosition, LeafIndices, Plan, HeadPlan, AllIn, Trailing, BitLength, LeavesFrom, Shl, Shr;
    IndicesFrom(n, positions);
    PlanInForest(n, LeafIndices(positions), BitLength(n));
    HeadOfPlan(n, LeafIndices(positions), BitLength(n));
  }

  /** Claims of another forest whose first peaks and the extra items bag to the same root. */
  lemma Forge<D>(ls: seq<Hash<D>>, fs: seq<Hash<D>>, positions: seq<u64>, more: seq<Hash<D>>)
    requires ls != [] && |fs| == |ls| && positions != [] && !Shortcut(|ls|, positions)
    requires forall p :: p in positions ==> LeafPosition(|ls|, p)
    requires var trailing := Trailing(|ls|, LeafIndices(positions), BitLength(|ls|));
             && |more| <= 1 && (trailing > 0 ==> more == [])
             && trailing < |PeakValues(MmrCombine(Free<D>()), fs)|
             && var head := PeakValues(MmrCombine(Free<D>()), fs)[..|PeakValues(MmrCombine(Free<D>()), fs)| - trailing];
             Bag(Free<D>(), head + more) == Bag(Free<D>(), PeakValues(MmrCombine(Free<D>()), ls))
    ensures var proof := HeadItems(Free<D>(), fs, positions) + more;
            && Accepted(ls, Claims(fs, positions), proof)
            && |proof| == |HeadPlan(|ls|, LeafIndices(positions), BitLength(|ls|))| + |more|
  {
    hide Free, PeakHashes, Distinct, Height, Peaks, PeaksBelow, Positions, Bag, Size, Block, MmrCombine, LeafIndices,
         LeafPosition, TrueLeaves, LeavesFrom, BitLength, Placed, HeadPlan, HashPlan, Plan, Trailing, Values, ItemValues,
         PlanIn, SplitRun, HeadTrue, Claims, Accepted, LeavesFor;
    var m, n, idx, k := Free<D>(), |ls|, LeafIndices(positions), BitLength(|ls|);
    var leaves := Claims(fs, positions);
    var trailing, used := Trailing(n, idx, k), |HeadPlan(n, idx, k)|;
    ClaimsAre(fs, positions);
    IndicesFrom(n, positions);
    HeadIn(n, positions);
    ItemCounts(m, fs, HeadPlan(n, idx, k));
    var proof := HeadItems(m, fs, positions) + more;
    HonestRun(m, fs, idx, Distinct(LeafKey, leaves), k, more);
    RunSplits(m, n, idx, Distinct(LeafKey, leaves), k, proof);
    PeaksFromTop(n);
    PeaksAllIn(n);
    ValuesCount(MmrCombine(m), fs, Peaks(n));
    var r := PeakHashes(m, Distinct(LeafKey, leaves), Positions(Peaks(n)), proof);
    var led := |Peaks(n)| - trailing;
    HeadFacts(r, Values(MmrCombine(m), fs, PeaksBelow(n, k)), led);
    SplitFacts(r, proof, used, led, trailing);
    ExtraLeft(r, proof, used, led, trailing);
    assert proof[used..] == more;
    AcceptedRun(ls, leaves, proof);
  }

  lemma ExtraLeft<T>(r: Result<(seq<T>, seq<Leaf<T>>, seq<T>)>, proof: seq<T>, used: nat, led: nat, trailing: nat)
    requires SplitRun(r, proof, used, led, trailing) && used <= |proof| <= used + 1
    ensures r.Ok? && |r.value.2| <= 1
  {
  }

  /** The last proved leaf lies in the last mountain that does not trail. */
  lemma {:induction false} LastProved(n: nat, indices: seq<nat>, k: nat)
    requires LeavesFrom(n, indices, k) && indices != []
    ensures Trailing(n, indices, k) < |PeaksBelow(n, k)|
    ensures var c := PeaksBelow(n, k)[|PeaksBelow(n, k)| - Trailing(n, indices, k) - 1];
            Under(0, indices[|indices| - 1], c.h, c.j)
    decreases k
  {
    hide Shl, Shr, LeavesFrom, CountBelow, Trailing, PeaksBelow, Climb, InForest, Under;
    TrailingUnfold(n, indices, k);
    LeavesFew(n, indices, k);
    if k == 0 {
      LeavesDone(n, indices);
    } else if Shr(n, k - 1) % 2 == 0 {
      LeavesSkip(n, indices, k);
      PeaksBelowStep(n, k);
      LastProved(n, indices, k - 1);
    } else {
      LeavesSplit(n, indices, k);
      PeaksBelowStep(n, k);
      var c := Coord(k - 1, Shr(n, k - 1) - 1);
      var t := CountBelow(indices, Shl(c.j + 1, c.h));
      if t == |indices| {
        assert indices[..t] == indices && indices[t..] == [];
        TrailingUnfold(n, indices[t..], k - 1);
      } else {
        LastProved(n, indices[t..], k - 1);
      }
    }
  }

  /** A claim in the changed mountain is false. */
  lemma FalseClaim<D>(ls: seq<Hash<D>>, fs: seq<Hash<D>>, positions: seq<u64>, i: nat)
    requires fs != [] && |fs| == |ls| && forall p :: p in positions ==> LeafPosition(|fs|, p)
    requires var idx := LeafIndices(positions); idx != [] && i == idx[|idx| - 1]
    requires i < |fs| ==> fs[i] != ls[i]
    ensures !TrueClaims(ls, Claims(fs, positions))
  {
    hide Size, Block, LeafIndices, LeafPosition, Distinct, Claims, TrueLeaves, Placed, LeavesFor, TrueClaims;
    var idx, da := LeafIndices(positions), Distinct(LeafKey, Claims(fs, positions));
    ClaimsAre(fs, positions);
    TrueAt(fs, idx, da, |idx| - 1);
    Refuted(ls, Claims(fs, positions), da[|idx| - 1], i);
  }

  lemma TrueAt<T>(ls: seq<T>, idx: seq<nat>, leaves: seq<Leaf<T>>, k: nat)
    requires TrueLeaves(ls, idx, leaves) && k < |idx|
    ensures |leaves| == |idx| && leaves[k].pos == Size(idx[k]) && idx[k] < |ls| && leaves[k].item == ls[idx[k]]
  {
    hide Size;
  }

  lemma Refuted<D>(ls: seq<Hash<D>>, leaves: seq<Leaf<Hash<D>>>, l: Leaf<Hash<D>>, i: nat)
    requires l in Distinct(LeafKey, leaves) && l.pos == Size(i) && (i < |ls| ==> l.item != ls[i])
    ensures !TrueClaims(ls, leaves)
  {
    hide Size, Block, Distinct, FirstAt;
    LeafPos(i);
    TrueSurvivors(ls, leaves);
  }

  /** The mountain in which the last proved leaf lies. */
  ghost function LastMountain(n: nat, positions: seq<nat>): (c: Coord)
    requires n > 0 && positions != [] && forall p :: p in positions ==> LeafPosition(n, p)
  {
    IndicesFrom(n, positions);
    LastProved(n, LeafIndices(positions), BitLength(n));
    Peaks(n)[|Peaks(n)| - Trailing(n, LeafIndices(positions), BitLength(n)) - 1]
  }

  lemma MountainLeaves(n: nat, c: Coord)
    requires c in Peaks(n)
    ensures Shl(c.j, c.h) + Pow2(c.h) == Shl(c.j + 1, c.h) <= n
  {
    hide Shl, Shr, Peaks;
    PeaksMember(n, c);
    ShlOne(c.j, c.h);
    ShlShr(c.j + 1, n, c.h);
  }

  /** The peaks before and after position a in the list lie left and right of it. */
  lemma OtherMountains(n: nat, a: nat, b: nat, i: nat)
    requires a < |Peaks(n)| && b < |Peaks(n)| && a != b && Under(0, i, Peaks(n)[b].h, Peaks(n)[b].j)
    ensures !Under(0, i, Peaks(n)[a].h, Peaks(n)[a].j)
    ensures a < b ==> Shl(Peaks(n)[a].j + 1, Peaks(n)[a].h) <= i
  {
    hide Shl, Shr, Peaks, Under;
    var c, d := Peaks(n)[a], Peaks(n)[b];
    PeaksMember(n, c);
    PeaksMember(n, d);
    if a < b { PeakHeights(n, a, b); } else { PeakHeights(n, b, a); }
    UnderRange(i, c);
    UnderRange(i, d);
    if c.h > d.h {
      LowerStartsLater(n, c.h, d.h);
    } else {
      LowerStartsLater(n, d.h, c.h);
    }
  }

  /** What the forgeries need to know about the last proved mountain. */
  lemma LastMountainFacts(n: nat, positions: seq<nat>)
    requires n > 0 && positions != [] && forall p :: p in positions ==> LeafPosition(n, p)
    ensures var (idx, c) := (LeafIndices(positions), LastMountain(n, positions));
            var trailing := Trailing(n, idx, BitLength(n));
            && trailing < |Peaks(n)| && c == Peaks(n)[|Peaks(n)| - trailing - 1]
            && InForest(n, c) && Shl(c.j, c.h) + Pow2(c.h) == Shl(c.j + 1, c.h) <= n
            && idx != [] && Shl(c.j, c.h) <= idx[|idx| - 1] < Shl(c.j + 1, c.h)
            && (trailing > 0 ==> c.h > 0)
  {
    hide Shl, Shr, Peaks, PeaksBelow, Under, LeafIndices, LeafPosition, LeavesFrom, Trailing, Pow2, BitLength;
    IndicesFrom(n, positions);
    var idx := LeafIndices(positions);
    LastProved(n, idx, BitLength(n));
    PeaksFromTop(n);
    var c := LastMountain(n, positions);
    assert c in Peaks(n);
    PeaksInForest(n, c);
    MountainLeaves(n, c);
    UnderRange(idx[|idx| - 1], c);
    if Trailing(n, idx, BitLength(n)) > 0 {
      PeakHeights(n, |Peaks(n)| - Trailing(n, idx, BitLength(n)) - 1, |Peaks(n)| - 1);
    }
  }

  /** Two forests that differ below one peak only. */
  lemma PeaksAgree<T>(f: Combine<T>, a: seq<T>, b: seq<T>, e: nat, k: nat)
    requires |a| == |b| && e < |Peaks(|a|)| && k < |Peaks(|a|)| && k != e
    requires var c := Peaks(|a|)[e]; forall i :: 0 <= i < |a| && !Under(0, i, c.h, c.j) ==> a[i] == b[i]
    ensures |PeakValues(f, a)| == |PeakValues(f, b)| == |Peaks(|a|)|
    ensures PeakValues(f, a)[k] == PeakValues(f, b)[k]
  {
    hide Under, Shr, Shl, Node, Peaks;
    var n, d := |a|, Peaks(|a|)[k];
    PeaksAllIn(n);
    forall i | 0 <= i < n && Under(0, i, d.h, d.j)
      ensures a[i] == b[i]
    {
      OtherMountains(n, e, k, i);
    }
    NodeAgrees(f, a, b, d.h, d.j);
  }

  /** The claims and items with which a false leaf passes. */
  ghost predicate Forged<D>(n: nat, positions: seq<u64>, ls: seq<Hash<D>>, leaves: seq<Leaf<Hash<D>>>, proof: seq<Hash<D>>) {
    && |ls| == n && LeafPositions(leaves) == positions
    && Accepted(ls, leaves, proof) && !TrueClaims(ls, leaves)
    && LooseCount(n, positions, |proof|)
  }

  // ----- nothing trails: one item too many -----

  /** Leaves one merge deep in the last mountain; claimed are their halves, the other half is the extra item. */
  lemma ForgeLast<D>(n: nat, positions: seq<u64>, x: D)
    returns (ls: seq<Hash<D>>, leaves: seq<Leaf<Hash<D>>>, proof: seq<Hash<D>>)
    requires n > 0 && positions != [] && !Shortcut(n, positions) && forall p :: p in positions ==> LeafPosition(n, p)
    requires Trailing(n, LeafIndices(positions), BitLength(n)) == 0
    ensures Forged(n, positions, ls, leaves, proof)
  {
    hide Free, Bag, Size, MmrCombine, LeafIndices, LeafPosition, LeavesFrom, BitLength, HeadPlan, Plan, Trailing, Peaks,
         PeakValues, Claims, Accepted, TrueClaims, HeadItems, Shl, Shr, Pow2, Full, InForest, Node, Under;
    var m, f, c := Free<D>(), MmrCombine(Free<D>()), LastMountain(n, positions);
    LastMountainFacts(n, positions);
    ls := seq(n, i requires 0 <= i < n => Full(1, x));
    var fs := seq(n, i requires 0 <= i < n => if i < Shl(c.j, c.h) then Full(1, x) else Full(0, x));
    var e, extra := |Peaks(n)| - 1, Full(c.h, x);
    LastIsEnd(n, e);
    PeakValueAt(f, ls, e);
    PeakValueAt(f, fs, e);
    forall i | 0 <= i < n
      ensures Under(0, i, c.h, c.j) ==> ls[i] == Full(1, x) && fs[i] == Full(0, x)
      ensures !Under(0, i, c.h, c.j) ==> ls[i] == fs[i]
    {
      UnderRange(i, c);
    }
    NodeFull(ls, c.h, c.j, 1, x);
    NodeFull(fs, c.h, c.j, 0, x);
    forall k | 0 <= k < e
      ensures PeakValues(f, ls)[k] == PeakValues(f, fs)[k]
    {
      PeaksAgree(f, ls, fs, e, k);
    }
    FullStep(c.h, x);
    FullStep(0, x);
    BagExtra(PeakValues(f, ls), PeakValues(f, fs), extra);
    leaves, proof := Claims(fs, positions), HeadItems(m, fs, positions) + [extra];
    Forge(ls, fs, positions, [extra]);
    IndicesFrom(n, positions);
    HeadOfPlan(n, LeafIndices(positions), BitLength(n));
    FalseClaim(ls, fs, positions, LeafIndices(positions)[|LeafIndices(positions)| - 1]);
  }

  lemma FullStep<D>(k: nat, x: D)
    ensures Full(k + 1, x) == HNode(0, Full(k, x), Full(k, x)) && Full(k + 1, x) != Full(k, x)
  {
    if k > 0 { FullStep(k - 1, x); }
  }

  lemma LastIsEnd(n: nat, e: nat)
    requires |Peaks(n)| > 0 && e == |Peaks(n)| - 1
    ensures Shl(Peaks(n)[e].j + 1, Peaks(n)[e].h) == n
  {
    hide Shl, Shr, PeaksBelow;
    EndsAt(n, BitLength(n));
  }

  lemma {:induction false} EndsAt(n: nat, k: nat)
    requires PeaksBelow(n, k) != []
    ensures var c := PeaksBelow(n, k)[|PeaksBelow(n, k)| - 1]; Shl(c.j + 1, c.h) == n
    decreases k
  {
    hide Shl, Shr, PeaksBelow;
    NoPeaksBelow(n);
    if k > 0 {
      PeaksBelowStep(n, k);
      if PeaksBelow(n, k - 1) != [] { EndsAt(n, k - 1); } else { NoneLeft(n, k - 1); }
    }
  }

  lemma BagExtra<D>(values: seq<Hash<D>>, claimed: seq<Hash<D>>, extra: Hash<D>)
    requires |values| == |claimed| > 0
    requires forall k :: 0 <= k < |values| - 1 ==> values[k] == claimed[k]
    requires values[|values| - 1] == HNode(0, extra, claimed[|values| - 1])
    ensures Bag(Free<D>(), claimed[..|claimed|] + [extra]) == Bag(Free<D>(), values)
  {
    hide Free;
    var e := |values| - 1;
    var last := [claimed[e], extra];
    FreeMerges(0, extra, claimed[e]);
    assert last[1..] == [extra];
    assert Bag(Free<D>(), last) == values[e];
    BagSuffix(Free<D>(), claimed[..e], last);
    assert claimed[..|claimed|] + [extra] == claimed[..e] + last;
    assert claimed[..e] + [values[e]] == values;
  }

  // ----- peaks trail: their item left out -----

  /** The mountain's claims merge to what the trailing peaks and the mountain should be bagged to. */
  lemma ForgeTrailing<D>(n: nat, positions: seq<u64>, x: D)
    returns (ls: seq<Hash<D>>, leaves: seq<Leaf<Hash<D>>>, proof: seq<Hash<D>>)
    requires n > 0 && positions != [] && !Shortcut(n, positions) && forall p :: p in positions ==> LeafPosition(n, p)
    requires Trailing(n, LeafIndices(positions), BitLength(n)) > 0
    ensures Forged(n, positions, ls, leaves, proof)
  {
    hide Free, Bag, Size, MmrCombine, LeafIndices, LeafPosition, LeavesFrom, BitLength, HeadPlan, Plan, Trailing, Peaks,
         PeakValues, Claims, Accepted, TrueClaims, HeadItems, Shl, Shr, Pow2, Full, InForest, Node, Under, Cut, Deep;
    var m, f, c := Free<D>(), MmrCombine(Free<D>()), LastMountain(n, positions);
    LastMountainFacts(n, positions);
    var a, b := Shl(c.j, c.h), Shl(c.j + 1, c.h);
    ls := seq(n, i requires 0 <= i < n => if i < b then Full(0, x) else Full(c.h, x));
    var e := |Peaks(n)| - Trailing(n, LeafIndices(positions), BitLength(n)) - 1;
    var top := TrailingTop(ls, n, e, c, x);
    CutMerges(top, c.h);
    var fs := ls[..a] + Cut(top, c.h) + ls[b..];
    assert |fs| == n && fs[a..b] == Cut(top, c.h);
    forall i | 0 <= i < n
      ensures !Under(0, i, c.h, c.j) ==> ls[i] == fs[i]
    {
      UnderRange(i, c);
    }
    CutNode(fs, top, c.h, c.j);
    PeakValueAt(f, fs, e);
    forall k | 0 <= k < e
      ensures PeakValues(f, ls)[k] == PeakValues(f, fs)[k]
    {
      PeaksAgree(f, ls, fs, e, k);
    }
    PeakValueAt(f, ls, e);
    BagMissing(PeakValues(f, ls), PeakValues(f, fs), e);
    leaves, proof := Claims(fs, positions), HeadItems(m, fs, positions) + [];
    Forge(ls, fs, positions, []);
    IndicesFrom(n, positions);
    HeadOfPlan(n, LeafIndices(positions), BitLength(n));
    var i := LeafIndices(positions)[|LeafIndices(positions)| - 1];
    assert fs[i] == Cut(top, c.h)[i - a];
    FullLeaf(x);
    FalseClaim(ls, fs, positions, i);
  }

  lemma FullLeaf<D>(x: D)
    ensures Full(0, x) == HLeaf(x)
  {
  }

  /** The bag of the mountain and the trailing peaks, deep enough to be cut into the mountain's leaves. */
  lemma TrailingTop<D>(ls: seq<Hash<D>>, n: nat, e: nat, c: Coord, x: D) returns (top: Hash<D>)
    requires |ls| == n && e + 1 < |Peaks(n)| && c == Peaks(n)[e] && c.h > 0
    requires forall i :: 0 <= i < n ==> ls[i] == if i < Shl(c.j + 1, c.h) then Full(0, x) else Full(c.h, x)
    ensures |PeakValues(MmrCombine(Free<D>()), ls)| == |Peaks(n)|
    ensures top == Bag(Free<D>(), PeakValues(MmrCombine(Free<D>()), ls)[e..]) && Deep(top, c.h + 1)
  {
    hide Free, Bag, MmrCombine, Peaks, PeakValues, Shl, Shr, Pow2, Full, InForest, Node, Under, Deep;
    var f, values := MmrCombine(Free<D>()), PeakValues(MmrCombine(Free<D>()), ls);
    PeakValueAt(f, ls, e);
    forall i | 0 <= i < n && Under(0, i, c.h, c.j)
      ensures Deep(ls[i], 0)
    {
      AnyDeep(ls[i]);
    }
    NodeDeep(ls, c.h, c.j, 0);
    var rest := values[e + 1..];
    forall k | 0 <= k < |rest|
      ensures Deep(rest[k], c.h)
    {
      TrailingDeep(ls, n, e, e + 1 + k, x);
      assert rest[k] == values[e + 1 + k];
    }
    BagDeep(rest, c.h);
    top := Bag(Free<D>(), values[e..]);
    assert values[e..][1..] == rest && values[e..][0] == values[e];
    BagOfTwo(values[e..]);
    DeepMerge(Bag(Free<D>(), rest), values[e], c.h);
  }

  lemma AnyDeep<D>(t: Hash<D>)
    ensures Deep(t, 0)
  {
  }

  lemma DeepMerge<D>(l: Hash<D>, r: Hash<D>, d: nat)
    requires Deep(l, d) && Deep(r, d)
    ensures Deep(HNode(0, l, r), d + 1)
  {
  }

  lemma TrailingDeep<D>(ls: seq<Hash<D>>, n: nat, e: nat, k: nat, x: D)
    requires |ls| == n && e < k < |Peaks(n)|
    requires var c := Peaks(n)[e];
             forall i :: 0 <= i < n ==> ls[i] == if i < Shl(c.j + 1, c.h) then Full(0, x) else Full(c.h, x)
    ensures |PeakValues(MmrCombine(Free<D>()), ls)| == |Peaks(n)|
    ensures Deep(PeakValues(MmrCombine(Free<D>()), ls)[k], Peaks(n)[e].h)
  {
    hide Free, MmrCombine, Peaks, Shl, Shr, Full, InForest, Node, Under, Deep, PeakValues;
    var c, d := Peaks(n)[e], Peaks(n)[k];
    PeakValueAt(MmrCombine(Free<D>()), ls, k);
    forall i | 0 <= i < n && Under(0, i, d.h, d.j)
      ensures Deep(ls[i], c.h)
    {
      OtherMountains(n, e, k, i);
    }
    NodeDeep(ls, d.h, d.j, c.h);
    DeepMono(Node(MmrCombine(Free<D>()), ls, d.h, d.j), d.h + c.h, c.h);
  }

  lemma BagMissing<D>(values: seq<Hash<D>>, claimed: seq<Hash<D>>, e: nat)
    requires |values| == |claimed| && e < |values|
    requires forall k :: 0 <= k < e ==> values[k] == claimed[k]
    requires claimed[e] == Bag(Free<D>(), values[e..])
    ensures Bag(Free<D>(), claimed[..e + 1] + []) == Bag(Free<D>(), values)
  {
    hide Free, Bag;
    BagSuffix(Free<D>(), values[..e], values[e..]);
    assert values == values[..e] + values[e..];
    assert claimed[..e + 1] + [] == values[..e] + [claimed[e]];
  }

  // ----- the theorem -----

  /** Whatever is accepted with so many items at these positions is true, leaf hashes being any terms. */
  ghost predicate CountBinds<D(!new)>(n: nat, positions: seq<u64>, count: nat) {
    forall ls: seq<Hash<D>>, leaves: seq<Leaf<Hash<D>>>, proof: seq<Hash<D>> ::
      |ls| == n && LeafPositions(leaves) == positions && |proof| == count && Accepted(ls, leaves, proof) ==>
        TrueClaims(ls, leaves)
  }

  /**
   Without domain separation the number of items decides: for any number of leaves and any list of leaf
   positions exactly one number of items lets a false leaf pass, one short of the honest number when
   peaks trail the last proved leaf and one beyond it when none does. Only the shortcut for a single
   leaf escapes this.
   */
  lemma CountDecides<D(!new)>(n: nat, positions: seq<u64>, count: nat, x: D)
    requires n > 0 && positions != [] && forall p :: p in positions ==> LeafPosition(n, p)
    ensures CountBinds<D>(n, positions, count) <==> Shortcut(n, positions) || !LooseCount(n, positions, count)
  {
    hide Accepted, TrueClaims, Trailing, LeafIndices, Plan, LeafPosition, BitLength, LooseCount;
    if Shortcut(n, positions) || !LooseCount(n, positions, count) {
      forall ls: seq<Hash<D>>, leaves: seq<Leaf<Hash<D>>>, proof: seq<Hash<D>> |
        |ls| == n && LeafPositions(leaves) == positions && |proof| == count && Accepted(ls, leaves, proof)
        ensures TrueClaims(ls, leaves)
      {
        AcceptedLeavesAreTrue(ls, leaves, proof);
      }
    } else {
      var ls, leaves, proof := ForgeAny(n, positions, x);
      OneLooseCount(n, positions, count, |proof|);
    }
  }

  lemma ForgeAny<D>(n: nat, positions: seq<u64>, x: D)
    returns (ls: seq<Hash<D>>, leaves: seq<Leaf<Hash<D>>>, proof: seq<Hash<D>>)
    requires n > 0 && positions != [] && !Shortcut(n, positions) && forall p :: p in positions ==> LeafPosition(n, p)
    ensures Forged(n, positions, ls, leaves, proof)
  {
    hide Forged, LeafPosition, Trailing, LeafIndices, BitLength;
    if Trailing(n, LeafIndices(positions), BitLength(n)) > 0 {
      ls, leaves, proof := ForgeTrailing(n, positions, x);
    } else {
      ls, leaves, proof := ForgeLast(n, positions, x);
    }
  }

  lemma OneLooseCount(n: nat, positions: seq<nat>, a: nat, b: nat)
    requires LooseCount(n, positions, a) && LooseCount(n, positions, b)
    ensures a == b
  {
    hide Trailing, LeafIndices, Plan, BitLength;
  }
}
