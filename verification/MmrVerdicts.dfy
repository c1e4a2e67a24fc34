/**
 What the MMR verifier answers on arbitrary input: which error, and when; else whether the computed root
 is the given one. With honest items, whether the claims are true.
 */
module MmrVerdicts {
  import opened Bits
  import opened Forest
  import opened Nodes
  import opened FreeHash
  import opened Bagging
  import opened ProofPlan
  import opened QueueWalk
  import opened ProofSpec
  import opened Completeness
  import opened FirstClaims
  import opened MmrVerifier
  import opened MmrNextRoot
  import opened MmrSoundness
  import opened MmrBinding
  import opened Wrappers

  // ----- which errors there are -----

  lemma {:induction false} PeakWalkErrs<T>(m: Hasher<T>, q: seq<Entry<T>>, peakPos: nat, proof: seq<T>)
    requires Below(q, peakPos)
    ensures PeakWalk(m, q, peakPos, proof).Err? ==> PeakWalk(m, q, peakPos, proof) == Err(CorruptedProof)
    decreases Work(q, peakPos)
  {
    hide Work, SibPos, IsRight, ParentItem, ParentPos, Height;
    if q != [] && q[0].pos != peakPos && (SiblingQueued(q) || proof != []) {
      var sibling := if SiblingQueued(q) then q[1].item else proof[0];
      var parent := Entry(ParentPos(q[0]), ParentItem(m, q[0], sibling), q[0].height + 1);
      if parent.pos <= peakPos {
        WorkFalls(q, parent, peakPos);
        PeakWalkErrs(m, Behind(q) + [parent], peakPos, if SiblingQueued(q) then proof else proof[1..]);
      }
    }
  }

  lemma MountainErrs<T>(m: Hasher<T>, here: seq<Leaf<T>>, peakPos: nat, proof: seq<T>)
    requires forall i :: 0 <= i < |here| ==> here[i].pos <= peakPos
    ensures MountainHash(m, here, peakPos, proof).Err? ==> MountainHash(m, here, peakPos, proof) == Err(CorruptedProof)
  {
    hide PeakWalk;
    assert Below(Queue(here), peakPos);
    PeakWalkErrs(m, Queue(here), peakPos, proof);
  }

  lemma {:induction false} PeakHashesErrs<T>(m: Hasher<T>, leaves: seq<Leaf<T>>, peaks: seq<nat>, proof: seq<T>)
    ensures PeakHashes(m, leaves, peaks, proof).Err? ==> PeakHashes(m, leaves, peaks, proof) == Err(CorruptedProof)
    decreases |peaks|
  {
    hide MountainHash, UpTo;
    if peaks != [] {
      var k := UpTo(leaves, peaks[0]);
      MountainErrs(m, leaves[..k], peaks[0], proof);
      if (k > 0 || proof != []) && MountainHash(m, leaves[..k], peaks[0], proof).Ok? {
        PeakHashesErrs(m, leaves[k..], peaks[1..], MountainHash(m, leaves[..k], peaks[0], proof).value.1);
      }
    }
  }

  /** A claim beyond all peaks is never used up. */
  lemma {:induction false} BeyondLeft<T>(m: Hasher<T>, leaves: seq<Leaf<T>>, peaks: seq<nat>, proof: seq<T>, i: nat)
    requires i < |leaves| && forall k :: 0 <= k < |peaks| ==> peaks[k] < leaves[i].pos
    ensures Starved(PeakHashes(m, leaves, peaks, proof))
    decreases |peaks|
  {
    hide MountainHash, UpTo;
    if peaks != [] {
      var k := UpTo(leaves, peaks[0]);
      assert peaks[0] < leaves[i].pos;
      MountainErrs(m, leaves[..k], peaks[0], proof);
      if (k > 0 || proof != []) && MountainHash(m, leaves[..k], peaks[0], proof).Ok? {
        assert leaves[k..][i - k] == leaves[i];
        BeyondLeft(m, leaves[k..], peaks[1..], MountainHash(m, leaves[..k], peaks[0], proof).value.1, i - k);
      }
    }
  }

  // ----- when -----

  /** A claim for a node that is no leaf. */
  ghost predicate Interior<T>(leaves: seq<Leaf<T>>) {
    exists i :: 0 <= i < |leaves| && Height(leaves[i].pos) > 0
  }

  /** The case in which the items are not looked at. */
  ghost predicate LoneLeaf<T>(leaves: seq<Leaf<T>>, mmrSize: nat) {
    mmrSize == 1 && |leaves| == 1 && leaves[0].pos == 0
  }

  ghost predicate InForestOf<T>(n: nat, leaves: seq<Leaf<T>>) {
    forall p :: p in LeafPositions(leaves) ==> LeafPosition(n, p)
  }

  /** The items up to the last claim at least; at most one for each trailing peak and another one more. */
  ghost predicate ItemsFit(n: nat, positions: seq<nat>, count: nat) {
    var trailing := Trailing(n, LeafIndices(positions), BitLength(n));
    if trailing == 0 then HonestCount(n, positions) <= count <= HonestCount(n, positions) + 1
    else HonestCount(n, positions) - 1 <= count <= HonestCount(n, positions) + trailing
  }

  ghost predicate HashesFit<T>(leaves: seq<Leaf<T>>, mmrSize: nat, count: nat) {
    LoneLeaf(leaves, mmrSize)
    || (InForestOf(MaxLeaves(mmrSize), leaves) && ItemsFit(MaxLeaves(mmrSize), LeafPositions(leaves), count))
  }

  /** One hash for each peak up to the last claim, and every item past those. */
  ghost function HashesFound<T>(leaves: seq<Leaf<T>>, mmrSize: nat, count: nat): int {
    if LoneLeaf(leaves, mmrSize) then 1
    else
      var n := MaxLeaves(mmrSize);
      var trailing := Trailing(n, LeafIndices(LeafPositions(leaves)), BitLength(n));
      |Peaks(n)| - trailing + count - HonestCount(n, LeafPositions(leaves)) + if trailing > 0 then 1 else 0
  }

  /** Claims where they are said to be. */
  lemma PlacedAt<T>(n: nat, leaves: seq<Leaf<T>>)
    requires InForestOf(n, leaves)
    ensures var idx := LeafIndices(LeafPositions(leaves));
            LeavesFrom(n, idx, BitLength(n)) && Placed(idx, Distinct(LeafKey, leaves))
    ensures LeafIndices(LeafPositions(leaves)) == [] <==> leaves == []
  {
    hide Size, Block, Distinct, LeafPosition, LeavesFrom, BitLength;
    var positions, ds := LeafPositions(leaves), Distinct(LeafKey, leaves);
    var ps := Distinct<nat>(PosKey, positions);
    IndicesFrom(n, positions);
    DistinctPositions(leaves);
    DistinctAscending(positions);
    assert |LeafPositions(ds)| == |ds|;
    forall i | 0 <= i < |ds|
      ensures ds[i].pos == Size(Block(ps[i]))
    {
      assert LeafPositions(ds)[i] == ds[i].pos && ps[i] in ps;
      LeafIndex(n, ps[i]);
    }
  }

  /** The loop over the peaks with all claims in the forest. */
  lemma LoopDecided<T>(m: Hasher<T>, n: nat, leaves: seq<Leaf<T>>, proof: seq<T>)
    requires InForestOf(n, leaves)
    ensures var r := PeakHashes(m, Distinct(LeafKey, leaves), Positions(Peaks(n)), proof);
            var trailing := Trailing(n, LeafIndices(LeafPositions(leaves)), BitLength(n));
            if !ItemsFit(n, LeafPositions(leaves), |proof|) then Starved(r) || (r.Ok? && |r.value.2| > 1)
            else r.Ok? && r.value.1 == [] && |r.value.2| <= 1
                 && |r.value.0| + |r.value.2|
                    == |Peaks(n)| - trailing + |proof| - HonestCount(n, LeafPositions(leaves)) + if trailing > 0 then 1 else 0
  {
    hide Distinct, PeakHashes, Positions, PeaksBelow, LeavesFrom, Placed, LeafIndices, BitLength, Plan, HeadPlan, Trailing,
         SplitRun, LeafPosition, Starved;
    var idx, k := LeafIndices(LeafPositions(leaves)), BitLength(n);
    PlacedAt(n, leaves);
    HeadOfPlan(n, idx, k);
    RunSplits(m, n, idx, Distinct(LeafKey, leaves), k, proof);
    PeaksFromTop(n);
    var r := PeakHashes(m, Distinct(LeafKey, leaves), Positions(Peaks(n)), proof);
    SplitDecided(r, proof, |HeadPlan(n, idx, k)|, |Peaks(n)| - Trailing(n, idx, k), Trailing(n, idx, k));
  }

  lemma SplitDecided<T>(r: Result<(seq<T>, seq<Leaf<T>>, seq<T>)>, proof: seq<T>, used: nat, led: nat, trailing: nat)
    requires SplitRun(r, proof, used, led, trailing)
    ensures |proof| < used ==> Starved(r)
    ensures |proof| > used + trailing + 1 ==> r.Ok? && |r.value.2| > 1
    ensures used <= |proof| <= used + trailing + 1 ==>
              r.Ok? && r.value.1 == [] && |r.value.2| <= 1 && |r.value.0| + |r.value.2| == led + |proof| - used
  {
  }

  /** The loop over the peaks with some claim past the forest's end. */
  lemma LoopBeyond<T>(m: Hasher<T>, n: nat, leaves: seq<Leaf<T>>, proof: seq<T>)
    requires !Interior(leaves) && !InForestOf(n, leaves)
    ensures Starved(PeakHashes(m, Distinct(LeafKey, leaves), Positions(Peaks(n)), proof))
  {
    hide Size, Height, Distinct, PeakHashes, Peaks, Starved;
    var p :| p in LeafPositions(leaves) && !LeafPosition(n, p);
    var i :| 0 <= i < |leaves| && LeafPositions(leaves)[i] == p;
    assert leaves[i].pos == p && Height(leaves[i].pos) == 0;
    DistinctPositions(leaves);
    DistinctAscending(LeafPositions(leaves));
    var ds := Distinct(LeafKey, leaves);
    assert p in LeafPositions(ds);
    var k :| 0 <= k < |ds| && LeafPositions(ds)[k] == p;
    PeakPositionsBelow(n, Positions(Peaks(n)));
    BeyondLeft(m, ds, Positions(Peaks(n)), proof, k);
  }

  /** `calculate_peaks_hashes` decided: the error, or how many hashes are found. */
  lemma HashesDecided<T>(m: Hasher<T>, leaves: seq<Leaf<T>>, mmrSize: nat, proof: seq<T>)
    ensures var r := PeaksHashes(m, leaves, mmrSize, proof);
            if Interior(leaves) then r == Err(NodeProofsNotSupported)
            else if !HashesFit(leaves, mmrSize, |proof|) then r == Err(CorruptedProof)
            else r.Ok? && |r.value| == HashesFound(leaves, mmrSize, |proof|)
  {
    hide Height, Distinct, PeakHashes, MaxLeaves, Peaks, Positions, InForestOf, ItemsFit, HonestCount, Trailing, LeafIndices,
         BitLength, PeaksHashes;
    PeaksHashesCases(m, leaves, mmrSize, proof);
    if !Interior(leaves) && !LoneLeaf(leaves, mmrSize) {
      var n := MaxLeaves(mmrSize);
      PeakHashesErrs(m, Distinct(LeafKey, leaves), Positions(Peaks(n)), proof);
      if InForestOf(n, leaves) { LoopDecided(m, n, leaves, proof); } else { LoopBeyond(m, n, leaves, proof); }
    }
  }

  /** Some hash is found, too. */
  ghost predicate Checkable<T>(leaves: seq<Leaf<T>>, mmrSize: nat, count: nat) {
    HashesFit(leaves, mmrSize, count) && (leaves != [] || count > 0)
  }

  lemma SomeHash<T>(leaves: seq<Leaf<T>>, mmrSize: nat, count: nat)
    requires HashesFit(leaves, mmrSize, count)
    ensures HashesFound(leaves, mmrSize, count) > 0 <==> leaves != [] || count > 0
  {
    hide MaxLeaves, PeaksBelow, LeafPosition, LeafIndices, BitLength, Plan, LeavesFrom, HeadPlan, Trailing;
    if !LoneLeaf(leaves, mmrSize) {
      var n := MaxLeaves(mmrSize);
      var idx, k := LeafIndices(LeafPositions(leaves)), BitLength(n);
      PlacedAt(n, leaves);
      HeadOfPlan(n, idx, k);
      LeavesFew(n, idx, k);
      PeaksFromTop(n);
      HeadUnfold(n, idx, k);
      TrailingUnfold(n, idx, k);
    }
  }

  /**
   `calculate_root` decided, whatever the claims, the size, the items and the hasher: a claim for an
   interior node, claims or items that do not fit, or a root.
   */
  lemma RootDecided<T>(m: Hasher<T>, leaves: seq<Leaf<T>>, mmrSize: nat, proof: seq<T>)
    ensures var r := CalculatedRoot(m, leaves, mmrSize, proof);
            if Interior(leaves) then r == Err(NodeProofsNotSupported)
            else if !Checkable(leaves, mmrSize, |proof|) then r == Err(CorruptedProof)
            else r.Ok?
  {
    hide PeaksHashes, Interior, HashesFit, HashesFound, Bag;
    HashesDecided(m, leaves, mmrSize, proof);
    if HashesFit(leaves, mmrSize, |proof|) { SomeHash(leaves, mmrSize, |proof|); }
  }

  /** `verify` decided: the same errors, and else true for one root and false for all others. */
  lemma VerdictDecided<T>(m: Hasher<T>, root: T, leaves: seq<Leaf<T>>, mmrSize: nat, proof: seq<T>)
    ensures var (v, r) := (Verified(m, root, leaves, mmrSize, proof), CalculatedRoot(m, leaves, mmrSize, proof));
            if Interior(leaves) then v == Err(NodeProofsNotSupported)
            else if !Checkable(leaves, mmrSize, |proof|) then v == Err(CorruptedProof)
            else r.Ok? && v == Ok(root == r.value)
  {
    hide CalculatedRoot, Interior, Checkable;
    RootDecided(m, leaves, mmrSize, proof);
  }

  // ----- claims made twice -----

  lemma HeightsIgnore<T>(a: seq<Leaf<T>>, l: Leaf<T>, b: seq<Leaf<T>>)
    requires l.pos in LeafPositions(a)
    ensures Interior(a + [l] + b) <==> Interior(a + b)
  {
    hide Height;
    var i :| 0 <= i < |a| && LeafPositions(a)[i] == l.pos;
    assert (a + b)[i] == a[i] && a[i].pos == l.pos;
    var more, less := a + [l] + b, a + b;
    assert forall k :: 0 <= k < |a| ==> more[k] == a[k] && less[k] == a[k];
    assert forall k :: |a| < k < |more| ==> more[k] == less[k - 1];
    assert forall k :: |a| <= k < |less| ==> less[k] == more[k + 1];
    assert more[|a|] == l;
  }

  /** A claim for a position claimed earlier in the list changes nothing, unless a lone leaf is claimed twice. */
  lemma LaterClaimIgnored<T>(m: Hasher<T>, a: seq<Leaf<T>>, l: Leaf<T>, b: seq<Leaf<T>>, mmrSize: nat, proof: seq<T>)
    requires l.pos in LeafPositions(a) && !LoneLeaf(a + b, mmrSize)
    ensures CalculatedRoot(m, a + [l] + b, mmrSize, proof) == CalculatedRoot(m, a + b, mmrSize, proof)
  {
    hide Height, Distinct, PeakHashes, MaxLeaves, Peaks, Positions, PeaksHashes;
    assert a != [];
    HeightsIgnore(a, l, b);
    DistinctIgnores(a, l, b);
    PeaksHashesCases(m, a + [l] + b, mmrSize, proof);
    PeaksHashesCases(m, a + b, mmrSize, proof);
  }

  /** Then its second claim makes `verify` look at the items. */
  lemma LoneLeafTwice<T>(m: Hasher<T>, x: T, y: T, proof: seq<T>)
    ensures CalculatedRoot(m, [Leaf(0, x)], 1, proof) == Ok(x)
    ensures CalculatedRoot(m, [Leaf(0, x), Leaf(0, y)], 1, proof)
            == if proof == [] then Ok(x) else if |proof| == 1 then Ok(m.mergePeaks(proof[0], x)) else Err(CorruptedProof)
  {
    hide Height, PeakHashes, MaxLeaves, Peaks, PeaksHashes, Distinct, Positions;
    FirstLeaves(0);
    var one, two := [Leaf(0, x)], [Leaf(0, x), Leaf(0, y)];
    PeaksHashesCases(m, one, 1, proof);
    PeaksHashesCases(m, two, 1, proof);
    assert one[0].pos == 0;
    LoneLeafLoop(m, x, y, proof);
    assert Bag(m, [x]) == x;
    if |proof| == 1 { BagPair(m, x, proof[0]); }
  }

  lemma BagPair<T>(m: Hasher<T>, x: T, y: T)
    ensures Bag(m, [x] + [y]) == m.mergePeaks(y, x)
  {
    assert ([x] + [y])[1..] == [y];
  }

  lemma LoneLeafLoop<T>(m: Hasher<T>, x: T, y: T, proof: seq<T>)
    ensures PeakHashes(m, Distinct(LeafKey, [Leaf(0, x), Leaf(0, y)]), Positions(Peaks(MaxLeaves(1))), proof)
            == Ok(([x], [], proof))
  {
    hide PeakHashes, Distinct, MaxLeaves, Positions, Peaks;
    SecondDropped(x, y);
    OnePeak(1);
    OneTurn(m, x, proof);
  }

  lemma SecondDropped<T>(x: T, y: T)
    ensures Distinct(LeafKey, [Leaf(0, x), Leaf(0, y)]) == [Leaf(0, x)]
  {
    var one, none: seq<Leaf<T>> := [Leaf(0, x)], [];
    assert one + [Leaf(0, y)] + none == [Leaf(0, x), Leaf(0, y)] && one + none == one;
    assert LeafPositions(one)[0] == 0;
    DistinctIgnores(one, Leaf(0, y), none);
    assert one[1..] == none;
  }

  lemma OnePeak(n: nat)
    requires n == 1
    ensures Positions(Peaks(MaxLeaves(n))) == [0]
  {
    hide PeaksBelow, MaxLeaves, Peaks, Size;
    SmallCounts();
    MaxLeavesOfSize(n);
    SmallPeaks();
    assert Shl(2, 0) == 2 && PopCount(0) == 0;
  }

  lemma OneTurn<T>(m: Hasher<T>, x: T, proof: seq<T>)
    ensures PeakHashes(m, [Leaf(0, x)], [0], proof) == Ok(([x], [], proof))
  {
    var one, none: seq<Leaf<T>> := [Leaf(0, x)], [];
    assert UpTo(one, 0) == 1 && one[..1] == one && one[1..] == none;
    assert [0] + [] == [0];
    PeakHashesOn(m, one, 0, [], proof);
    MountainCases(m, one, 0, proof);
    assert PeakHashes(m, none, [], proof) == Ok(([], none, proof));
    assert [x] + [] == [x];
  }

  // ----- honest items -----

  lemma HonestFits(n: nat, positions: seq<nat>)
    requires n > 0 && forall p :: p in positions ==> LeafPosition(n, p)
    ensures ItemsFit(n, positions, HonestCount(n, positions)) && (positions != [] ==> |Peaks(n)| > 0)
  {
    hide Trailing, LeafIndices, BitLength, Plan, LeafPosition, PeaksBelow;
    PeaksNotEmpty(n);
    IndicesFrom(n, positions);
    HeadOfPlan(n, LeafIndices(positions), BitLength(n));
  }

  lemma ItemsAreHonest<T>(m: Hasher<T>, ls: seq<T>, positions: seq<nat>)
    requires forall p :: p in positions ==> LeafPosition(|ls|, p)
    ensures |ProofItems(m, ls, positions)| == HonestCount(|ls|, positions)
  {
    hide Trailing, LeafIndices, BitLength, Plan, LeafPosition, LeavesFrom, PlanIn;
    IndicesFrom(|ls|, positions);
    PlanInForest(|ls|, LeafIndices(positions), BitLength(|ls|));
    ItemCounts(m, ls, Plan(|ls|, LeafIndices(positions), BitLength(|ls|)));
  }

  /** Claims of leaves, as many items as an honest proof has: no error, whatever claims and items are. */
  lemma HonestCountAnswers<T>(m: Hasher<T>, root: T, n: nat, leaves: seq<Leaf<T>>, proof: seq<T>)
    requires n > 0 && leaves != [] && InForestOf(n, leaves) && |proof| == HonestCount(n, LeafPositions(leaves))
    ensures Verified(m, root, leaves, Size(n), proof).Ok?
  {
    hide Size, MaxLeaves, ItemsFit, HonestCount, Height, CalculatedRoot, Verified, LoneLeaf;
    MaxLeavesOfSize(n);
    HonestFits(n, LeafPositions(leaves));
    AllClaimLeaves(n, leaves);
    VerdictDecided(m, root, leaves, Size(n), proof);
  }

  lemma AllClaimLeaves<T>(n: nat, leaves: seq<Leaf<T>>)
    requires InForestOf(n, leaves)
    ensures !Interior(leaves)
  {
    hide Height, Size;
    forall i | 0 <= i < |leaves|
      ensures Height(leaves[i].pos) == 0
    {
      assert LeafPositions(leaves)[i] == leaves[i].pos && leaves[i].pos in LeafPositions(leaves);
    }
  }

  /** True claims and honest items: true for the root and false for everything else, with any hasher. */
  lemma HonestVerdict<T>(m: Hasher<T>, root: T, ls: seq<T>, positions: seq<nat>, leaves: seq<Leaf<T>>)
    requires ls != [] && positions != [] && LeavesFor(ls, positions, leaves)
    requires forall p :: p in positions ==> LeafPosition(|ls|, p)
    ensures Verified(m, root, leaves, Size(|ls|), ProofItems(m, ls, positions)) == Ok(root == Root(m, MmrCombine(m), ls))
  {
    hide CalculatedRoot, LeavesFor, LeafPosition, Size, ProofItems, Root, MmrCombine;
    MultiLeafCompleteness(m, ls, positions, leaves);
  }

  /** Claims that agree with others wherever they count lead to the same root. */
  lemma SameSurvivors<T>(m: Hasher<T>, a: seq<Leaf<T>>, b: seq<Leaf<T>>, mmrSize: nat, proof: seq<T>)
    requires LeafPositions(a) == LeafPositions(b) && Distinct(LeafKey, a) == Distinct(LeafKey, b)
    ensures CalculatedRoot(m, a, mmrSize, proof) == CalculatedRoot(m, b, mmrSize, proof)
  {
    hide Height, PeakHashes, MaxLeaves, Peaks, Positions, PeaksHashes, Distinct;
    SameClaims(a, b);
    PeaksHashesCases(m, a, mmrSize, proof);
    PeaksHashesCases(m, b, mmrSize, proof);
    if |a| == 1 {
      SingleDistinct(a);
      SingleDistinct(b);
    }
  }

  lemma SingleDistinct<T>(s: seq<Leaf<T>>)
    requires |s| == 1
    ensures Distinct(LeafKey, s) == s
  {
    assert s[1..] == [] && s == [s[0]];
  }

  lemma TrueAreVersion<D>(ls: seq<Hash<D>>, leaves: seq<Leaf<Hash<D>>>)
    requires ls != [] && InForestOf(|ls|, leaves) && TrueClaims(ls, leaves)
    ensures Distinct(LeafKey, leaves) == Distinct(LeafKey, TrueVersion(ls, leaves))
  {
    hide Size, Block, Distinct, LeafIndices, LeafPosition, LeavesFrom, TrueVersion, BitLength, TrueClaims;
    var idx, da, db := LeafIndices(LeafPositions(leaves)), Distinct(LeafKey, leaves), Distinct(LeafKey, TrueVersion(ls, leaves));
    ClaimsPlaced(ls, leaves);
    TrueSurvivors(ls, leaves);
    forall i | 0 <= i < |idx|
      ensures da[i] == db[i]
    {
      LeafPos(idx[i]);
      assert da[i] in da && TrueClaim(ls, da[i]);
      assert da[i].pos == Size(idx[i]);
    }
  }

  /** Under a hash without collisions, with honest items and the real root: whether the claims are true. */
  lemma HonestItemsDecide<D>(ls: seq<Hash<D>>, leaves: seq<Leaf<Hash<D>>>)
    requires ls != [] && leaves != [] && InForestOf(|ls|, leaves)
    ensures Verified(Free<D>(), Root(Free<D>(), MmrCombine(Free<D>()), ls), leaves, Size(|ls|),
                     ProofItems(Free<D>(), ls, LeafPositions(leaves)))
            == Ok(TrueClaims(ls, leaves))
  {
    hide CalculatedRoot, LeafPosition, Size, Root, MmrCombine, TrueClaims, Free, Trailing, LeafIndices, BitLength, Plan,
         Distinct, TrueVersion, HonestCount, ProofItems, Block;
    var positions, honest := LeafPositions(leaves), TrueVersion(ls, leaves);
    var items := ProofItems(Free<D>(), ls, positions);
    ItemsAreHonest(Free<D>(), ls, positions);
    HonestCountAnswers(Free<D>(), Root(Free<D>(), MmrCombine(Free<D>()), ls), |ls|, leaves, items);
    if TrueClaims(ls, leaves) {
      TrueVersionIs(ls, leaves);
      MultiLeafCompleteness(Free<D>(), ls, positions, honest);
      TrueAreVersion(ls, leaves);
      SameSurvivors(Free<D>(), leaves, honest, Size(|ls|), items);
    } else if Verified(Free<D>(), Root(Free<D>(), MmrCombine(Free<D>()), ls), leaves, Size(|ls|), items) == Ok(true) {
      NotLoose(|ls|, positions);
      AcceptedLeavesAreTrue(ls, leaves, items);
    }
  }

  lemma NotLoose(n: nat, positions: seq<nat>)
    ensures !LooseCount(n, positions, HonestCount(n, positions))
  {
    hide Trailing, LeafIndices, BitLength, Plan;
  }
}
