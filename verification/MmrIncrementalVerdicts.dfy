/** What `verify_incremental` answers, refusals included. */
module MmrIncrementalVerdicts {
  import opened Bits
  import opened Forest
  import opened Nodes
  import opened FreeHash
  import opened Bagging
  import opened ProofPlan
  import opened Incremental
  import opened ProofSpec
  import opened Completeness
  import opened FirstClaims
  import opened Parting
  import opened MmrIncremental
  import opened MmrBinding
  import opened MmrVerdicts
  import opened Wrappers

  // ----- when it errs -----

  lemma NewClaims<T>(k: nat, incremental: seq<T>)
    requires Size(k + |incremental|) <= SIZE_LIMIT
    ensures |NewLeaves(k, incremental)| == |incremental|
    ensures LeafPositions(NewLeaves(k, incremental)) == NewPositions(k, k + |incremental|)
    ensures InForestOf(k + |incremental|, NewLeaves(k, incremental))
  {
    hide Size, LeafPosition;
    var n := k + |incremental|;
    forall p | p in NewPositions(k, n)
      ensures LeafPosition(n, p)
    {
      var i :| 0 <= i < n - k && NewPositions(k, n)[i] == p;
      LeafPlace(n, k + i);
    }
    assert LeafPositions(NewLeaves(k, incremental)) == NewPositions(k, n);
  }

  /** A proof with an item for each old peak always has a number of items that fits. */
  lemma OldPeaksFit(k: nat, n: nat)
    requires 0 < k <= n
    ensures |Peaks(k)| > 0 && ItemsFit(n, NewPositions(k, n), |Peaks(k)|)
  {
    hide Size, Shr, Plan, PeaksBelow, Merging, Unchanged, LeafIndices, Trailing, BitLength, Peaks;
    PeaksNotEmpty(k);
    if k == n {
      NoNewPlan(n);
    } else {
      var top := BitLength(n);
      NewIndices(k, n);
      PeaksPart(k, n);
      IncrementalPlan(k, n, top);
      var u, absorbed := Unchanged(k, n, top), PeaksBelow(k, Merging(k, n, top));
      assert |Singles(u + Reverse(absorbed))| == |Peaks(k)|;
      HonestFits(n, NewPositions(k, n));
    }
  }

  lemma NoNewPlan(n: nat)
    requires n > 0
    ensures ItemsFit(n, NewPositions(n, n), |Peaks(n)|)
  {
    hide PeaksBelow;
    var none: seq<nat> := [];
    PeaksNotEmpty(n);
    assert NewPositions(n, n) == none && LeafIndices(none) == none;
    PlanEnds(n, none, BitLength(n));
    TrailingUnfold(n, none, BitLength(n));
    PeaksFromTop(n);
  }

  /**
   On arbitrary input an error exactly for too many new leaves or a number of items other than that of the
   old peaks; past these checks the inner `verify` never errs.
   */
  lemma IncrementalErrs<T>(m: Hasher<T>, root: T, prevRoot: T, incremental: seq<T>, mmrSize: nat, proof: seq<T>)
    requires mmrSize <= SIZE_LIMIT
    ensures var r := VerifiedIncremental(m, root, prevRoot, incremental, mmrSize, proof);
            if MaxLeaves(mmrSize) <= |incremental| || |Peaks(MaxLeaves(mmrSize) - |incremental|)| != |proof|
            then r == Err(CorruptedProof) else r.Ok?
  {
    hide MaxLeaves, Size, Peaks, PrevPeaks, Bag, Verified, NewLeaves, ItemsFit, InForestOf, NewPositions, Height;
    var n := MaxLeaves(mmrSize);
    if n > |incremental| && |Peaks(n - |incremental|)| == |proof| {
      var k := n - |incremental|;
      NewClaims(k, incremental);
      OldPeaksFit(k, n);
      AllClaimLeaves(n, NewLeaves(k, incremental));
      VerdictDecided(m, root, NewLeaves(k, incremental), mmrSize, proof);
    }
  }

  // ----- honest items -----

  /** True new leaves: true exactly for the two roots, false for any other old root or new root, with any hasher. */
  lemma IncrementalVerdict<T>(m: Hasher<T>, root: T, prevRoot: T, ls: seq<T>, k: nat)
    requires 0 < k < |ls| && Size(|ls|) <= SIZE_LIMIT
    ensures forall p :: p in NewPositions(k, |ls|) ==> LeafPosition(|ls|, p)
    ensures VerifiedIncremental(m, root, prevRoot, ls[k..], Size(|ls|), ProofItems(m, ls, NewPositions(k, |ls|)))
            == Ok(prevRoot == Root(m, MmrCombine(m), ls[..k]) && root == Root(m, MmrCombine(m), ls))
  {
    hide Size, Bag, PeakValues, MmrCombine, Peaks, PrevPeaks, CalculatedRoot, NewLeaves, Verified, MaxLeaves, NewPositions,
         ProofItems, LeafPosition, LeavesFor;
    var n := |ls|;
    MaxLeavesOfSize(n);
    PrevPeaksOfItems(m, ls, k);
    NewLeavesFor(ls, k);
    HonestVerdict(m, root, ls, NewPositions(k, n), NewLeaves(k, ls[k..]));
  }

  /** Under a hash without collisions, with honest items and both real roots: whether the new leaves are true. */
  lemma IncrementalItemsDecide<D>(ls: seq<Hash<D>>, k: nat, incremental: seq<Hash<D>>)
    requires 0 < k < |ls| == k + |incremental| && Size(|ls|) <= SIZE_LIMIT
    ensures forall p :: p in NewPositions(k, |ls|) ==> LeafPosition(|ls|, p)
    ensures VerifiedIncremental(Free<D>(), Root(Free<D>(), MmrCombine(Free<D>()), ls),
                                Root(Free<D>(), MmrCombine(Free<D>()), ls[..k]), incremental, Size(|ls|),
                                ProofItems(Free<D>(), ls, NewPositions(k, |ls|)))
            == Ok(incremental == ls[k..])
  {
    hide Size, Bag, PeakValues, MmrCombine, Peaks, PrevPeaks, CalculatedRoot, NewLeaves, Verified, MaxLeaves, NewPositions,
         ProofItems, LeafPosition, Free, TrueClaims;
    var m, n := Free<D>(), |ls|;
    MaxLeavesOfSize(n);
    PrevPeaksOfItems(m, ls, k);
    NewClaims(k, incremental);
    HonestItemsDecide(ls, NewLeaves(k, incremental));
    NewClaimsTrue(ls, k, incremental);
  }

  lemma NewClaimsTrue<T>(ls: seq<T>, k: nat, incremental: seq<T>)
    requires |ls| == k + |incremental| && Size(|ls|) <= SIZE_LIMIT
    ensures TrueClaims(ls, NewLeaves(k, incremental)) <==> incremental == ls[k..]
  {
    hide Size, Block;
    var leaves := NewLeaves(k, incremental);
    forall i: nat | i < |leaves|
      ensures FirstAt(leaves, i) && (TrueClaim(ls, leaves[i]) <==> incremental[i] == ls[k..][i])
    {
      LeafPos(k + i);
      forall j: nat | j < i
        ensures leaves[j].pos != leaves[i].pos
      {
        SizeMono(k + j, k + i);
      }
    }
    if TrueClaims(ls, leaves) {
      forall i: nat | i < |incremental|
        ensures incremental[i] == ls[k..][i]
      {
        assert FirstAt(leaves, i);
      }
    }
  }
}
