/** The proof object of `src/mmr.rs` and its verifying methods. */
module MmrInclusion {
  import opened Bits
  import opened Forest
  import opened Helper
  import opened PeakIterators
  import opened Nodes
  import opened Bagging
  import opened ProofSpec
  import opened MmrVerifier
  import opened Incremental
  import opened Parting
  import opened MmrIncremental
  import opened MmrNextRoot
  import opened Wrappers

  datatype InclusionProof<T(==)> = InclusionProof(mmrSize: u64, proof: seq<T>) {

    method CalculateRoot(m: Hasher<T>, leaves: seq<Leaf<T>>) returns (root: Result<T>)
      requires mmrSize <= SIZE_LIMIT
      ensures root == CalculatedRoot(m, leaves, mmrSize, proof)
    {
      root := MmrVerifier.CalculateRoot(m, leaves, mmrSize, proof);
    }

    /** True exactly when the root computed from the leaves and the items is the given one. */
    method Verify(m: Hasher<T>, root: T, leaves: seq<Leaf<T>>) returns (ok: Result<bool>)
      requires mmrSize <= SIZE_LIMIT
      ensures ok == Verified(m, root, leaves, mmrSize, proof)
    {
      var calculated := CalculateRoot(m, leaves);
      ok := match calculated case Err(e) => Err(e) case Ok(r) => Ok(r == root);
    }

    /** The root with one more leaf, from a proof about the forest without it. */
    method CalculateRootWithNewLeaf(m: Hasher<T>, leaves: seq<Leaf<T>>, newPos: u64, newElem: T, newMmrSize: u64)
      returns (root: Result<T>)
      requires mmrSize <= SIZE_LIMIT && newMmrSize <= SIZE_LIMIT && newPos < U64_MAX
      ensures root == RootWithNewLeaf(m, leaves, newPos, newElem, newMmrSize, mmrSize, proof)
    {
      hide Height, CalculatedRoot, PeaksHashes, MaxLeaves, Peaks, Positions;
      var posHeight := PosHeightInTree(newPos);
      var nextHeight := PosHeightInTree(newPos + 1);
      if nextHeight > posHeight {
        var found := CalculatePeaksHashes(m, leaves, mmrSize, proof);
        if found.Err? {
          return Err(found.error);
        }
        var peaksHashes := found.value;
        var peaksPos := CollectPeaks(newMmrSize);
        var i := 0;
        assert peaksPos[0..] == peaksPos;
        while i < |peaksPos| && peaksPos[i] < newPos
          invariant 0 <= i <= |peaksPos|
          invariant FirstBeyond(peaksPos, newPos) == i + FirstBeyond(peaksPos[i..], newPos)
        {
          assert peaksPos[i..][1..] == peaksPos[i + 1..];
          i := i + 1;
        }
        if i == |peaksPos| || i > |peaksHashes| {
          return Err(SliceOutOfRange);
        }
        peaksHashes := peaksHashes[..i] + Reverse(peaksHashes[i..]);
        root := MmrVerifier.CalculateRoot(m, [Leaf(newPos, newElem)], newMmrSize, peaksHashes);
      } else {
        root := MmrVerifier.CalculateRoot(m, leaves + [Leaf(newPos, newElem)], newMmrSize, proof);
      }
    }

    /** An old root and the leaves pushed since against the root now. */
    method VerifyIncremental(m: Hasher<T>, root: T, prevRoot: T, incremental: seq<T>) returns (ok: Result<bool>)
      requires mmrSize <= SIZE_LIMIT
      ensures ok == VerifiedIncremental(m, root, prevRoot, incremental, mmrSize, proof)
    {
      hide MaxLeaves, Peaks, Positions, Size, Verified, Bag, NewLeaves, ReverseIndex, PopCount;
      var currentLeavesCount := GetPeakMap(mmrSize);
      if currentLeavesCount <= |incremental| {
        return Err(CorruptedProof);
      }
      var prevLeavesCount: u64 := currentLeavesCount - |incremental|;
      ghost var k := prevLeavesCount;
      PrevSizes(mmrSize, k, |incremental|);
      var prevMmrSize := LeafIndexToMmrSize(prevLeavesCount - 1);
      var prevPeaksPositions := CollectPeaks(prevMmrSize);
      PeaksInRange(k, currentLeavesCount);
      if |prevPeaksPositions| != |proof| {
        return Err(CorruptedProof);
      }
      var currentPeaksPositions := CollectPeaks(mmrSize);
      var reverseIndex := |prevPeaksPositions| - 1;
      for i := 0 to |prevPeaksPositions|
        invariant reverseIndex == |prevPeaksPositions| - 1
        invariant i < |prevPeaksPositions| ==> i < |currentPeaksPositions|
        invariant ReverseIndex(prevPeaksPositions, currentPeaksPositions, 0)
                  == ReverseIndex(prevPeaksPositions, currentPeaksPositions, i)
      {
        ReverseIndexOn(k, currentLeavesCount, i);
        if prevPeaksPositions[i] < currentPeaksPositions[i] {
          reverseIndex := i;
          break;
        }
      }
      ReverseIndexEnd(prevPeaksPositions, currentPeaksPositions);
      var prevPeaks := proof[..reverseIndex] + Reverse(proof[reverseIndex..]);
      var calculatedPrevRoot := BaggingPeaksHashes(m, prevPeaks);
      if calculatedPrevRoot.Err? {
        return Err(MergeError(CorruptedProof));
      }
      if calculatedPrevRoot.value != prevRoot {
        return Ok(false);
      }
      var leaves: seq<Leaf<T>> := [];
      NewLeavesAll(k, incremental);
      for index := 0 to |incremental|
        invariant leaves == NewLeaves(k, incremental)[..index]
      {
        NewPosition(k, |incremental|, index);
        NewLeafAt(k, incremental, index);
        var pos := LeafIndexToPos(prevLeavesCount + index);
        leaves := leaves + [Leaf(pos, incremental[index])];
      }
      var verified := Verify(m, root, leaves);
      ok := if verified.Err? then Err(MergeError(verified.error)) else verified;
    }
  }

  /** Sizes of the old and the new forest. */
  lemma PrevSizes(mmrSize: u64, k: nat, added: nat)
    requires mmrSize <= SIZE_LIMIT && k > 0 && k + added == MaxLeaves(mmrSize)
    ensures k + added <= SIZE_LIMIT && Size(k + added) <= SIZE_LIMIT
    ensures MaxLeaves(Size(k)) == k && Size(k) <= SIZE_LIMIT
  {
    hide Size;
    SizeMono(k, k + added);
    MaxLeavesOfSize(k);
  }

  /** No index of the search over the old peaks runs past the new ones. */
  lemma PeaksInRange(k: nat, n: nat)
    requires 0 < k <= n
    ensures |Positions(Peaks(k))| == |Peaks(k)| > 0 && |Positions(Peaks(n))| > 0
    ensures ReverseIndex(Positions(Peaks(k)), Positions(Peaks(n)), 0) < |Peaks(k)|
  {
    hide Peaks, Pos, ReverseIndex;
    PeaksNotEmpty(k);
    PeaksNotEmpty(n);
    ReverseInRange(k, Positions(Peaks(k)), Positions(Peaks(n)), 0);
  }

  lemma ReverseIndexOn(k: nat, n: nat, i: nat)
    requires 0 < k <= n && i < |Positions(Peaks(k))| && i < |Positions(Peaks(n))|
    requires ReverseIndex(Positions(Peaks(k)), Positions(Peaks(n)), 0)
             == ReverseIndex(Positions(Peaks(k)), Positions(Peaks(n)), i)
    ensures var prev, current := Positions(Peaks(k)), Positions(Peaks(n));
            if prev[i] < current[i] then ReverseIndex(prev, current, i) == i
            else ReverseIndex(prev, current, i) == ReverseIndex(prev, current, i + 1)
                 && (i + 1 < |prev| ==> i + 1 < |current|)
  {
    hide Peaks, Pos, Unchanged, Merging;
    ReverseIndexAtLeast(Positions(Peaks(k)), Positions(Peaks(n)), i);
    if k < n {
      ReverseIndexIs(k, n);
    }
  }

  lemma {:induction false} ReverseIndexAtLeast(prev: seq<nat>, current: seq<nat>, i: nat)
    requires i < |prev|
    ensures ReverseIndex(prev, current, i) >= i
    decreases |prev| - i
  {
    if i + 1 < |prev| { ReverseIndexAtLeast(prev, current, i + 1); }
  }

  lemma ReverseIndexEnd(prev: seq<nat>, current: seq<nat>)
    requires prev != []
    ensures ReverseIndex(prev, current, |prev|) == |prev| - 1
  {
  }

  lemma NewLeafAt<T>(k: nat, incremental: seq<T>, i: nat)
    requires Size(k + |incremental|) <= SIZE_LIMIT && i < |incremental| && Size(k + i) <= SIZE_LIMIT
    ensures |NewLeaves(k, incremental)| == |incremental|
    ensures NewLeaves(k, incremental)[..i + 1] == NewLeaves(k, incremental)[..i] + [Leaf(Size(k + i), incremental[i])]
  {
    hide Size;
  }

  lemma NewLeavesAll<T>(k: nat, incremental: seq<T>)
    requires Size(k + |incremental|) <= SIZE_LIMIT
    ensures |NewLeaves(k, incremental)| == |incremental|
    ensures NewLeaves(k, incremental)[..|incremental|] == NewLeaves(k, incremental)
  {
    hide Size;
  }
}
