/** What an accepted incremental proof says under a hash without collisions. */
module MmrIncrementalSoundness {
  import opened Bits
  import opened Forest
  import opened Nodes
  import opened FreeHash
  import opened Bagging
  import opened Incremental
  import opened ProofSpec
  import opened Completeness
  import opened MmrIncremental
  import opened MmrSoundness
  import opened MmrRoots
  import opened MmrBinding
  import opened Wrappers

  lemma {:induction false} AscendingDistinct<T>(s: seq<Leaf<T>>)
    requires forall i, k :: 0 <= i < k < |s| ==> s[i].pos < s[k].pos
    ensures Distinct(LeafKey, s) == s
  {
    if s != [] {
      AscendingDistinct(s[1..]);
      assert |s| > 1 ==> s[0].pos < s[1].pos;
      assert s == [s[0]] + s[1..];
    }
  }

  lemma NewLeavesDistinct<T>(k: nat, incremental: seq<T>)
    requires Size(k + |incremental|) <= SIZE_LIMIT
    ensures Distinct(LeafKey, NewLeaves(k, incremental)) == NewLeaves(k, incremental)
  {
    hide Size;
    var leaves := NewLeaves(k, incremental);
    forall i, l | 0 <= i < l < |leaves|
      ensures leaves[i].pos < leaves[l].pos
    {
      SizeMono(k + i, k + l);
    }
    AscendingDistinct(leaves);
  }

  lemma NewLeavesBind<T>(k: nat, a: seq<T>, b: seq<T>)
    requires |a| == |b| && Size(k + |a|) <= SIZE_LIMIT && NewLeaves(k, a) == NewLeaves(k, b)
    ensures a == b
  {
    hide Size;
    forall i | 0 <= i < |a|
      ensures a[i] == b[i]
    {
      assert NewLeaves(k, a)[i].item == a[i] && NewLeaves(k, b)[i].item == b[i];
    }
  }

  lemma NewLeavesPlaces<T>(k: nat, a: seq<T>, b: seq<T>)
    requires |a| == |b| && Size(k + |a|) <= SIZE_LIMIT
    ensures SamePositions(NewLeaves(k, a), NewLeaves(k, b))
  {
    hide Size;
  }

  /** An accepted increment leaves something for the old run. */
  lemma SomeOld<T>(m: Hasher<T>, root: T, prevRoot: T, incremental: seq<T>, n: nat, proof: seq<T>)
    requires Size(n) <= SIZE_LIMIT
    requires VerifiedIncremental(m, root, prevRoot, incremental, Size(n), proof) == Ok(true)
    ensures |incremental| < n
  {
    hide Size, Bag, Peaks, PrevPeaks, Verified, NewLeaves, MaxLeaves;
    MaxLeavesOfSize(n);
  }

  /** The parts of an accepted incremental proof. */
  lemma AcceptedSteps<T>(m: Hasher<T>, root: T, prevRoot: T, incremental: seq<T>, k: nat, n: nat, proof: seq<T>)
    requires k > 0 && k + |incremental| == n && Size(n) <= SIZE_LIMIT
    requires VerifiedIncremental(m, root, prevRoot, incremental, Size(n), proof) == Ok(true)
    ensures |Peaks(k)| == |proof| && Bag(m, PrevPeaks(k, n, proof)) == prevRoot
    ensures CalculatedRoot(m, NewLeaves(k, incremental), Size(n), proof) == Ok(root)
  {
    hide Size, Bag, Peaks, PrevPeaks, CalculatedRoot, NewLeaves, MaxLeaves;
    MaxLeavesOfSize(n);
  }

  /** Whatever was accepted, the leaves are the last ones of the new run and the old root is that of the rest. */
  lemma IncrementShown<D>(after: seq<Hash<D>>, prevRoot: Hash<D>, incremental: seq<Hash<D>>, proof: seq<Hash<D>>)
    requires after != [] && Size(|after|) <= SIZE_LIMIT
    requires VerifiedIncremental(Free<D>(), Root(Free<D>(), MmrCombine(Free<D>()), after), prevRoot, incremental,
                                 Size(|after|), proof) == Ok(true)
    ensures |incremental| < |after|
    ensures var k := |after| - |incremental|;
            incremental == after[k..] && prevRoot == Root(Free<D>(), MmrCombine(Free<D>()), after[..k])
  {
    hide Free, Size, PeakValues, MmrCombine, Peaks, PrevPeaks, CalculatedRoot, NewLeaves, VerifiedIncremental, Distinct,
         NewPositions, ProofItems, LeafPosition, LeavesFor, Bag;
    var m, n := Free<D>(), |after|;
    SomeOld(m, Root(m, MmrCombine(m), after), prevRoot, incremental, n, proof);
    var k := n - |incremental|;
    AcceptedSteps(m, Root(m, MmrCombine(m), after), prevRoot, incremental, k, n, proof);
    if incremental == [] {
      NothingNew(after, proof);
      assert after[..n] == after;
    } else {
      var added := after[k..];
      PrevPeaksOfItems(m, after, k);
      NewLeavesFor(after, k);
      var items := ProofItems(m, after, NewPositions(k, n));
      MultiLeafCompleteness(m, after, NewPositions(k, n), NewLeaves(k, added));
      NewLeavesPlaces(k, incremental, added);
      SizeOfOne(n);
      RootBinds(NewLeaves(k, incremental), NewLeaves(k, added), Size(n), proof, items);
      NewLeavesDistinct(k, incremental);
      NewLeavesDistinct(k, added);
      NewLeavesBind(k, incremental, added);
    }
  }

  /** With no new leaves the items bag to the same root, read back as they are. */
  lemma NothingNew<D>(after: seq<Hash<D>>, proof: seq<Hash<D>>)
    requires after != [] && Size(|after|) <= SIZE_LIMIT && |Peaks(|after|)| == |proof|
    requires CalculatedRoot(Free<D>(), NewLeaves(|after|, []), Size(|after|), proof)
             == Ok(Root(Free<D>(), MmrCombine(Free<D>()), after))
    ensures Bag(Free<D>(), PrevPeaks(|after|, |after|, proof)) == Root(Free<D>(), MmrCombine(Free<D>()), after)
  {
    hide Free, Size, Bag, MmrCombine, Peaks, PeaksBelow, PrevPeaks, Positions, PeakHashes, Height, MaxLeaves, Root;
    var n := |after|;
    var none: seq<Leaf<Hash<D>>> := [];
    assert NewLeaves(n, []) == none;
    MaxLeavesOfSize(n);
    TrailRun(Free<D>(), Positions(Peaks(n)), proof);
    PositionCount(Peaks(n));
    assert proof[..|proof|] == proof && proof[|proof|..] == [];
    assert proof + [] == proof;
    SamePeaksBack(n, proof);
  }

  /** Whoever holds the old root and accepts is shown a run that goes on from the old one with these leaves. */
  lemma IncrementalSoundness<D(!new)>(before: seq<Hash<D>>, after: seq<Hash<D>>, incremental: seq<Hash<D>>,
                                      proof: seq<Hash<D>>)
    requires before != [] && |before| + |incremental| == |after| && Size(|after|) <= SIZE_LIMIT
    requires VerifiedIncremental(Free<D>(), Root(Free<D>(), MmrCombine(Free<D>()), after),
                                 Root(Free<D>(), MmrCombine(Free<D>()), before), incremental, Size(|after|), proof) == Ok(true)
    ensures after == before + incremental
  {
    hide Free, Size, MmrCombine, Root, VerifiedIncremental;
    IncrementShown(after, Root(Free<D>(), MmrCombine(Free<D>()), before), incremental, proof);
    SameLengthBinds(before, after[..|before|]);
  }

  /** Between hashed runs the lengths need not be known to add up. */
  lemma HashedIncrementalSoundness<D(!new)>(before: seq<Hash<D>>, after: seq<Hash<D>>, incremental: seq<Hash<D>>,
                                            proof: seq<Hash<D>>)
    requires before != [] && after != [] && Hashed(before) && Hashed(after) && Size(|after|) <= SIZE_LIMIT
    requires VerifiedIncremental(Free<D>(), Root(Free<D>(), MmrCombine(Free<D>()), after),
                                 Root(Free<D>(), MmrCombine(Free<D>()), before), incremental, Size(|after|), proof) == Ok(true)
    ensures after == before + incremental
  {
    hide Free, Size, MmrCombine, Root, VerifiedIncremental;
    IncrementShown(after, Root(Free<D>(), MmrCombine(Free<D>()), before), incremental, proof);
    HashedRootsBind(before, after[..|after| - |incremental|]);
  }

  lemma PositionCount(cs: seq<Coord>)
    ensures |Positions(cs)| == |cs|
  {
    hide Pos;
  }

  lemma SamePeaksBack<T>(n: nat, proof: seq<T>)
    requires n > 0 && |Peaks(n)| == |proof|
    ensures PrevPeaks(n, n, proof) == proof
  {
    hide Peaks, Positions;
    PositionCount(Peaks(n));
    PeaksNotEmpty(n);
    LastIndex(Positions(Peaks(n)), 0);
    var last := |proof| - 1;
    assert proof[last..] == [proof[last]];
    ReverseSingle(proof[last..]);
  }

  lemma {:induction false} LastIndex(s: seq<nat>, i: nat)
    requires i <= |s| && s != []
    ensures ReverseIndex(s, s, i) == |s| - 1
    decreases |s| - i
  {
    if i < |s| { LastIndex(s, i + 1); }
  }
}
