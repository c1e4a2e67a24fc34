/** What `calculate_root_with_new_leaf` answers on arbitrary input, and what a root it returns vouches for. */
module MmrNextRootVerdicts {
  import opened Bits
  import opened Forest
  import opened Nodes
  import opened FreeHash
  import opened Bagging
  import opened QueueWalk
  import opened ProofSpec
  import opened Completeness
  import opened FirstClaims
  import opened Incremental
  import opened MmrIncremental
  import opened MmrNextRoot
  import opened MmrSoundness
  import opened MmrVerdicts
  import opened Wrappers

  // ----- when it errs -----

  /** The new leaf is a right child, so its parent comes next. */
  ghost predicate Merges(newPos: nat) {
    Height(newPos + 1) > Height(newPos)
  }

  /** What is handed on as items when the new leaf merges: where they are cut, and how many there are. */
  ghost predicate SliceFits(newPos: nat, newMmrSize: nat, count: int) {
    var peaks := Positions(Peaks(MaxLeaves(newMmrSize)));
    FirstBeyond(peaks, newPos) < |peaks| && FirstBeyond(peaks, newPos) <= count
  }

  /**
   Whatever is handed in: old claims that `verify` would refuse for their positions or their number of
   items are refused in the same words, whichever branch is taken.
   */
  lemma NextRootDecided<T>(m: Hasher<T>, leaves: seq<Leaf<T>>, newPos: u64, newElem: T, newMmrSize: nat, mmrSize: nat,
                           proof: seq<T>)
    ensures var (r, l, count) := (RootWithNewLeaf(m, leaves, newPos, newElem, newMmrSize, mmrSize, proof),
                                  Leaf(newPos, newElem), HashesFound(leaves, mmrSize, |proof|));
            if Interior(leaves) then r == Err(NodeProofsNotSupported)
            else if !Merges(newPos) then
              if Height(newPos) > 0 then r == Err(NodeProofsNotSupported)
              else if !Checkable(leaves + [l], newMmrSize, |proof|) then r == Err(CorruptedProof)
              else r.Ok?
            else if !HashesFit(leaves, mmrSize, |proof|) then r == Err(CorruptedProof)
            else if !SliceFits(newPos, newMmrSize, count) then r == Err(SliceOutOfRange)
            else if Height(newPos) > 0 then r == Err(NodeProofsNotSupported)
            else if !Checkable([l], newMmrSize, count) then r == Err(CorruptedProof)
            else r.Ok?
  {
    hide Height, PeaksHashes, CalculatedRoot, HashesFit, HashesFound, MaxLeaves, Peaks, Positions, FirstBeyond, Checkable,
         ReverseFrom, Interior;
    var l := Leaf(newPos, newElem);
    HashesDecided(m, leaves, mmrSize, proof);
    OneMoreClaim(leaves, l);
    var r := PeaksHashes(m, leaves, mmrSize, proof);
    if !Merges(newPos) {
      RootDecided(m, leaves + [l], newMmrSize, proof);
    } else if r.Ok? {
      var i := FirstBeyond(Positions(Peaks(MaxLeaves(newMmrSize))), newPos);
      if i <= |r.value| {
        ReverseFromCount(r.value, i);
        RootDecided(m, [l], newMmrSize, ReverseFrom(r.value, i));
      }
    }
  }

  lemma OneMoreClaim<T>(leaves: seq<Leaf<T>>, l: Leaf<T>)
    ensures Interior(leaves + [l]) <==> Interior(leaves) || Height(l.pos) > 0
    ensures Interior([l]) <==> Height(l.pos) > 0
  {
    hide Height;
    var all := leaves + [l];
    assert all[|leaves|] == l && forall i :: 0 <= i < |leaves| ==> all[i] == leaves[i];
    if Height(l.pos) > 0 { assert [l][0] == l; }
  }

  lemma ReverseFromCount<A>(s: seq<A>, i: nat)
    requires i <= |s|
    ensures |ReverseFrom(s, i)| == |s| && forall x :: x in s ==> x in ReverseFrom(s, i)
  {
    ReverseHolds(s[i..]);
    assert s == s[..i] + s[i..];
  }

  // ----- what a root vouches for -----

  /** Items used up on the way to a value are part of it. */
  ghost predicate UsedIn<D>(proof: seq<Hash<D>>, rest: seq<Hash<D>>, v: Hash<D>) {
    |rest| <= |proof| && rest == proof[|proof| - |rest|..]
    && forall i :: 0 <= i < |proof| - |rest| ==> Subterm(proof[i], v)
  }

  lemma {:induction false} PeakWalkUses<D>(q: seq<Entry<Hash<D>>>, peakPos: nat, proof: seq<Hash<D>>)
    requires Below(q, peakPos) && PeakWalk(Free<D>(), q, peakPos, proof).Ok?
    ensures var (v, rest) := PeakWalk(Free<D>(), q, peakPos, proof).value; UsedIn(proof, rest, v)
    decreases Work(q, peakPos)
  {
    hide Work, SibPos, IsRight, ParentItem, ParentPos, Free, Height, Subterm, SiblingQueued;
    if q != [] && q[0].pos == peakPos {
      assert proof[|proof| - |proof|..] == proof;
    } else {
      var sibling, parent, proof' := PeakWalkStep(Free<D>(), q, peakPos, proof);
      var q' := Behind(q) + [parent];
      PeakWalkUses(q', peakPos, proof');
      var (v, rest) := PeakWalk(Free<D>(), q, peakPos, proof).value;
      if !SiblingQueued(q) {
        FreeParent(q[0], sibling);
        PeakWalkMembers(q', peakPos, proof');
        assert q'[|q'| - 1] == parent;
        SubtermTrans(sibling, parent.item, v);
        UsedMore(proof, rest, v);
      }
    }
  }

  lemma UsedMore<D>(proof: seq<Hash<D>>, rest: seq<Hash<D>>, v: Hash<D>)
    requires proof != [] && UsedIn(proof[1..], rest, v) && Subterm(proof[0], v)
    ensures UsedIn(proof, rest, v)
  {
    hide Subterm;
    forall i | 0 <= i < |proof| - |rest|
      ensures Subterm(proof[i], v)
    {
      if i > 0 { assert proof[i] == proof[1..][i - 1]; }
    }
  }

  lemma MountainUses<D>(here: seq<Leaf<Hash<D>>>, peakPos: nat, proof: seq<Hash<D>>)
    requires forall i :: 0 <= i < |here| ==> here[i].pos <= peakPos
    requires MountainHash(Free<D>(), here, peakPos, proof).Ok?
    ensures var (v, rest) := MountainHash(Free<D>(), here, peakPos, proof).value; UsedIn(proof, rest, v)
  {
    hide Free, PeakWalk;
    assert proof[|proof| - |proof|..] == proof;
    if here != [] && !(|here| == 1 && here[0].pos == peakPos) {
      assert Below(Queue(here), peakPos);
      PeakWalkUses(Queue(here), peakPos, proof);
    }
  }

  /** Each item is under one of the hashes, unless it is left over. */
  ghost predicate ItemsIn<D>(proof: seq<Hash<D>>, hashes: seq<Hash<D>>, rest: seq<Hash<D>>) {
    forall x :: x in proof ==> x in rest || exists i :: 0 <= i < |hashes| && Subterm(x, hashes[i])
  }

  lemma {:induction false} PeakHashesUse<D>(leaves: seq<Leaf<Hash<D>>>, peaks: seq<nat>, proof: seq<Hash<D>>)
    requires PeakHashes(Free<D>(), leaves, peaks, proof).Ok?
    ensures var (hashes, left, rest) := PeakHashes(Free<D>(), leaves, peaks, proof).value; ItemsIn(proof, hashes, rest)
    decreases |peaks|
  {
    hide Free, UpTo, MountainHash, ItemsIn;
    if peaks == [] || (UpTo(leaves, peaks[0]) == 0 && proof == []) {
      AllItemsLeft(proof);
    } else {
      var k := UpTo(leaves, peaks[0]);
      var (hash, proof') := MountainHash(Free<D>(), leaves[..k], peaks[0], proof).value;
      PeakHashesUse(leaves[k..], peaks[1..], proof');
      MountainUses(leaves[..k], peaks[0], proof);
      var (hashes, left, rest) := PeakHashes(Free<D>(), leaves[k..], peaks[1..], proof').value;
      ItemsMore(proof, proof', hash, hashes, rest);
    }
  }

  lemma AllItemsLeft<D>(proof: seq<Hash<D>>)
    ensures ItemsIn(proof, [], proof)
  {
  }

  lemma ItemsMore<D>(proof: seq<Hash<D>>, proof': seq<Hash<D>>, hash: Hash<D>, hashes: seq<Hash<D>>, rest: seq<Hash<D>>)
    requires UsedIn(proof, proof', hash) && ItemsIn(proof', hashes, rest)
    ensures ItemsIn(proof, [hash] + hashes, rest)
  {
    hide Subterm;
    var all, used := [hash] + hashes, |proof| - |proof'|;
    forall x | x in proof && x !in rest
      ensures exists i :: 0 <= i < |all| && Subterm(x, all[i])
    {
      var k :| 0 <= k < |proof| && proof[k] == x;
      if k < used {
        assert Subterm(x, all[0]);
      } else {
        assert proof'[k - used] == x;
        var i :| 0 <= i < |hashes| && Subterm(x, hashes[i]);
        assert all[i + 1] == hashes[i];
      }
    }
  }

  /** Past the shortcut for one leaf, a root contains every item, too. */
  lemma RootContainsItems<D>(leaves: seq<Leaf<Hash<D>>>, mmrSize: nat, proof: seq<Hash<D>>)
    requires CalculatedRoot(Free<D>(), leaves, mmrSize, proof).Ok? && !LoneLeaf(leaves, mmrSize)
    ensures forall x :: x in proof ==> Subterm(x, CalculatedRoot(Free<D>(), leaves, mmrSize, proof).value)
  {
    hide Free, PeakHashes, Distinct, Height, Peaks, Positions, MaxLeaves, Bag, Subterm;
    var hashes := PeaksHashes(Free<D>(), leaves, mmrSize, proof).value;
    BagMembers(hashes);
    var peaks := Positions(Peaks(MaxLeaves(mmrSize)));
    PeakHashesUse(Distinct(LeafKey, leaves), peaks, proof);
    var (found, left, rest) := PeakHashes(Free<D>(), Distinct(LeafKey, leaves), peaks, proof).value;
    forall x | x in proof
      ensures Subterm(x, Bag(Free<D>(), hashes))
    {
      if x in rest {
        var i :| 0 <= i < |rest| && rest[i] == x;
        assert hashes[|found| + i] == x;
      } else {
        var i :| 0 <= i < |found| && Subterm(x, found[i]);
        assert hashes[i] == found[i];
        SubtermTrans(x, hashes[i], Bag(Free<D>(), hashes));
      }
    }
  }

  /** So do the hashes it is bagged from contain the claims. */
  lemma HashesContainLeaves<D>(leaves: seq<Leaf<Hash<D>>>, mmrSize: nat, proof: seq<Hash<D>>)
    requires PeaksHashes(Free<D>(), leaves, mmrSize, proof).Ok?
    ensures forall l :: l in Distinct(LeafKey, leaves) ==> InSome(PeaksHashes(Free<D>(), leaves, mmrSize, proof).value, l.item)
  {
    hide Free, PeakHashes, Distinct, Height, Peaks, Positions, MaxLeaves, Subterm;
    var hashes := PeaksHashes(Free<D>(), leaves, mmrSize, proof).value;
    if LoneLeaf(leaves, mmrSize) {
      DistinctPositions(leaves);
      assert hashes[0] == leaves[0].item;
      Itself(hashes[0]);
    } else {
      var peaks := Positions(Peaks(MaxLeaves(mmrSize)));
      PeakHashesMembers(Distinct(LeafKey, leaves), peaks, proof);
      var (found, left, rest) := PeakHashes(Free<D>(), Distinct(LeafKey, leaves), peaks, proof).value;
      forall l | l in Distinct(LeafKey, leaves)
        ensures InSome(hashes, l.item)
      {
        var i :| 0 <= i < |found| && Subterm(l.item, found[i]);
        assert hashes[i] == found[i];
      }
    }
  }

  lemma Itself<D>(t: Hash<D>)
    ensures Subterm(t, t)
  {
  }

  ghost predicate InSome<D>(hashes: seq<Hash<D>>, x: Hash<D>) {
    exists i :: 0 <= i < |hashes| && Subterm(x, hashes[i])
  }

  /** A later position has no leaf before it, so it is no lone one. */
  lemma MergingIsNotLone<D>(newPos: u64, newElem: Hash<D>, newMmrSize: nat)
    requires Merges(newPos)
    ensures !LoneLeaf([Leaf(newPos, newElem)], newMmrSize)
  {
    hide Height;
    FirstLeaves(0);
    FirstLeaves(1);
  }

  /**
   Under a hash without collisions, whatever is handed in: a root returned contains what is claimed first
   for each old position, and the new leaf unless its position was already claimed.
   */
  lemma NextRootContains<D>(leaves: seq<Leaf<Hash<D>>>, newPos: u64, newElem: Hash<D>, newMmrSize: nat, mmrSize: nat,
                            proof: seq<Hash<D>>)
    requires RootWithNewLeaf(Free<D>(), leaves, newPos, newElem, newMmrSize, mmrSize, proof).Ok?
    ensures var root := RootWithNewLeaf(Free<D>(), leaves, newPos, newElem, newMmrSize, mmrSize, proof).value;
            && (forall i: nat :: FirstAt(leaves, i) ==> Subterm(leaves[i].item, root))
            && (Merges(newPos) || newPos !in LeafPositions(leaves) ==> Subterm(newElem, root))
  {
    hide Height, PeaksHashes, CalculatedRoot, MaxLeaves, Peaks, Positions, FirstBeyond, ReverseFrom, Free, Subterm, Merges,
         LoneLeaf, Distinct;
    var l := Leaf(newPos, newElem);
    MergesIs(newPos);
    if Merges(newPos) {
      var hashes := PeaksHashes(Free<D>(), leaves, mmrSize, proof).value;
      var i := FirstBeyond(Positions(Peaks(MaxLeaves(newMmrSize))), newPos);
      ReverseFromCount(hashes, i);
      MergingIsNotLone(newPos, newElem, newMmrSize);
      RootContainsItems([l], newMmrSize, ReverseFrom(hashes, i));
      RootContainsLeaves([l], newMmrSize, ReverseFrom(hashes, i));
      assert FirstAt([l], 0);
      HashesContainLeaves(leaves, mmrSize, proof);
      ThroughHashes(leaves, hashes, CalculatedRoot(Free<D>(), [l], newMmrSize, ReverseFrom(hashes, i)).value);
    } else {
      RootContainsLeaves(leaves + [l], newMmrSize, proof);
      FirstWithOneMore(leaves, l);
    }
  }

  lemma MergesIs(newPos: nat)
    ensures Merges(newPos) <==> Height(newPos + 1) > Height(newPos)
  {
  }

  lemma ThroughHashes<D>(leaves: seq<Leaf<Hash<D>>>, hashes: seq<Hash<D>>, root: Hash<D>)
    requires forall l :: l in Distinct(LeafKey, leaves) ==> InSome(hashes, l.item)
    requires forall x :: x in hashes ==> Subterm(x, root)
    ensures forall i: nat :: FirstAt(leaves, i) ==> Subterm(leaves[i].item, root)
  {
    hide Subterm, Distinct, FirstAt;
    forall l | l in Distinct(LeafKey, leaves)
      ensures Subterm(l.item, root)
    {
      var i :| 0 <= i < |hashes| && Subterm(l.item, hashes[i]);
      SubtermTrans(l.item, hashes[i], root);
    }
    AllCounting(leaves, (l: Leaf<Hash<D>>) => Subterm(l.item, root));
  }

  lemma FirstWithOneMore<T>(leaves: seq<Leaf<T>>, l: Leaf<T>)
    ensures forall i: nat :: FirstAt(leaves, i) ==> FirstAt(leaves + [l], i) && (leaves + [l])[i] == leaves[i]
    ensures l.pos !in LeafPositions(leaves) ==> FirstAt(leaves + [l], |leaves|)
  {
    if l.pos !in LeafPositions(leaves) {
      forall k | 0 <= k < |leaves|
        ensures (leaves + [l])[k].pos != l.pos
      {
        assert LeafPositions(leaves)[k] == leaves[k].pos;
      }
    }
  }
}
