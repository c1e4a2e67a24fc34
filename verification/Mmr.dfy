/** The structure of `src/mmr.rs`: appending leaves, the bagged root, and generating proofs. */
module Mmr {
  import opened Bits
  import opened Forest
  import opened Helper
  import opened PeakIterators
  import opened Nodes
  import opened Store
  import opened Bagging
  import opened Reading
  import opened ProofPlan
  import opened QueueWalk
  import opened ProofSpec
  import opened Completeness
  import opened MmrVerifier
  import opened MmrInclusion
  import opened ProverLoop
  import opened Wrappers

  class MMR<D, T(==)> {
    var mmrSize: u64
    const batch: MMRBatch<T>
    const leafHash: D -> T
    const hasher: Hasher<T>
    ghost var leaves: seq<T>  // the leaf hashes pushed so far

    ghost predicate Valid()
      reads this, batch, batch.store
    {
      && mmrSize == Size(|leaves|)
      && mmrSize <= SIZE_LIMIT
      && Ascending(batch.memoryBatch, mmrSize)
      && Holds(batch.Contents(), MmrCombine(hasher), leaves)
    }

    /** `MMR::new`, on a store that already holds the nodes of some leaves, possibly none. */
    constructor (mmrSize: u64, store: MemStore<T>, leafHash: D -> T, hasher: Hasher<T>, ghost stored: seq<T>)
      requires mmrSize == Size(|stored|) <= SIZE_LIMIT
      requires Holds(store.elems, MmrCombine(hasher), stored)
      ensures Valid() && leaves == stored && fresh(batch) && batch.memoryBatch == []
      ensures this.hasher == hasher && this.leafHash == leafHash && batch.store == store
    {
      this.mmrSize := mmrSize;
      batch := new MMRBatch<T>(store);
      this.leafHash := leafHash;
      this.hasher := hasher;
      leaves := stored;
    }

    method FindElem(pos: u64, hashes: seq<T>) returns (elem: Result<T>)
      requires Valid()
      ensures mmrSize <= pos < mmrSize + |hashes| ==> elem == Ok(hashes[pos - mmrSize])
      ensures pos < mmrSize ==> elem == Ok(NodeAt(MmrCombine(hasher), leaves, pos))
    {
      hide Size, NodeAt;
      if mmrSize <= pos && pos - mmrSize < |hashes| {
        return Ok(hashes[pos - mmrSize]);
      }
      var found := batch.GetElem(pos);
      elem := match found case None => Err(InconsistentStore) case Some(x) => Ok(x);
    }

    /** Appends the leaf and the parents it completes. */
    method Push(data: D) returns (pos: Result<u64>)
      requires Valid() && Size(|leaves| + 1) <= SIZE_LIMIT
      modifies this, batch
      ensures Valid() && leaves == old(leaves) + [leafHash(data)]
      ensures pos == Ok(old(mmrSize)) && old(mmrSize) == LeafIndexToPos(|old(leaves)|)
      ensures batch.memoryBatch
              == old(batch.memoryBatch)
                 + [Segment(old(mmrSize), NewNodes(MmrCombine(hasher), old(leaves), leafHash(data)))]
    {
      hide Size, Pos, NodeAt, NewNodes, TrailingZeros, Shr, Pow2, MmrCombine, Node, Holds, And, Ascending, Write, View,
           MaxLeaves, PopCount;
      ghost var f, ls, x, n := MmrCombine(hasher), leaves, leafHash(data), |leaves|;
      ghost var t, all := TrailingZeros(n + 1), NewNodes(f, ls, x);
      PushStart(f, ls, x);
      var elems := [leafHash(data)];
      var elemPos := mmrSize;
      var peakMap := GetPeakMap(mmrSize);
      MaxLeavesOfSize(n);
      var p := mmrSize;
      var peak: u64 := 1;
      ghost var g: nat := 0;
      AndBit(n, 0);
      while And(peakMap, peak) != 0
        invariant g <= t && p == mmrSize + g && peak == Pow2(g)
        invariant elems == all[..g + 1]
        invariant And(peakMap, peak) != 0 <==> g < t
        decreases t - g
        modifies {}
      {
        ghost var left := PushStep(hasher, ls, x, g);
        peak := 2 * peak;
        p := p + 1;
        var leftPos: u64 := p - peak;
        var leftElem := FindElem(leftPos, elems);
        if leftElem.Err? {
          return Err(InconsistentStore);
        }
        var rightElem := elems[|elems| - 1];
        var parentElem := hasher.merge(leftElem.value, rightElem);
        elems := elems + [parentElem];
        g := g + 1;
        AndBit(n, g);
        TrailingOnes(n, g);
      }
      assert elems == all;
      AscendingAppend(batch.memoryBatch, mmrSize, Segment(elemPos, elems));
      HoldsAfterWrite(batch.Contents(), f, ls, x, elemPos);
      batch.Append(elemPos, elems);
      mmrSize := p + 1;
      leaves := leaves + [x];
      pos := Ok(elemPos);
    }

    /** The peaks bagged right to left. */
    method GetRoot() returns (root: Result<T>)
      requires Valid()
      ensures root == if leaves == [] then Err(GetRootOnEmpty) else Ok(Root(hasher, MmrCombine(hasher), leaves))
    {
      hide Size, Holds, MmrCombine, PeakValues, Bag, Positions, Peaks, MaxLeaves, Ascending, View;
      SmallSizes(|leaves|);
      if mmrSize == 0 {
        return Err(GetRootOnEmpty);
      } else if mmrSize == 1 {
        var elem := batch.GetElem(0);
        RootOfOne(hasher, batch.Contents(), leaves);
        return match elem case None => Err(InconsistentStore) case Some(x) => Ok(x);
      }
      var positions := CollectPeaks(mmrSize);
      MaxLeavesOfSize(|leaves|);
      var elems := batch.GetElems(positions);
      PeaksRead(batch.Contents(), MmrCombine(hasher), leaves, positions);
      var peaks := Unwrapped(elems);
      if peaks.Err? {
        return Err(InconsistentStore);
      }
      assert peaks.value == PeakValues(MmrCombine(hasher), leaves);
      var bagged := BagRhsPeaks(hasher, peaks.value);
      root := match bagged case None => Err(InconsistentStore) case Some(x) => Ok(x);
    }

    /** The items one mountain contributes, given the proved leaves in it. */
    method GenProofForPeak(proof: seq<T>, posList: seq<nat>, peakPos: u64, ghost c: Coord, ghost here: seq<nat>)
      returns (extended: Result<seq<T>>)
      requires Valid() && InForest(|leaves|, c) && peakPos == Pos(c.h, c.j)
      requires posList == LeafPlaces(here)
      requires here != [] && c.h > 0 ==> Climb(c, 0, here, [])
      requires here != [] && c.h == 0 ==> here == [c.j]
      ensures PlanIn(|leaves|, MountainPlan(here, c))
      ensures extended == Ok(proof + ItemValues(hasher, leaves, MountainPlan(here, c)))
    {
      hide Size, Pos, Holds, MmrCombine, Ascending, View, InForest, Climb, Height, Pow2, MountainPlan, ItemValues,
           Siblings, Positions, Values, Asking, Work, LeafPlaces, LeafQueue, PlanIn, Scan;
      MountainPlanIn(|leaves|, here, c);
      PeakInSize(hasher, leaves, c, here, posList);
      if |posList| == 1 && posList[0] == peakPos {
        assert proof + [] == proof;
        return Ok(proof);
      }
      if |posList| == 0 {
        var elem := batch.GetElem(peakPos);
        HoldsNode(batch.Contents(), MmrCombine(hasher), leaves, c.h, c.j);
        return match elem case None => Err(InconsistentStore) case Some(x) => Ok(proof + [x]);
      }
      ghost var f := MmrCombine(hasher);
      ghost var wanted := Siblings(0, here, [], c.h);
      ghost var k: nat := 0;
      AskStarts(c, here, posList);
      ClimbSiblingsIn(|leaves|, c, 0, here, []);
      ghost var vals := Values(f, leaves, wanted);
      WantedSizes(f, leaves, wanted);
      var queue := LeafQueue(posList);
      var result := proof;
      while |queue| > 0
        invariant k <= |wanted| && Asking(queue, peakPos, Positions(wanted)[k..])
        invariant result == proof + vals[..k]
        decreases Work(queue, peakPos)
        modifies {}
      {
        AskEnds(queue, peakPos, Positions(wanted)[k..]);
        var e := queue[0];
        var pos: u64 := e.pos;
        if pos == peakPos {
          if |queue| == 1 {
            break;
          }
          return Err(NodeProofsNotSupported);
        }
        StepRoom(e, peakPos);
        var nextHeight := PosHeightInTree(pos + 1);
        var siblingOffset := SiblingOffset(e.height);
        var isRight := nextHeight > e.height;
        var sibPos: u64 := if isRight then pos - siblingOffset else pos + siblingOffset;
        var parentPos: u64 := if isRight then pos + 1 else pos + ParentOffset(e.height);
        AskOn(queue, peakPos, Positions(wanted)[k..], parentPos);
        if |queue| > 1 && queue[1].pos == sibPos {
          queue := queue[2..];
        } else {
          SiblingRead(batch.Contents(), f, leaves, wanted, k);
          var elem := batch.GetElem(sibPos);
          if elem.None? {
            return Err(InconsistentStore);
          }
          result := result + [elem.value];
          queue := queue[1..];
          k := k + 1;
        }
        if parentPos < peakPos {
          queue := queue + [Entry(parentPos, (), e.height + 1)];
        }
      }
      AskDone(queue, peakPos, wanted, k);
      assert vals[..k] == vals;
      extended := Ok(result);
    }

    /** A proof for any list of leaf positions, in any order and with repeats. */
    method GenProof(positions: seq<u64>) returns (result: Result<InclusionProof<T>>)
      requires Valid()
      ensures positions == [] ==> result == Err(GenProofForInvalidLeaves)
      ensures (exists p :: p in positions && Height(p) > 0) ==> result == Err(NodeProofsNotSupported)
      ensures (forall p :: p in positions ==> Height(p) == 0) && (exists p :: p in positions && p >= mmrSize) ==>
                result == Err(GenProofForInvalidLeaves)
      ensures positions != [] && (forall p :: p in positions ==> LeafPosition(|leaves|, p)) ==>
                result == Ok(InclusionProof(mmrSize, ProofItems(hasher, leaves, positions)))
    {
      hide Size, Pos, Holds, MmrCombine, Ascending, View, InForest, Climb, Height, MountainPlan, ItemValues, Plan,
           Peaks, PeaksBelow, Positions, LeafPlaces, PlanIn, Distinct, LeafIndices, LeavesFrom, MaxLeaves, Proving,
           ProofItems, Shl, Shr, Block, CountBelow, Bag;
      if |positions| == 0 {
        return Err(GenProofForInvalidLeaves);
      }
      if mmrSize == 1 && positions == [0] {
        ProofOfOne(hasher, leaves);
        return Ok(InclusionProof(mmrSize, []));
      }
      for i := 0 to |positions|
        invariant forall k :: 0 <= k < i ==> Height(positions[k]) == 0
      {
        var height := PosHeightInTree(positions[i]);
        if height > 0 {
          assert positions[i] in positions;
          return Err(NodeProofsNotSupported);
        }
      }
      var posList := Distinct<nat>(PosKey, positions);
      ghost var outs, rem := ProofStarts(hasher, leaves, positions, posList);
      ghost var n := |leaves|;
      ghost var all := ItemValues(hasher, leaves, Plan(n, rem, BitLength(n)));
      var peaks := CollectPeaks(mmrSize);
      MaxLeavesOfSize(n);
      PeakPositionsBelow(n, peaks);
      var proof: seq<T> := [];
      var baggingTrack := 0;
      ghost var head: seq<T>, bare: seq<Coord>, k := [], [], BitLength(n);
      ProveStarts(hasher, leaves, rem, k);
      PeaksAre(n, peaks);
      for i := 0 to |peaks|
        invariant baggingTrack >= 0
        invariant Proving(hasher, leaves, all, proof, baggingTrack, head, bare, rem, k)
        invariant peaks[i..] == Positions(PeaksBelow(n, k))
        invariant posList == LeafPlaces(rem) + outs
        modifies {}
      {
        var peakPos := peaks[i];
        ghost var c, t := NextMountain(hasher, leaves, all, proof, baggingTrack, head, bare, rem, k, peaks, i);
        var here, later := TakeWhileVec(posList, (p: nat) => p <= peakPos);
        TakenHere(n, rem, outs, c, here, later);
        if |here| == 0 {
          baggingTrack := baggingTrack + 1;
        } else {
          baggingTrack := 0;
        }
        var extended := GenProofForPeak(proof, here, peakPos, c, rem[..t]);
        if extended.Err? {
          return Err(InconsistentStore);
        }
        proof := extended.value;
        posList := later;
        k := c.h;
        if rem == [] {
          bare := bare + [c];
        } else {
          head, bare, rem := proof, [], rem[t..];
        }
      }
      ProofEnds(hasher, leaves, all, proof, baggingTrack, head, bare, rem, k, posList, outs);
      if |posList| > 0 {
        return Err(GenProofForInvalidLeaves);
      }
      if baggingTrack > 1 {
        var rhsPeaks := proof[|proof| - baggingTrack..];
        proof := proof[..|proof| - baggingTrack];
        var bagged := BagRhsPeaks(hasher, rhsPeaks);
        proof := proof + [bagged.value];
      }
      result := Ok(InclusionProof(mmrSize, proof));
    }

    /** Writes the batch through; nothing that is read changes. */
    method Commit()
      requires Valid()
      modifies batch, batch.store
      ensures Valid()
      ensures batch.memoryBatch == [] && batch.store.elems == batch.Contents() == old(batch.Contents())
    {
      batch.Commit();
    }
  }

  /** The new nodes begin with the leaf; the carry chain is as long as the run of ones in n. */
  lemma PushStart<T>(f: Combine<T>, ls: seq<T>, x: T)
    ensures NewNodes(f, ls, x)[..1] == [x]
    ensures Size(|ls| + 1) == Size(|ls|) + |NewNodes(f, ls, x)|
    ensures Pow2(0) == 1
    ensures Shr(|ls|, 0) % 2 == 1 <==> 0 < TrailingZeros(|ls| + 1)
  {
    SizeSucc(|ls|);
    TrailingOnes(|ls|, 0);
    assert NewNodes(f, ls, x)[0] == (ls + [x])[|ls|];
  }

  /** One link of the carry chain: where the left child is, and what its parent is worth. */
  lemma PushStep<T>(m: Hasher<T>, ls: seq<T>, x: T, g: nat) returns (left: nat)
    requires g < TrailingZeros(|ls| + 1) && Size(|ls| + 1) <= SIZE_LIMIT
    ensures 2 * Pow2(g) == Pow2(g + 1) && left + Pow2(g + 1) == Size(|ls|) + g + 1 < SIZE_LIMIT && left < Size(|ls|)
    ensures var all := NewNodes(MmrCombine(m), ls, x);
            && all[g + 1] == m.merge(NodeAt(MmrCombine(m), ls, left), all[g])
            && all[..g + 2] == all[..g + 1] + [all[g + 1]]
  {
    hide Pos, NodeAt, Size, TrailingZeros, NewNodes, Pow2, Shl, MmrCombine;
    left := NewNodeLink(MmrCombine(m), ls, x, g);
    SizeSucc(|ls|);
    Pow2Succ(g);
    OneMore(NewNodes(MmrCombine(m), ls, x), g + 1);
    MmrMerges(m, Size(|ls|) + g + 1, NodeAt(MmrCombine(m), ls, left), NewNodes(MmrCombine(m), ls, x)[g]);
  }

  lemma MmrMerges<T>(m: Hasher<T>, p: nat, l: T, r: T)
    ensures MmrCombine(m)(p, l, r) == m.merge(l, r)
  {
  }

  lemma RootOfOne<T>(m: Hasher<T>, view: map<nat, T>, ls: seq<T>)
    requires |ls| == 1 && Holds(view, MmrCombine(m), ls)
    ensures 0 in view && view[0] == Root(m, MmrCombine(m), ls)
  {
    hide MmrCombine, Holds;
    LevelZero(1, 0);
    HoldsNode(view, MmrCombine(m), ls, 0, 0);
    assert Pos(0, 0) == 0;
    SizeOne();
  }

  lemma WantedSizes<T>(f: Combine<T>, ls: seq<T>, wanted: seq<Coord>)
    requires AllIn(|ls|, wanted)
    ensures |Positions(wanted)| == |wanted| == |Values(f, ls, wanted)|
    ensures Positions(wanted)[0..] == Positions(wanted)
    ensures Values(f, ls, wanted)[..|wanted|] == Values(f, ls, wanted)
  {
    hide Pos, Node, InForest;
  }

  lemma SiblingRead<T>(view: map<nat, T>, f: Combine<T>, ls: seq<T>, wanted: seq<Coord>, k: nat)
    requires Holds(view, f, ls) && AllIn(|ls|, wanted) && k < |Positions(wanted)|
    ensures |Positions(wanted)| == |wanted| == |Values(f, ls, wanted)|
    ensures Positions(wanted)[k] in view && view[Positions(wanted)[k]] == Values(f, ls, wanted)[k]
    ensures Values(f, ls, wanted)[..k + 1] == Values(f, ls, wanted)[..k] + [Values(f, ls, wanted)[k]]
  {
    hide Holds, Pos, Node, InForest;
    HoldsNode(view, f, ls, wanted[k].h, wanted[k].j);
  }

  lemma AskDone(q: seq<Entry<()>>, peakPos: nat, wanted: seq<Coord>, k: nat)
    requires k <= |wanted| && |Positions(wanted)| == |wanted| && Asking(q, peakPos, Positions(wanted)[k..])
    requires q == [] || q[0].pos == peakPos
    ensures k == |wanted|
  {
    hide Pos;
    AskEnds(q, peakPos, Positions(wanted)[k..]);
  }

  /** A lone leaf that is a peak needs no items; so every other mountain with leaves is climbed. */
  lemma PeakInSize<T>(m: Hasher<T>, ls: seq<T>, c: Coord, here: seq<nat>, posList: seq<nat>)
    requires InForest(|ls|, c) && posList == LeafPlaces(here)
    requires here != [] && c.h > 0 ==> Climb(c, 0, here, [])
    requires here != [] && c.h == 0 ==> here == [c.j]
    ensures Pos(c.h, c.j) < Size(|ls|)
    ensures PlanIn(|ls|, MountainPlan(here, c)) && |posList| == |here|
    ensures |posList| == 1 && posList[0] == Pos(c.h, c.j) ==> ItemValues(m, ls, MountainPlan(here, c)) == []
    ensures here == [] ==> ItemValues(m, ls, MountainPlan(here, c)) == [Node(MmrCombine(m), ls, c.h, c.j)]
    ensures here != [] && !(|posList| == 1 && posList[0] == Pos(c.h, c.j)) ==>
              c.h > 0
              && AllIn(|ls|, Siblings(0, here, [], c.h))
              && ItemValues(m, ls, MountainPlan(here, c)) == Values(MmrCombine(m), ls, Siblings(0, here, [], c.h))
    ensures forall i :: 0 <= i < |here| ==> posList[i] == Size(here[i])
  {
    hide Size, Pos, MmrCombine, Node, Climb, InForest, Values;
    InForestPos(|ls|, c.h, c.j);
    MountainPlanIn(|ls|, here, c);
    LonePeak(m, ls, c);
    NoItems(m, ls);
    if here != [] {
      LeafBeforePeak(here[0], c);
      if c.h > 0 {
        ClimbSiblingsIn(|ls|, c, 0, here, []);
        SinglesValues(m, ls, Siblings(0, here, [], c.h));
      } else {
        NoSiblings(here);
      }
    }
  }

  // ----- the loop over the peaks -----

  lemma PlanOfOne()
    ensures Plan(1, [0], 1) == []
  {
    hide MountainPlan;
    assert CountBelow([0], 1) == 1;
    assert MountainPlan([0], Coord(0, 0)) == [] by { NoSiblings([0]); MountainLone(); }
    assert PeaksBelow(1, 0) == [] && Shl(1, 0) == 1 && Shr(1, 0) == 1;
    assert [0][1..] == [] && [0][..1] == [0];
    PlanUnfold(1, [0], 1);
  }

  lemma MountainLone()
    ensures MountainPlan([0], Coord(0, 0)) == Singles(Siblings(0, [0], [], 0))
  {
  }

  lemma IndicesOfOne()
    ensures LeafPosition(1, 0) && LeafIndices([0]) == [0] && BitLength(1) == 1
  {
    hide Size, Block, Height;
    LeafPos(0);
    SmallSizes(1);
    SmallSizes(0);
    assert Distinct<nat>(PosKey, [0]) == [0];
  }

  lemma ProofOfOne<T>(m: Hasher<T>, ls: seq<T>)
    requires |ls| == 1
    ensures forall p :: p in [0] ==> LeafPosition(1, p)
    ensures ProofItems(m, ls, [0]) == []
  {
    hide ItemValues, Plan, Size, Block, PlanIn, LeafIndices, LeafPosition, BitLength;
    IndicesOfOne();
    PlanOfOne();
    NoItems(m, ls);
  }

  lemma ProofStarts<T>(m: Hasher<T>, ls: seq<T>, positions: seq<nat>, sorted: seq<nat>)
    returns (outs: seq<nat>, rem: seq<nat>)
    requires sorted == Distinct<nat>(PosKey, positions) && forall p :: p in positions ==> Height(p) == 0
    ensures sorted == LeafPlaces(rem) + outs
    ensures LeavesFrom(|ls|, rem, BitLength(|ls|)) && forall i :: 0 <= i < |outs| ==> outs[i] >= Size(|ls|)
    ensures outs == [] <==> forall p :: p in positions ==> LeafPosition(|ls|, p)
    ensures PlanIn(|ls|, Plan(|ls|, rem, BitLength(|ls|)))
    ensures outs == [] ==>
              ProofItems(m, ls, positions) == ItemValues(m, ls, Plan(|ls|, rem, BitLength(|ls|)))
  {
    hide Size, Block, Height, Shl, Shr, Plan, ItemValues, Distinct;
    var n := |ls|;
    var t := CountBelow(sorted, Size(n));
    SplitPositions(n, positions, sorted, t);
    PlacesOf(n, sorted[..t]);
    var ps := sorted[..t];
    outs, rem := sorted[t..], seq(|ps|, i requires 0 <= i < |ps| => Block(ps[i]));
    assert sorted == sorted[..t] + sorted[t..];
    if t == |sorted| {
      assert ps == sorted && rem == LeafIndices(positions);
    }
    PlanInForest(n, rem, BitLength(n));
  }

  lemma PeaksAre(n: nat, peaks: seq<nat>)
    requires peaks == Positions(Peaks(n))
    ensures peaks[0..] == Positions(PeaksBelow(n, BitLength(n)))
  {
    hide PeaksBelow, Positions;
  }

  lemma NextMountain<T>(m: Hasher<T>, ls: seq<T>, all: seq<T>, proof: seq<T>, track: nat,
                        head: seq<T>, bare: seq<Coord>, rem: seq<nat>, k: nat, peaks: seq<nat>, i: nat)
    returns (c: Coord, t: nat)
    requires Proving(m, ls, all, proof, track, head, bare, rem, k)
    requires i < |peaks| && peaks[i..] == Positions(PeaksBelow(|ls|, k))
    ensures peaks[i] == Pos(c.h, c.j) && peaks[i + 1..] == Positions(PeaksBelow(|ls|, c.h))
    ensures InForest(|ls|, c) && StrictlyAscending(rem) && t == CountBelow(rem, Shl(c.j + 1, c.h))
    ensures t > 0 && c.h > 0 ==> Climb(c, 0, rem[..t], [])
    ensures t > 0 && c.h == 0 ==> rem[..t] == [c.j]
    ensures PlanIn(|ls|, MountainPlan(rem[..t], c))
    ensures var proof' := proof + ItemValues(m, ls, MountainPlan(rem[..t], c));
            if rem == [] then Proving(m, ls, all, proof', track + 1, head, bare + [c], [], c.h)
            else Proving(m, ls, all, proof', if t == 0 then track + 1 else 0, proof', [], rem[t..], c.h)
  {
    hide Shl, Shr, InForest, PeaksBelow, Climb, CountBelow, Proving, ItemValues, MountainPlan, PlanIn, Pos, StrictlyAscending;
    SomePeaks(|ls|, k, peaks[i..]);
    c := ProveToPeak(m, ls, all, proof, track, head, bare, rem, k);
    t := CountBelow(rem, Shl(c.j + 1, c.h));
    ProvingLeaves(m, ls, all, proof, track, head, bare, rem, c.h + 1);
    ProveOn(m, ls, all, proof, track, head, bare, rem, c, t);
    PositionsCons(c, PeaksBelow(|ls|, c.h));
    assert peaks[i..] == [peaks[i]] + peaks[i + 1..];
    assert peaks[i..][1..] == peaks[i + 1..];
  }

  lemma SomePeaks(n: nat, k: nat, peaks: seq<nat>)
    requires peaks == Positions(PeaksBelow(n, k)) && peaks != []
    ensures PeaksBelow(n, k) != []
  {
    hide Pos, PeaksBelow;
  }

  lemma ProofEnds<T>(m: Hasher<T>, ls: seq<T>, all: seq<T>, proof: seq<T>, track: nat,
                     head: seq<T>, bare: seq<Coord>, rem: seq<nat>, k: nat, posList: seq<nat>, outs: seq<nat>)
    requires Proving(m, ls, all, proof, track, head, bare, rem, k) && Positions(PeaksBelow(|ls|, k)) == []
    requires posList == LeafPlaces(rem) + outs
    ensures posList == outs && track <= |proof|
    ensures track <= 1 ==> all == proof
    ensures track > 1 ==> all == proof[..|proof| - track] + [Bag(m, proof[|proof| - track..])]
  {
    hide Proving, PeaksBelow, Bag, Size, Pos;
    assert |Positions(PeaksBelow(|ls|, k))| == |PeaksBelow(|ls|, k)|;
    ProveEnds(m, ls, all, proof, track, head, bare, rem, k);
  }
}
