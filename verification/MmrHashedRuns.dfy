/**
 When a false leaf passes against the root of a real run, whose leaf hashes are never merges: the size
 and the claimed positions decide.
 */
module MmrHashedRuns {
  import opened Bits
  import opened Forest
  import opened Nodes
  import opened FreeHash
  import opened Bagging
  import opened ProofPlan
  import opened QueueWalk
  import opened ProofSpec
  import opened Completeness
  import opened MmrNextRoot
  import opened MmrSoundness
  import opened MmrBinding
  import opened MmrForging
  import opened TermPaths
  import opened Wrappers

  // ----- the claims in the last mountain that has any -----

  /** Where these claims begin. */
  function LastFrom(n: nat, indices: seq<nat>, k: nat): nat
    decreases k
  {
    if indices == [] || k == 0 then 0
    else if Shr(n, k - 1) % 2 == 0 then LastFrom(n, indices, k - 1)
    else
      var t := CountBelow(indices, Shl(Shr(n, k - 1) - 1 + 1, k - 1));
      if t == |indices| then 0 else t + LastFrom(n, indices[t..], k - 1)
  }

  lemma LastFromUnfold(n: nat, indices: seq<nat>, k: nat)
    requires indices != [] && k > 0
    ensures Shr(n, k - 1) % 2 == 0 ==> LastFrom(n, indices, k) == LastFrom(n, indices, k - 1)
    ensures Shr(n, k - 1) % 2 == 1 ==>
              var t := CountBelow(indices, Shl(Shr(n, k - 1) - 1 + 1, k - 1));
              LastFrom(n, indices, k) == if t == |indices| then 0 else t + LastFrom(n, indices[t..], k - 1)
  {
    hide Shl, Shr, CountBelow;
  }

  /** The last mountain with a claim, among the peaks below height k. */
  ghost function LastPeak(n: nat, indices: seq<nat>, k: nat): Coord
    requires Trailing(n, indices, k) < |PeaksBelow(n, k)|
  {
    PeaksBelow(n, k)[|PeaksBelow(n, k)| - Trailing(n, indices, k) - 1]
  }

  /** Going down to the next peak without a claim behind it, or past one with claims behind it. */
  lemma LastPeakStep(n: nat, indices: seq<nat>, k: nat)
    requires LeavesFrom(n, indices, k) && indices != [] && k > 0
    ensures Trailing(n, indices, k) < |PeaksBelow(n, k)|
    ensures Shr(n, k - 1) % 2 == 0 ==>
              && Trailing(n, indices, k) == Trailing(n, indices, k - 1) < |PeaksBelow(n, k - 1)|
              && LastPeak(n, indices, k) == LastPeak(n, indices, k - 1)
    ensures Shr(n, k - 1) % 2 == 1 ==>
              var c := Coord(k - 1, Shr(n, k - 1) - 1);
              var t := CountBelow(indices, Shl(c.j + 1, c.h));
              && Trailing(n, indices, k) == Trailing(n, indices[t..], k - 1)
              && (t == |indices| ==> indices[..t] == indices && indices[t..] == [] && LastPeak(n, indices, k) == c
                                     && Trailing(n, indices, k) == |PeaksBelow(n, k - 1)|)
              && (t < |indices| ==>
                    Trailing(n, indices[t..], k - 1) < |PeaksBelow(n, k - 1)|
                    && LastPeak(n, indices, k) == LastPeak(n, indices[t..], k - 1))
  {
    hide Shl, Shr, LeavesFrom, CountBelow, Trailing, PeaksBelow, Climb, Row, InForest;
    TrailingUnfold(n, indices, k);
    LeavesFew(n, indices, k);
    PeaksBelowStep(n, k);
    if Shr(n, k - 1) % 2 == 0 {
      LeavesSkip(n, indices, k);
      LeavesFew(n, indices, k - 1);
    } else {
      LeavesSplit(n, indices, k);
      var t := CountBelow(indices, Shl(Shr(n, k - 1) - 1 + 1, k - 1));
      LeavesFew(n, indices[t..], k - 1);
      TrailingUnfold(n, indices[t..], k - 1);
      assert t == |indices| ==> indices[..t] == indices;
    }
  }

  lemma {:induction false} LastSplit(n: nat, indices: seq<nat>, k: nat)
    requires LeavesFrom(n, indices, k) && indices != []
    ensures LastFrom(n, indices, k) < |indices| && Trailing(n, indices, k) < |PeaksBelow(n, k)|
    ensures var c := LastPeak(n, indices, k);
            forall i :: 0 <= i < |indices| ==> (Under(0, indices[i], c.h, c.j) <==> LastFrom(n, indices, k) <= i)
    decreases k
  {
    hide Shl, Shr, LeavesFrom, CountBelow, Trailing, PeaksBelow, Climb, Under, InForest, LastPeak, LastFrom;
    if k == 0 {
      LeavesDone(n, indices);
    } else {
      LastPeakStep(n, indices, k);
      LastFromUnfold(n, indices, k);
      if Shr(n, k - 1) % 2 == 0 {
        LeavesSkip(n, indices, k);
        LastSplit(n, indices, k - 1);
      } else {
        LeavesSplit(n, indices, k);
        var c := Coord(k - 1, Shr(n, k - 1) - 1);
        var t := CountBelow(indices, Shl(c.j + 1, c.h));
        if t < |indices| {
          LastSplit(n, indices[t..], k - 1);
          LastPeakBehind(n, indices[t..], c);
          forall i | 0 <= i < |indices|
            ensures Under(0, indices[i], LastPeak(n, indices, k).h, LastPeak(n, indices, k).j)
                    <==> LastFrom(n, indices, k) <= i
          {
            UnderRange(indices[i], LastPeak(n, indices, k));
            if i >= t { assert indices[i] == indices[t..][i - t]; }
          }
        } else {
          RowUnder(c, indices);
        }
      }
    }
  }

  lemma RowUnder(c: Coord, js: seq<nat>)
    requires Row(c, 0, js)
    ensures forall i :: 0 <= i < |js| ==> Under(0, js[i], c.h, c.j)
  {
    hide Under;
  }

  lemma LastPeakBehind(n: nat, indices: seq<nat>, c: Coord)
    requires Shr(n, c.h) == c.j + 1 && Trailing(n, indices, c.h) < |PeaksBelow(n, c.h)|
    ensures Shl(c.j + 1, c.h) <= Shl(LastPeak(n, indices, c.h).j, LastPeak(n, indices, c.h).h)
  {
    hide Shl, Shr, Trailing, PeaksBelow;
    var d := LastPeak(n, indices, c.h);
    assert d in PeaksBelow(n, c.h);
    PeaksBelowMember(n, c.h, d);
    LowerStartsLater(n, c.h, d.h);
  }

  // ----- their hash -----

  /** What is claimed from s on lies in the term, h levels down. */
  ghost predicate ClaimsLieIn<D>(leaves: seq<Leaf<Hash<D>>>, indices: seq<nat>, s: nat, top: Hash<D>, h: nat) {
    |leaves| == |indices|
    && forall i :: s <= i < |indices| ==> Reaches(top, h, indices[i]) && At(top, h, indices[i]) == leaves[i].item
  }

  lemma ClaimsQueue<D>(leaves: seq<Leaf<Hash<D>>>, indices: seq<nat>, top: Hash<D>, h: nat)
    requires h > 0 && |leaves| == |indices|
    ensures ClaimsLieIn(leaves, indices, 0, top, h) <==> AllHold(Queue(leaves), top, h, indices, [])
  {
    hide Reaches, At;
    forall i | 0 <= i < |indices|
      ensures LiesAt(Queue(leaves)[i], top, h, indices[i])
              <==> Reaches(top, h, indices[i]) && At(top, h, indices[i]) == leaves[i].item
    {
    }
  }

  /** One mountain: its value contains the claims at their places, whatever the items. */
  lemma MountainClaims<D>(c: Coord, here: seq<nat>, leaves: seq<Leaf<Hash<D>>>, proof: seq<Hash<D>>)
    requires Placed(here, leaves) && here != []
    requires c.h > 0 ==> Climb(c, 0, here, [])
    requires c.h == 0 ==> here == [c.j]
    requires forall i :: 0 <= i < |leaves| ==> leaves[i].pos <= Pos(c.h, c.j)
    requires MountainHash(Free<D>(), leaves, Pos(c.h, c.j), proof).Ok?
    ensures ClaimsLieIn(leaves, here, 0, MountainHash(Free<D>(), leaves, Pos(c.h, c.j), proof).value.0, c.h)
  {
    hide Size, Pos, Climb, PeakWalk, Queue, Free, AllHold;
    LeafBeforePeak(here[0], c);
    if c.h > 0 {
      PlacedQueue(here, leaves);
      ClimbBelow(Queue(leaves), c, 0, here, []);
      WalkHolds(Queue(leaves), c, 0, here, [], proof);
      ClaimsQueue(leaves, here, MountainHash(Free<D>(), leaves, Pos(c.h, c.j), proof).value.0, c.h);
    }
  }

  /** In a run with enough items, so does the hash of the last mountain with claims. */
  ghost predicate LastHolds<D>(r: Result<(seq<Hash<D>>, seq<Leaf<Hash<D>>>, seq<Hash<D>>)>, leaves: seq<Leaf<Hash<D>>>,
                               indices: seq<nat>, s: nat, led: nat, h: nat) {
    r.Ok? && 0 < led <= |r.value.0| && ClaimsLieIn(leaves, indices, s, r.value.0[led - 1], h)
  }

  lemma {:induction false} LastHash<D>(n: nat, indices: seq<nat>, leaves: seq<Leaf<Hash<D>>>, k: nat, proof: seq<Hash<D>>)
    requires LeavesFrom(n, indices, k) && Placed(indices, leaves) && indices != []
    requires |proof| >= |HeadPlan(n, indices, k)|
    ensures Trailing(n, indices, k) < |PeaksBelow(n, k)|
    ensures LastHolds(PeakHashes(Free<D>(), leaves, Positions(PeaksBelow(n, k)), proof), leaves, indices,
                      LastFrom(n, indices, k), |PeaksBelow(n, k)| - Trailing(n, indices, k), LastPeak(n, indices, k).h)
    decreases k
  {
    hide Size, Pos, Shl, Shr, Positions, LeavesFrom, Climb, Row, CountBelow, PeakHashes, Placed, HeadPlan, PeaksBelow,
         Trailing, MountainPlan, InForest, LastFrom, LastPeak, LastHolds, Free, SplitRun;
    if k == 0 {
      LeavesDone(n, indices);
    } else {
      LastPeakStep(n, indices, k);
      LastFromUnfold(n, indices, k);
      HeadUnfold(n, indices, k);
      PeaksBelowStep(n, k);
      if Shr(n, k - 1) % 2 == 0 {
        LeavesSkip(n, indices, k);
        LastHash(n, indices, leaves, k - 1, proof);
      } else {
        var c := Coord(k - 1, Shr(n, k - 1) - 1);
        var t := CountBelow(indices, Shl(c.j + 1, c.h));
        var need := |MountainPlan(indices[..t], c)|;
        LeavesSplit(n, indices, k);
        PlacedSplit(indices, leaves, t);
        var r, hash := MountainRun(n, indices, leaves, c, t, proof);
        if t < |indices| {
          LastHash(n, indices[t..], leaves[t..], k - 1, proof[need..]);
          LastShift(r, hash, leaves, indices, t, LastFrom(n, indices[t..], k - 1),
                    |PeaksBelow(n, k - 1)| - Trailing(n, indices[t..], k - 1), LastPeak(n, indices, k).h);
        } else {
          LastHere(n, indices, leaves, c, t, proof, r, hash);
        }
      }
    }
  }

  /** One turn of the loop, with enough items for it and for the claims behind it. */
  lemma MountainRun<D>(n: nat, indices: seq<nat>, leaves: seq<Leaf<Hash<D>>>, c: Coord, t: nat, proof: seq<Hash<D>>)
    returns (r: Result<(seq<Hash<D>>, seq<Leaf<Hash<D>>>, seq<Hash<D>>)>, hash: Hash<D>)
    requires Placed(indices, leaves) && indices != [] && t == CountBelow(indices, Shl(c.j + 1, c.h)) <= |leaves|
    requires LeavesFrom(n, indices[t..], c.h) && Shr(n, c.h) == c.j + 1 && c.j % 2 == 0
    requires t > 0 && c.h > 0 ==> Climb(c, 0, indices[..t], [])
    requires t > 0 && c.h == 0 ==> indices[..t] == [c.j]
    requires |proof| >= |MountainPlan(indices[..t], c)| + |HeadPlan(n, indices[t..], c.h)|
    ensures var need := |MountainPlan(indices[..t], c)|;
            && r == PeakHashes(Free<D>(), leaves[t..], Positions(PeaksBelow(n, c.h)), proof[need..]) && r.Ok?
            && PeakHashes(Free<D>(), leaves, Positions(PeaksBelow(n, c.h + 1)), proof)
               == Ok(([hash] + r.value.0, r.value.1, r.value.2))
    ensures (forall i :: 0 <= i < |leaves[..t]| ==> leaves[..t][i].pos <= Pos(c.h, c.j))
            && MountainHash(Free<D>(), leaves[..t], Pos(c.h, c.j), proof).Ok?
            && MountainHash(Free<D>(), leaves[..t], Pos(c.h, c.j), proof).value.0 == hash
  {
    hide Size, Pos, Shl, Shr, Positions, Climb, CountBelow, Placed, HeadPlan, PeaksBelow, MountainPlan, MountainHash, UpTo,
         Free, LeavesFrom, Trailing;
    PlacedSplit(indices, leaves, t);
    PlacedUpTo(indices, leaves, c);
    MountainCount(Free<D>(), c, indices[..t], leaves[..t], proof);
    OddPeak(n, c);
    PositionsCons(c, PeaksBelow(n, c.h));
    EmptyHere(c, indices, t);
    var need := |MountainPlan(indices[..t], c)|;
    var peaks := Positions(PeaksBelow(n, c.h + 1));
    assert peaks[0] == Pos(c.h, c.j) && peaks[1..] == Positions(PeaksBelow(n, c.h));
    hash := MountainHash(Free<D>(), leaves[..t], Pos(c.h, c.j), proof).value.0;
    r := PeakHashes(Free<D>(), leaves[t..], peaks[1..], proof[need..]);
    RunSplits(Free<D>(), n, indices[t..], leaves[t..], c.h, proof[need..]);
  }

  lemma LastShift<D>(r: Result<(seq<Hash<D>>, seq<Leaf<Hash<D>>>, seq<Hash<D>>)>, hash: Hash<D>,
                     leaves: seq<Leaf<Hash<D>>>, indices: seq<nat>, t: nat, s: nat, led: nat, h: nat)
    requires t <= |indices| == |leaves| && LastHolds(r, leaves[t..], indices[t..], s, led, h)
    ensures LastHolds(Ok(([hash] + r.value.0, r.value.1, r.value.2)), leaves, indices, t + s, led + 1, h)
  {
    hide Reaches, At;
    var top := r.value.0[led - 1];
    assert ([hash] + r.value.0)[led] == top;
    forall i | t + s <= i < |indices|
      ensures Reaches(top, h, indices[i]) && At(top, h, indices[i]) == leaves[i].item
    {
      assert indices[t..][i - t] == indices[i] && leaves[t..][i - t] == leaves[i];
    }
  }

  lemma LastHere<D>(n: nat, indices: seq<nat>, leaves: seq<Leaf<Hash<D>>>, c: Coord, t: nat, proof: seq<Hash<D>>,
                    r: Result<(seq<Hash<D>>, seq<Leaf<Hash<D>>>, seq<Hash<D>>)>, hash: Hash<D>)
    requires Placed(indices, leaves) && indices != [] && t == |indices| == |leaves| && r.Ok?
    requires c.h > 0 ==> Climb(c, 0, indices, [])
    requires c.h == 0 ==> indices == [c.j]
    requires (forall i :: 0 <= i < |leaves[..t]| ==> leaves[..t][i].pos <= Pos(c.h, c.j))
             && MountainHash(Free<D>(), leaves[..t], Pos(c.h, c.j), proof).Ok?
             && MountainHash(Free<D>(), leaves[..t], Pos(c.h, c.j), proof).value.0 == hash
    ensures LastHolds(Ok(([hash] + r.value.0, r.value.1, r.value.2)), leaves, indices, 0, 1, c.h)
  {
    hide Size, Pos, Climb, Placed, MountainHash, Free, ClaimsLieIn;
    assert leaves[..t] == leaves;
    MountainClaims(c, indices, leaves, proof);
  }

  // ----- how deep the terms of a hashed run are -----

  /** A node is as deep as it is high, every way down. */
  lemma {:induction false} NodeReach<D>(ls: seq<Hash<D>>, h: nat, j: nat, r: nat, i: nat)
    requires Hashed(ls) && InForest(|ls|, Coord(h, j))
    ensures Reaches(Node(MmrCombine(Free<D>()), ls, h, j), r, i) <==> r <= h
    decreases h
  {
    hide Pos, Shr, Free, MmrCombine, Node;
    LevelZero(|ls|, j);
    if h == 0 {
      NodeOfLeaf(MmrCombine(Free<D>()), ls, j);
    } else {
      MmrNode(Free<D>(), ls, h, j);
      FreeMerges(0, Node(MmrCombine(Free<D>()), ls, h - 1, 2 * j), Node(MmrCombine(Free<D>()), ls, h - 1, 2 * j + 1));
      if r > 0 {
        NodeReach(ls, h - 1, 2 * j, r - 1, i);
        NodeReach(ls, h - 1, 2 * j + 1, r - 1, i);
      }
    }
  }

  /** Bagged peaks of these heights, left to right, can be gone down r levels towards i. */
  predicate Walks(heights: seq<nat>, r: nat, i: nat)
    requires heights != []
    decreases |heights|
  {
    if |heights| == 1 then r <= heights[0]
    else if r == 0 then true
    else if Shr(i, r - 1) % 2 == 1 then r - 1 <= heights[0]
    else Walks(heights[1..], r - 1, i)
  }

  function Heights(cs: seq<Coord>): seq<nat> {
    seq(|cs|, i requires 0 <= i < |cs| => cs[i].h)
  }

  lemma {:induction false} BagReach<D>(ls: seq<Hash<D>>, cs: seq<Coord>, r: nat, i: nat)
    requires Hashed(ls) && AllIn(|ls|, cs) && cs != []
    ensures Reaches(Bag(Free<D>(), Values(MmrCombine(Free<D>()), ls, cs)), r, i) <==> Walks(Heights(cs), r, i)
    decreases |cs|
  {
    hide Shr, Free, MmrCombine, Node, InForest;
    var f, hashes := MmrCombine(Free<D>()), Values(MmrCombine(Free<D>()), ls, cs);
    assert InForest(|ls|, cs[0]);
    if |cs| == 1 {
      NodeReach(ls, cs[0].h, cs[0].j, r, i);
    } else {
      BagOfTwo(hashes);
      assert hashes[1..] == Values(f, ls, cs[1..]) && Heights(cs)[1..] == Heights(cs[1..]);
      if r > 0 {
        NodeReach(ls, cs[0].h, cs[0].j, r - 1, i);
        BagReach(ls, cs[1..], r - 1, i);
      }
    }
  }

  // ----- the condition -----

  /** Within the mountain's right half, or where the trailing peaks go deep enough. */
  ghost predicate Reachable(h: nat, heights: seq<nat>, i: nat)
    requires heights != []
  {
    h > 0 && (Shr(i, h - 1) % 2 == 1 || Walks(heights, h - 1, i))
  }

  /**
   Peaks trail, their item is left out, and every claimed leaf of the last mountain with claims could be
   found that deep in the bag of this mountain and the peaks behind it.
   */
  ghost predicate Passable(n: nat, positions: seq<nat>, count: nat)
    requires n > 0 && positions != [] && forall p :: p in positions ==> LeafPosition(n, p)
  {
    var (idx, c) := (LeafIndices(positions), LastMountain(n, positions));
    var trailing := Trailing(n, idx, BitLength(n));
    && 0 < trailing < |Peaks(n)| && count + 1 == HonestCount(n, positions)
    && forall i :: i in idx && Under(0, i, c.h, c.j) ==> Reachable(c.h, Heights(Peaks(n)[|Peaks(n)| - trailing..]), i)
  }

  /** The bag of a mountain and the peaks behind it. */
  lemma TopReach<D>(ls: seq<Hash<D>>, e: nat, i: nat)
    requires Hashed(ls) && e + 1 < |Peaks(|ls|)|
    ensures |PeakValues(MmrCombine(Free<D>()), ls)| == |Peaks(|ls|)|
    ensures var (h, values) := (Peaks(|ls|)[e].h, PeakValues(MmrCombine(Free<D>()), ls));
            var top := Bag(Free<D>(), values[e..]);
            && h > 0 && top == HNode(0, Bag(Free<D>(), values[e + 1..]), values[e])
            && (Reaches(top, h, i) <==> Reachable(h, Heights(Peaks(|ls|)[e + 1..]), i))
  {
    hide Shr, Free, MmrCombine, Node, Peaks, InForest, Bag;
    var n, f := |ls|, MmrCombine(Free<D>());
    var values, c := PeakValues(f, ls), Peaks(n)[e];
    PeakHeights(n, e, |Peaks(n)| - 1);
    PeaksAllIn(n);
    PeakValueAt(f, ls, e);
    SuffixValues(f, ls, Peaks(n), e + 1);
    BagOfTwo(values[e..]);
    assert values[e..][1..] == values[e + 1..] && values[e..][0] == values[e];
    NodeReach(ls, c.h, c.j, c.h - 1, i);
    BagReach(ls, Peaks(n)[e + 1..], c.h - 1, i);
  }

  lemma SuffixValues<T>(f: Combine<T>, ls: seq<T>, cs: seq<Coord>, k: nat)
    requires AllIn(|ls|, cs) && k <= |cs|
    ensures AllIn(|ls|, cs[k..]) && Values(f, ls, cs[k..]) == Values(f, ls, cs)[k..]
  {
    hide InForest, Node;
    assert forall i :: 0 <= i < |cs[k..]| ==> cs[k..][i] == cs[k + i];
  }

  // ----- acceptance at the loose count -----

  /** A merge with the term on its right. */
  ghost predicate Above<D>(t: Hash<D>, top: Hash<D>) {
    t.HNode? && t.pos == 0 && t.right == top
  }

  /** What acceptance says about the hash of the last mountain with claims. */
  lemma LooseTop<D>(ls: seq<Hash<D>>, leaves: seq<Leaf<Hash<D>>>, proof: seq<Hash<D>>) returns (top: Hash<D>)
    requires Accepted(ls, leaves, proof) && !Shortcut(|ls|, LeafPositions(leaves))
    requires LooseCount(|ls|, LeafPositions(leaves), |proof|)
    ensures ls != [] && leaves != [] && forall p :: p in LeafPositions(leaves) ==> LeafPosition(|ls|, p)
    ensures var idx := LeafIndices(LeafPositions(leaves));
            ClaimsLieIn(Distinct(LeafKey, leaves), idx, LastFrom(|ls|, idx, BitLength(|ls|)), top,
                        LastMountain(|ls|, LeafPositions(leaves)).h)
    ensures var (n, values) := (|ls|, PeakValues(MmrCombine(Free<D>()), ls));
            var trailing := Trailing(n, LeafIndices(LeafPositions(leaves)), BitLength(n));
            && trailing < |values| == |Peaks(n)|
            && (trailing > 0 ==> top == Bag(Free<D>(), values[|values| - trailing - 1..]))
            && (trailing == 0 ==> Above(values[|values| - 1], top))
  {
    hide Free, PeakHashes, Distinct, Peaks, PeaksBelow, Positions, Bag, Block, LeafIndices, BitLength, HeadPlan, Plan,
         Trailing, PeakValues, Accepted, Size, MmrCombine, LastFrom, ClaimsLieIn, LeafPosition, LeavesFrom, Placed,
         TrueClaims, Under, Shl, TrueLeaves, SamePositions;
    AcceptedClaims(ls, leaves, proof);
    AcceptedRun(ls, leaves, proof);
    RunsCompare(ls, leaves, proof);
    ClaimsPlaced(ls, leaves);
    var n, positions := |ls|, LeafPositions(leaves);
    var idx, k := LeafIndices(positions), BitLength(n);
    IndicesFrom(n, positions);
    HeadOfPlan(n, idx, k);
    LastHash(n, idx, Distinct(LeafKey, leaves), k, proof);
    LastMountainFacts(n, positions);
    PeaksFromTop(n);
    var used, trailing := |HeadPlan(n, idx, k)|, Trailing(n, idx, k);
    var r := PeakHashes(Free<D>(), Distinct(LeafKey, leaves), Positions(Peaks(n)), proof);
    var values := PeakValues(MmrCombine(Free<D>()), ls);
    var led := |values| - trailing;
    top := r.value.0[led - 1];
    LooseBags(r.value.0[..led], proof[used..], values, trailing);
  }

  lemma LooseBags<D>(head: seq<Hash<D>>, tail: seq<Hash<D>>, values: seq<Hash<D>>, trailing: nat)
    requires head != [] && |values| == |head| + trailing && |tail| == (if trailing > 0 then 0 else 1)
    requires Bag(Free<D>(), head + tail) == Bag(Free<D>(), values)
    ensures trailing > 0 ==> head[|head| - 1] == Bag(Free<D>(), values[|values| - trailing - 1..])
    ensures trailing == 0 ==> Above(values[|values| - 1], head[|head| - 1])
  {
    hide Free;
    if trailing > 0 {
      assert head + tail == head;
      BagPrefix(head, values);
    } else {
      var all := head + tail;
      BagPrefix(values, all);
      var last := all[|values| - 1..];
      assert last == [head[|head| - 1], tail[0]] && last[1..] == [tail[0]];
      BagOfTwo(last);
      assert values[|values| - 1] == HNode(0, tail[0], head[|head| - 1]);
      assert Above(values[|values| - 1], head[|head| - 1]);
    }
  }

  /** Without trailing peaks the value would have to be deeper than the mountain. */
  lemma TooDeep<D>(ls: seq<Hash<D>>, h: nat, j: nat, top: Hash<D>, i: nat)
    requires Hashed(ls) && InForest(|ls|, Coord(h, j)) && Above(Node(MmrCombine(Free<D>()), ls, h, j), top)
    ensures !Reaches(top, h, i)
  {
    hide Free, MmrCombine, Node, Shr, Pos;
    if h == 0 {
      NodeOfLeaf(MmrCombine(Free<D>()), ls, j);
    } else {
      MmrNode(Free<D>(), ls, h, j);
      FreeMerges(0, Node(MmrCombine(Free<D>()), ls, h - 1, 2 * j), Node(MmrCombine(Free<D>()), ls, h - 1, 2 * j + 1));
      NodeReach(ls, h - 1, 2 * j + 1, h, i);
    }
  }

  lemma LiesIn<D>(leaves: seq<Leaf<Hash<D>>>, indices: seq<nat>, s: nat, top: Hash<D>, h: nat, k: nat)
    requires ClaimsLieIn(leaves, indices, s, top, h) && s <= k < |indices|
    ensures Reaches(top, h, indices[k])
  {
    hide Reaches, At;
  }

  /** On a hashed run the loose count is accepted in passable cases only. */
  lemma LooseIsPassable<D>(ls: seq<Hash<D>>, leaves: seq<Leaf<Hash<D>>>, proof: seq<Hash<D>>)
    requires Hashed(ls) && Accepted(ls, leaves, proof) && !Shortcut(|ls|, LeafPositions(leaves))
    requires LooseCount(|ls|, LeafPositions(leaves), |proof|)
    ensures ls != [] && leaves != [] && forall p :: p in LeafPositions(leaves) ==> LeafPosition(|ls|, p)
    ensures Passable(|ls|, LeafPositions(leaves), |proof|)
  {
    hide Free, Distinct, Peaks, PeaksBelow, Bag, LeafIndices, BitLength, Plan, Trailing, PeakValues, Accepted, MmrCombine,
         LastFrom, ClaimsLieIn, LeafPosition, LeavesFrom, Under, Shl, Shr, Reaches, Walks, Hashed, Node, InForest;
    var top := LooseTop(ls, leaves, proof);
    var n, positions := |ls|, LeafPositions(leaves);
    var idx, k, c := LeafIndices(positions), BitLength(n), LastMountain(n, positions);
    var trailing, values, s := Trailing(n, idx, k), PeakValues(MmrCombine(Free<D>()), ls), LastFrom(n, idx, k);
    IndicesFrom(n, positions);
    LastMountainFacts(n, positions);
    PeaksFromTop(n);
    LastSplit(n, idx, k);
    var e := |Peaks(n)| - trailing - 1;
    if trailing == 0 {
      LiesIn(Distinct(LeafKey, leaves), idx, s, top, c.h, s);
      PeakValueAt(MmrCombine(Free<D>()), ls, e);
      TooDeep(ls, c.h, c.j, top, idx[s]);
    } else {
      forall i | i in idx && Under(0, i, c.h, c.j)
        ensures Reachable(c.h, Heights(Peaks(n)[|Peaks(n)| - trailing..]), i)
      {
        var a :| 0 <= a < |idx| && idx[a] == i;
        LiesIn(Distinct(LeafKey, leaves), idx, s, top, c.h, a);
        TopReach(ls, e, i);
      }
    }
  }

  /** What is accepted on a hashed run outside the passable cases is true. */
  lemma HashedLeavesAreTrue<D>(ls: seq<Hash<D>>, leaves: seq<Leaf<Hash<D>>>, proof: seq<Hash<D>>)
    requires Hashed(ls) && Accepted(ls, leaves, proof)
    requires forall p :: p in LeafPositions(leaves) ==> LeafPosition(|ls|, p)
    requires !Passable(|ls|, LeafPositions(leaves), |proof|)
    ensures TrueClaims(ls, leaves)
  {
    hide Accepted, TrueClaims, Hashed, Passable, LeafPosition, LooseCount;
    if LooseCount(|ls|, LeafPositions(leaves), |proof|) && !Shortcut(|ls|, LeafPositions(leaves)) {
      LooseIsPassable(ls, leaves, proof);
    } else {
      AcceptedLeavesAreTrue(ls, leaves, proof);
    }
  }

  // ----- a false leaf in every passable case -----

  /** Items that take claims in a term up to it. */
  lemma MountainTarget<D>(c: Coord, here: seq<nat>, leaves: seq<Leaf<Hash<D>>>, top: Hash<D>)
    returns (items: seq<Hash<D>>)
    requires Placed(here, leaves) && here != [] && ClaimsLieIn(leaves, here, 0, top, c.h)
    requires c.h > 0 ==> Climb(c, 0, here, [])
    requires c.h == 0 ==> here == [c.j]
    requires forall i :: 0 <= i < |leaves| ==> leaves[i].pos <= Pos(c.h, c.j)
    ensures |items| == |MountainPlan(here, c)|
    ensures MountainHash(Free<D>(), leaves, Pos(c.h, c.j), items) == Ok((top, []))
  {
    hide Size, Pos, Climb, PeakWalk, Queue, Free, AllHold, Siblings;
    LeafBeforePeak(here[0], c);
    if c.h > 0 {
      PlacedQueue(here, leaves);
      ClimbBelow(Queue(leaves), c, 0, here, []);
      ClaimsQueue(leaves, here, top, c.h);
      items := WalkTarget(top, Queue(leaves), c, 0, here, []);
    } else {
      items := [];
      NoSiblings(here);
    }
  }

  /** The true peaks up to the last mountain with claims, then the given term. */
  ghost predicate RunsTo<T>(r: Result<(seq<T>, seq<Leaf<T>>, seq<T>)>, values: seq<T>, led: nat, top: T) {
    0 < led <= |values| && r == Ok((values[..led - 1] + [top], [], []))
  }

  /** True claims, then claims in a term: items for the run to end with that term. */
  lemma {:induction false} ForgedRun<D>(ls: seq<Hash<D>>, indices: seq<nat>, leaves: seq<Leaf<Hash<D>>>, k: nat, top: Hash<D>)
    returns (proof: seq<Hash<D>>)
    requires LeavesFrom(|ls|, indices, k) && Placed(indices, leaves) && indices != [] && |leaves| == |indices|
    requires LastFrom(|ls|, indices, k) <= |indices|
    requires TrueLeaves(ls, indices[..LastFrom(|ls|, indices, k)], leaves[..LastFrom(|ls|, indices, k)])
    requires Trailing(|ls|, indices, k) < |PeaksBelow(|ls|, k)|
    requires ClaimsLieIn(leaves, indices, LastFrom(|ls|, indices, k), top, LastPeak(|ls|, indices, k).h)
    ensures |proof| == |HeadPlan(|ls|, indices, k)| && AllIn(|ls|, PeaksBelow(|ls|, k))
    ensures RunsTo(PeakHashes(Free<D>(), leaves, Positions(PeaksBelow(|ls|, k)), proof),
                   Values(MmrCombine(Free<D>()), ls, PeaksBelow(|ls|, k)),
                   |PeaksBelow(|ls|, k)| - Trailing(|ls|, indices, k), top)
    decreases k
  {
    hide Size, Pos, Shl, Shr, Positions, LeavesFrom, Climb, Row, CountBelow, PeakHashes, Placed, HeadPlan, PeaksBelow, AllIn,
         Trailing, MountainPlan, InForest, LastFrom, LastPeak, Free, RunsTo, TrueLeaves, ClaimsLieIn, Values, MmrCombine;
    var n := |ls|;
    if k == 0 {
      LeavesDone(n, indices);
    } else {
      LastPeakStep(n, indices, k);
      LastFromUnfold(n, indices, k);
      HeadUnfold(n, indices, k);
      PeaksBelowStep(n, k);
      if Shr(n, k - 1) % 2 == 0 {
        LeavesSkip(n, indices, k);
        proof := ForgedRun(ls, indices, leaves, k - 1, top);
      } else {
        var c := Coord(k - 1, Shr(n, k - 1) - 1);
        var t := CountBelow(indices, Shl(c.j + 1, c.h));
        LeavesSplit(n, indices, k);
        PlacedSplit(indices, leaves, t);
        if t < |indices| {
          var s := LastFrom(n, indices[t..], k - 1);
          ClaimsSplit(ls, indices, leaves, t, s, top, LastPeak(n, indices, k).h);
          var rest := ForgedRun(ls, indices[t..], leaves[t..], k - 1, top);
          proof := TrueTurn(ls, indices, leaves, c, t, rest, |PeaksBelow(n, k - 1)| - Trailing(n, indices[t..], k - 1), top);
        } else {
          HeadUnfold(n, indices[t..], k - 1);
          proof := LastTurn(ls, indices, leaves, c, t, top);
        }
      }
    }
  }

  lemma ClaimsSplit<D>(ls: seq<Hash<D>>, indices: seq<nat>, leaves: seq<Leaf<Hash<D>>>, t: nat, s: nat, top: Hash<D>, h: nat)
    requires t + s <= |indices| == |leaves| && TrueLeaves(ls, indices[..t + s], leaves[..t + s])
    requires ClaimsLieIn(leaves, indices, t + s, top, h)
    ensures TrueLeaves(ls, indices[..t], leaves[..t]) && TrueLeaves(ls, indices[t..][..s], leaves[t..][..s])
    ensures ClaimsLieIn(leaves[t..], indices[t..], s, top, h)
  {
    hide Size, Reaches, At;
    TrueSplit(ls, indices[..t + s], leaves[..t + s], t);
    assert indices[..t + s][..t] == indices[..t] && leaves[..t + s][..t] == leaves[..t];
    assert indices[..t + s][t..] == indices[t..][..s] && leaves[..t + s][t..] == leaves[t..][..s];
  }

  /** One turn with true claims and true items. */
  lemma TrueTurn<D>(ls: seq<Hash<D>>, indices: seq<nat>, leaves: seq<Leaf<Hash<D>>>, c: Coord, t: nat, rest: seq<Hash<D>>,
                    led: nat, top: Hash<D>) returns (proof: seq<Hash<D>>)
    requires Placed(indices, leaves) && t == CountBelow(indices, Shl(c.j + 1, c.h)) <= |leaves| == |indices|
    requires TrueLeaves(ls, indices[..t], leaves[..t])
    requires InForest(|ls|, c) && Shr(|ls|, c.h) == c.j + 1 && c.j % 2 == 0 && AllIn(|ls|, PeaksBelow(|ls|, c.h))
    requires t > 0 && c.h > 0 ==> Climb(c, 0, indices[..t], [])
    requires t > 0 && c.h == 0 ==> indices[..t] == [c.j]
    requires RunsTo(PeakHashes(Free<D>(), leaves[t..], Positions(PeaksBelow(|ls|, c.h)), rest),
                    Values(MmrCombine(Free<D>()), ls, PeaksBelow(|ls|, c.h)), led, top)
    ensures |proof| == |MountainPlan(indices[..t], c)| + |rest| && AllIn(|ls|, PeaksBelow(|ls|, c.h + 1))
    ensures RunsTo(PeakHashes(Free<D>(), leaves, Positions(PeaksBelow(|ls|, c.h + 1)), proof),
                   Values(MmrCombine(Free<D>()), ls, PeaksBelow(|ls|, c.h + 1)), led + 1, top)
  {
    hide Size, Pos, Shl, Shr, Positions, Climb, CountBelow, PeakHashes, Placed, PeaksBelow, AllIn, MountainPlan, InForest,
         Free, TrueLeaves, Values, MmrCombine, Node, MountainHash, UpTo, PlanIn, ItemValues;
    var m, f, n := Free<D>(), MmrCombine(Free<D>()), |ls|;
    PlacedUpTo(indices, leaves, c);
    MountainVerifies(m, ls, c, indices[..t], leaves[..t], rest);
    OddPeak(n, c);
    PositionsCons(c, PeaksBelow(n, c.h));
    EmptyHere(c, indices, t);
    ItemCounts(m, ls, MountainPlan(indices[..t], c));
    proof := ItemValues(m, ls, MountainPlan(indices[..t], c)) + rest;
    var values := Values(f, ls, PeaksBelow(n, c.h));
    PeakHashesStep(m, leaves, Pos(c.h, c.j), Positions(PeaksBelow(n, c.h)), proof, Node(f, ls, c.h, c.j), rest,
                   values[..led - 1] + [top]);
    ValuesHead(f, ls, c, PeaksBelow(n, c.h), []);
    RunsOn(values, Node(f, ls, c.h, c.j), led, top);
    assert Values(f, ls, [c] + PeaksBelow(n, c.h)) + [] == Values(f, ls, [c] + PeaksBelow(n, c.h)) && values + [] == values;
  }

  lemma RunsOn<T>(values: seq<T>, x: T, led: nat, top: T)
    requires 0 < led <= |values|
    ensures [x] + (values[..led - 1] + [top]) == ([x] + values)[..led] + [top]
  {
  }

  /** The last turn with claims, then none with items. */
  lemma LastTurn<D>(ls: seq<Hash<D>>, indices: seq<nat>, leaves: seq<Leaf<Hash<D>>>, c: Coord, t: nat, top: Hash<D>)
    returns (proof: seq<Hash<D>>)
    requires Placed(indices, leaves) && t == CountBelow(indices, Shl(c.j + 1, c.h)) == |leaves| == |indices| > 0
    requires InForest(|ls|, c) && Shr(|ls|, c.h) == c.j + 1 && c.j % 2 == 0
    requires c.h > 0 ==> Climb(c, 0, indices, [])
    requires c.h == 0 ==> indices == [c.j]
    requires ClaimsLieIn(leaves, indices, 0, top, c.h)
    ensures |proof| == |MountainPlan(indices, c)| && AllIn(|ls|, PeaksBelow(|ls|, c.h + 1))
    ensures RunsTo(PeakHashes(Free<D>(), leaves, Positions(PeaksBelow(|ls|, c.h + 1)), proof),
                   Values(MmrCombine(Free<D>()), ls, PeaksBelow(|ls|, c.h + 1)), 1, top)
  {
    hide Size, Pos, Shl, Shr, Positions, Climb, CountBelow, PeakHashes, Placed, PeaksBelow, AllIn, MountainPlan, InForest,
         Free, ClaimsLieIn, Values, MmrCombine, MountainHash, UpTo;
    var m, f, n := Free<D>(), MmrCombine(Free<D>()), |ls|;
    var peaks := PeaksBelow(n, c.h);
    var none: seq<Leaf<Hash<D>>> := [];
    PlacedUpTo(indices, leaves, c);
    proof := MountainTarget(c, indices, leaves, top);
    OddPeak(n, c);
    PositionsCons(c, peaks);
    PeaksBelowIn(n, c.h + 1);
    ValuesCount(f, ls, PeaksBelow(n, c.h + 1));
    TrailRun(m, Positions(peaks), []);
    assert leaves[..t] == leaves && leaves[t..] == none;
    PeakHashesStep(m, leaves, Pos(c.h, c.j), Positions(peaks), proof, top, [], []);
    assert [top] + [] == [] + [top];
  }

  /** Every leaf hash in the term is this one. */
  ghost predicate Only<D>(t: Hash<D>, y: D) {
    match t
    case HLeaf(d) => d == y
    case HNode(p, l, r) => Only(l, y) && Only(r, y)
  }

  lemma {:induction false} NodeOnly<D>(ls: seq<Hash<D>>, h: nat, j: nat, y: D)
    requires InForest(|ls|, Coord(h, j))
    requires forall i :: 0 <= i < |ls| && Under(0, i, h, j) ==> ls[i] == HLeaf(y)
    ensures Only(Node(MmrCombine(Free<D>()), ls, h, j), y)
    decreases h
  {
    hide Pos, Under, Shr, Free, MmrCombine, Node;
    LevelZero(|ls|, j);
    if h == 0 {
      UnderZero(j, j);
      NodeOfLeaf(MmrCombine(Free<D>()), ls, j);
    } else {
      MmrNode(Free<D>(), ls, h, j);
      forall i | 0 <= i < |ls| && (Under(0, i, h - 1, 2 * j) || Under(0, i, h - 1, 2 * j + 1))
        ensures ls[i] == HLeaf(y)
      {
        LeavesBelow(h, j, i);
      }
      NodeOnly(ls, h - 1, 2 * j, y);
      NodeOnly(ls, h - 1, 2 * j + 1, y);
      FreeMerges(0, Node(MmrCombine(Free<D>()), ls, h - 1, 2 * j), Node(MmrCombine(Free<D>()), ls, h - 1, 2 * j + 1));
    }
  }

  lemma {:induction false} BagOnly<D>(hashes: seq<Hash<D>>, y: D)
    requires hashes != [] && forall i :: 0 <= i < |hashes| ==> Only(hashes[i], y)
    ensures Only(Bag(Free<D>(), hashes), y)
  {
    hide Free;
    if |hashes| > 1 {
      BagOnly(hashes[1..], y);
      BagOfTwo(hashes);
    }
  }

  lemma {:induction false} OnlyAt<D>(t: Hash<D>, r: nat, i: nat, y: D)
    requires Only(t, y) && Reaches(t, r, i)
    ensures Only(At(t, r, i), y)
    decreases r
  {
    hide Shr;
    if r > 0 { OnlyAt(Side(t, r, i), r - 1, i, y); }
  }

  /** One leaf hash up to this mountain, another behind it. */
  ghost function TwoLeaves<D>(n: nat, c: Coord, x: D, y: D): (ls: seq<Hash<D>>)
    ensures |ls| == n && Hashed(ls)
  {
    seq(n, i requires 0 <= i < n => if i < Shl(c.j + 1, c.h) then HLeaf(x) else HLeaf(y))
  }

  lemma TrailingOnly<D>(n: nat, e: nat, x: D, y: D)
    requires e + 1 < |Peaks(n)|
    ensures var ls := TwoLeaves(n, Peaks(n)[e], x, y);
            && |PeakValues(MmrCombine(Free<D>()), ls)| == |Peaks(n)|
            && Only(Bag(Free<D>(), PeakValues(MmrCombine(Free<D>()), ls)[e + 1..]), y)
  {
    hide Free, Bag, MmrCombine, Peaks, PeakValues, Shl, Shr, InForest, Node, Under, Hashed;
    var c, ls, f := Peaks(n)[e], TwoLeaves(n, Peaks(n)[e], x, y), MmrCombine(Free<D>());
    PeakValueAt(f, ls, e);
    var rest := PeakValues(f, ls)[e + 1..];
    forall k | 0 <= k < |rest|
      ensures Only(rest[k], y)
    {
      var d := Peaks(n)[e + 1 + k];
      PeakValueAt(f, ls, e + 1 + k);
      forall i | 0 <= i < n && Under(0, i, d.h, d.j)
        ensures ls[i] == HLeaf(y)
      {
        OtherMountains(n, e, e + 1 + k, i);
      }
      NodeOnly(ls, d.h, d.j, y);
    }
    BagOnly(rest, y);
  }

  /** Found in the bag as deep as the mountain is high is no leaf hash of the mountain. */
  lemma FoundIsFalse<D>(n: nat, e: nat, i: nat, x: D, y: D)
    requires x != y && e + 1 < |Peaks(n)| && Under(0, i, Peaks(n)[e].h, Peaks(n)[e].j)
    ensures var ls := TwoLeaves(n, Peaks(n)[e], x, y);
            |PeakValues(MmrCombine(Free<D>()), ls)| == |Peaks(n)|
            && var top := Bag(Free<D>(), PeakValues(MmrCombine(Free<D>()), ls)[e..]);
            Reaches(top, Peaks(n)[e].h, i) ==> i < n && At(top, Peaks(n)[e].h, i) != ls[i]
  {
    hide Free, Bag, MmrCombine, Peaks, PeakValues, Shl, Shr, InForest, Node, Under;
    var c, ls, f := Peaks(n)[e], TwoLeaves(n, Peaks(n)[e], x, y), MmrCombine(Free<D>());
    TopReach(ls, e, i);
    TrailingOnly(n, e, x, y);
    PeakValueAt(f, ls, e);
    assert c in Peaks(n);
    MountainLeaves(n, c);
    UnderRange(i, c);
    assert ls[i] == HLeaf(x);
    var top := Bag(Free<D>(), PeakValues(f, ls)[e..]);
    if Reaches(top, c.h, i) {
      if Shr(i, c.h - 1) % 2 == 1 {
        NodeReach(ls, c.h, c.j, c.h - 1, i);
        NodeReach(ls, c.h, c.j, c.h, 2 * i);
        Further(top.right, c.h - 1, 2 * i);
      } else {
        OnlyAt(top.left, c.h - 1, i, y);
      }
    }
  }

  /** The run with what is found in the bag claimed for the mountain. */
  ghost function Found<D>(ls: seq<Hash<D>>, c: Coord, top: Hash<D>): (fs: seq<Hash<D>>)
    ensures |fs| == |ls|
    ensures forall i :: 0 <= i < |ls| ==>
              fs[i] == if Under(0, i, c.h, c.j) && Reaches(top, c.h, i) then At(top, c.h, i) else ls[i]
  {
    seq(|ls|, i requires 0 <= i < |ls| => if Under(0, i, c.h, c.j) && Reaches(top, c.h, i) then At(top, c.h, i) else ls[i])
  }

  lemma FoundClaims<D>(ls: seq<Hash<D>>, c: Coord, top: Hash<D>, indices: seq<nat>, leaves: seq<Leaf<Hash<D>>>, s: nat)
    requires TrueLeaves(Found(ls, c, top), indices, leaves) && s <= |indices|
    requires forall a :: 0 <= a < |indices| ==> (Under(0, indices[a], c.h, c.j) <==> s <= a)
    requires forall i :: i in indices && Under(0, i, c.h, c.j) ==> Reaches(top, c.h, i)
    ensures |leaves| == |indices| && TrueLeaves(ls, indices[..s], leaves[..s]) && ClaimsLieIn(leaves, indices, s, top, c.h)
  {
    hide Size, Under, Reaches, At, Found;
    forall a | 0 <= a < |indices|
      ensures s <= a ==> Reaches(top, c.h, indices[a]) && At(top, c.h, indices[a]) == leaves[a].item
    {
      assert indices[a] in indices;
    }
  }

  /** Accepted is a run that bags the mountain with the peaks behind it. */
  lemma RunAccepted<D>(ls: seq<Hash<D>>, leaves: seq<Leaf<Hash<D>>>, proof: seq<Hash<D>>, e: nat)
    requires ls != [] && leaves != [] && forall p :: p in LeafPositions(leaves) ==> LeafPosition(|ls|, p)
    requires !Shortcut(|ls|, LeafPositions(leaves)) && e < |PeakValues(MmrCombine(Free<D>()), ls)|
    requires RunsTo(PeakHashes(Free<D>(), Distinct(LeafKey, leaves), Positions(Peaks(|ls|)), proof),
                    PeakValues(MmrCombine(Free<D>()), ls), e + 1, Bag(Free<D>(), PeakValues(MmrCombine(Free<D>()), ls)[e..]))
    ensures Accepted(ls, leaves, proof)
  {
    hide Free, Bag, PeakHashes, Distinct, Positions, Peaks, PeakValues, LeafPosition, MmrCombine, Accepted;
    var values := PeakValues(MmrCombine(Free<D>()), ls);
    AcceptedRun(ls, leaves, proof);
    BagSuffix(Free<D>(), values[..e], values[e..]);
    assert values[..e] + values[e..] == values;
    assert values[..e] + [Bag(Free<D>(), values[e..])] + [] == values[..e] + [Bag(Free<D>(), values[e..])];
  }

  /** Two leaf hashes are enough: what the bag holds in the mountain's place is claimed of it. */
  lemma PassLeaf<D>(n: nat, positions: seq<u64>, count: nat, x: D, y: D)
    returns (ls: seq<Hash<D>>, leaves: seq<Leaf<Hash<D>>>, proof: seq<Hash<D>>)
    requires x != y && n > 0 && positions != [] && forall p :: p in positions ==> LeafPosition(n, p)
    requires Passable(n, positions, count)
    ensures |ls| == n && Hashed(ls) && LeafPositions(leaves) == positions && |proof| == count
    ensures Accepted(ls, leaves, proof) && !TrueClaims(ls, leaves)
  {
    hide Free, Bag, MmrCombine, LeafIndices, LeafPosition, LeavesFrom, BitLength, HeadPlan, Plan, Trailing, Peaks,
         Claims, Accepted, TrueClaims, Shl, Shr, InForest, Node, Under, Reaches, At, LastFrom, ClaimsLieIn,
         TrueLeaves, Placed, Distinct, Walks, Reachable, PeakHashes, Hashed, PeaksBelow, LeavesFor, Pow2, Positions,
         RunsTo, Found, TwoLeaves, Values, AllIn;
    var idx, k, c := LeafIndices(positions), BitLength(n), LastMountain(n, positions);
    var trailing := Trailing(n, idx, k);
    IndicesFrom(n, positions);
    LastMountainFacts(n, positions);
    PeaksFromTop(n);
    LastSplit(n, idx, k);
    var e := |Peaks(n)| - trailing - 1;
    ls := TwoLeaves(n, c, x, y);
    PeakValueAt(MmrCombine(Free<D>()), ls, e);
    var top := Bag(Free<D>(), PeakValues(MmrCombine(Free<D>()), ls)[e..]);
    forall i | i in idx && Under(0, i, c.h, c.j)
      ensures Reaches(top, c.h, i)
    {
      TopReach(ls, e, i);
    }
    var fs := Found(ls, c, top);
    leaves := Claims(fs, positions);
    ClaimsAre(fs, positions);
    FoundClaims(ls, c, top, idx, Distinct(LeafKey, leaves), LastFrom(n, idx, k));
    proof := ForgedRun(ls, idx, Distinct(LeafKey, leaves), k, top);
    SeveralPeaks(n);
    RunAccepted(ls, leaves, proof, e);
    HeadOfPlan(n, idx, k);
    var i := idx[|idx| - 1];
    FoundIsFalse(n, e, i, x, y);
    FalseClaim(ls, fs, positions, i);
  }

  lemma SeveralPeaks(n: nat)
    requires n > 0
    ensures |Peaks(n)| > 1 ==> n > 1
  {
    hide PeaksBelow;
    SmallPeaks();
  }

  /** Whatever is accepted against the root of a hashed run with so many items at these positions is true. */
  ghost predicate HashedCountBinds<D(!new)>(n: nat, positions: seq<u64>, count: nat) {
    forall ls: seq<Hash<D>>, leaves: seq<Leaf<Hash<D>>>, proof: seq<Hash<D>> ::
      |ls| == n && Hashed(ls) && LeafPositions(leaves) == positions && |proof| == count && Accepted(ls, leaves, proof) ==>
        TrueClaims(ls, leaves)
  }

  /**
   The size, the positions and the number of items decide whether a false leaf can pass against the root
   of a run whose leaf hashes are no merges.
   */
  lemma HashedCountDecides<D(!new)>(n: nat, positions: seq<u64>, count: nat, x: D, y: D)
    requires x != y && n > 0 && positions != [] && forall p :: p in positions ==> LeafPosition(n, p)
    ensures HashedCountBinds<D>(n, positions, count) <==> !Passable(n, positions, count)
  {
    hide Accepted, TrueClaims, Passable, LeafPosition, Hashed;
    if Passable(n, positions, count) {
      var ls, leaves, proof := PassLeaf(n, positions, count, x, y);
    } else {
      forall ls: seq<Hash<D>>, leaves: seq<Leaf<Hash<D>>>, proof: seq<Hash<D>> |
        |ls| == n && Hashed(ls) && LeafPositions(leaves) == positions && |proof| == count && Accepted(ls, leaves, proof)
        ensures TrueClaims(ls, leaves)
      {
        HashedLeavesAreTrue(ls, leaves, proof);
      }
    }
  }
}
