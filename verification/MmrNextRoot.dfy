/** `calculate_root_with_new_leaf` (`src/mmr.rs`): from an old proof to the root after one more push. */
module MmrNextRoot {
  import opened Bits
  import opened Forest
  import opened Nodes
  import opened Bagging
  import opened ProofPlan
  import opened QueueWalk
  import opened ProofSpec
  import opened Completeness
  import opened Incremental
  import opened Parting
  import opened MmrIncremental
  import opened Wrappers

  /** The first peak at or beyond a position; their number if there is none. */
  function FirstBeyond(peaks: seq<nat>, pos: nat): (i: nat)
    ensures i <= |peaks|
  {
    if peaks == [] || peaks[0] >= pos then 0 else 1 + FirstBeyond(peaks[1..], pos)
  }

  /** The computation on arbitrary input; indexing past an end is the source's panic. */
  ghost function RootWithNewLeaf<T>(m: Hasher<T>, leaves: seq<Leaf<T>>, newPos: u64, newElem: T, newMmrSize: nat,
                                    mmrSize: nat, proof: seq<T>): Result<T>
  {
    if Height(newPos + 1) > Height(newPos) then
      var hashes := PeaksHashes(m, leaves, mmrSize, proof);
      if hashes.Err? then Err(hashes.error)
      else
        var peaks := Positions(Peaks(MaxLeaves(newMmrSize)));
        var i := FirstBeyond(peaks, newPos);
        if i == |peaks| || i > |hashes.value| then Err(SliceOutOfRange)
        else CalculatedRoot(m, [Leaf(newPos, newElem)], newMmrSize, ReverseFrom(hashes.value, i))
    else CalculatedRoot(m, leaves + [Leaf(newPos, newElem)], newMmrSize, proof)
  }

  // ----- proofs with too few items -----

  /** How many items a climb takes does not depend on their values. */
  lemma {:induction false} PeakWalkCount<T>(m: Hasher<T>, q: seq<Entry<T>>, c: Coord, h: nat,
                                            front: seq<nat>, back: seq<nat>, proof: seq<T>)
    requires Climb(c, h, front, back) && Places(q, h, front, back) && Below(q, Pos(c.h, c.j))
    ensures var need := |Siblings(h, front, back, c.h)|;
            var r := PeakWalk(m, q, Pos(c.h, c.j), proof);
            if |proof| < need then r == Err(CorruptedProof) else r.Ok? && r.value.1 == proof[need..]
    decreases c.h - h, |front|
  {
    hide Pos, Sib, Paired, IsRight, SibPos, ParentPos, Work, Under, Height, Size, Row, Climb, ParentItem, Siblings;
    var peakPos := Pos(c.h, c.j);
    ClimbHeight(c, h, front, back);
    if front == [] {
      ClimbTurn(c, h, back);
      if h + 1 < c.h {
        SiblingsTurn(h, back, c.h);
        PeakWalkCount(m, q, c, h + 1, back, [], proof);
      } else {
        SiblingsTurn(h, back, c.h);
        SiblingsTop(h + 1, back, c.h);
      }
    } else {
      PlacesFront(q, h, front, back);
      ClimbPositions(c, h, front, back);
      ClimbStep(c, h, front, back);
      SiblingsUnfold(h, front, back, c.h);
      var k := StepDrops(q, h, front, back);
      if Paired(front) || proof != [] {
        var sibling := if SiblingQueued(q) then q[1].item else proof[0];
        var parent := Entry(ParentPos(q[0]), ParentItem(m, q[0], sibling), q[0].height + 1);
        WorkFalls(q, parent, peakPos);
        PlacesDrop(q, parent, h, front, back, k, front[0] / 2);
        var proof' := if Paired(front) then proof else proof[1..];
        PeakWalkCount(m, Behind(q) + [parent], c, h, Rest(front), back + [front[0] / 2], proof');
      }
    }
  }

  /** Leaves at the positions of these indices, whatever they claim to hold there. */
  ghost predicate Placed<T>(indices: seq<nat>, leaves: seq<Leaf<T>>) {
    |leaves| == |indices| && forall i :: 0 <= i < |indices| ==> leaves[i].pos == Size(indices[i])
  }

  lemma {:induction false} PlacedUpTo<T>(indices: seq<nat>, leaves: seq<Leaf<T>>, c: Coord)
    requires Placed(indices, leaves)
    ensures UpTo(leaves, Pos(c.h, c.j)) == CountBelow(indices, Shl(c.j + 1, c.h))
  {
    hide Size, Pos, Shl;
    if indices != [] {
      LeafBeforePeak(indices[0], c);
      PlacedUpTo(indices[1..], leaves[1..], c);
    }
  }

  lemma PlacedQueue<T>(indices: seq<nat>, leaves: seq<Leaf<T>>)
    requires Placed(indices, leaves)
    ensures Places(Queue(leaves), 0, indices, [])
  {
    hide Size, Pos;
    forall i | 0 <= i < |indices|
      ensures leaves[i].pos == Pos(0, indices[i])
    {
      LeafPos(indices[i]);
    }
  }

  lemma MountainCount<T>(m: Hasher<T>, c: Coord, here: seq<nat>, leaves: seq<Leaf<T>>, proof: seq<T>)
    requires Placed(here, leaves)
    requires here != [] && c.h > 0 ==> Climb(c, 0, here, [])
    requires here != [] && c.h == 0 ==> here == [c.j]
    requires forall i :: 0 <= i < |leaves| ==> leaves[i].pos <= Pos(c.h, c.j)
    ensures var need := |MountainPlan(here, c)|;
            var r := MountainHash(m, leaves, Pos(c.h, c.j), proof);
            if |proof| < need then r == Err(CorruptedProof) else r.Ok? && r.value.1 == proof[need..]
  {
    hide Size, Pos, Climb, PeakWalk, Queue, Siblings;
    if here != [] {
      LeafBeforePeak(here[0], c);
      if c.h == 0 {
        SiblingsTop(0, here, 0);
        assert proof[0..] == proof;
      } else {
        PlacedQueue(here, leaves);
        ClimbBelow(Queue(leaves), c, 0, here, []);
        PeakWalkCount(m, Queue(leaves), c, 0, here, [], proof);
      }
    }
  }

  /** The verifier ran out of items: an error, or leaves nobody accounted for. */
  ghost predicate Starved<T>(r: Result<(seq<T>, seq<Leaf<T>>, seq<T>)>) {
    if r.Err? then r.error == CorruptedProof else r.value.1 != []
  }

  /** When the last leaf is proved, every item of the plan is needed. */
  lemma {:induction false} ShortProof<T>(m: Hasher<T>, n: nat, indices: seq<nat>, leaves: seq<Leaf<T>>, k: nat, proof: seq<T>)
    requires LeavesFrom(n, indices, k) && Placed(indices, leaves) && indices != []
    requires Trailing(n, indices, k) == 0 && |proof| < |Plan(n, indices, k)|
    ensures Starved(PeakHashes(m, leaves, Positions(PeaksBelow(n, k)), proof))
    decreases k
  {
    hide Size, Pos, Shl, Shr, Positions, LeavesFrom, Climb, Row, CountBelow, PeakHashes, Placed, Plan, PeaksBelow,
         Starved, Trailing, MountainPlan;
    TrailingUnfold(n, indices, k);
    if k == 0 {
      PlanZero(n, indices);
    } else if Shr(n, k - 1) % 2 == 0 {
      LeavesSkip(n, indices, k);
      PlanSkip(n, indices, k);
      ShortProof(m, n, indices, leaves, k - 1, proof);
    } else {
      var c := Coord(k - 1, Shr(n, k - 1) - 1);
      var t := CountBelow(indices, Shl(c.j + 1, c.h));
      var need := |MountainPlan(indices[..t], c)|;
      LeavesSplit(n, indices, k);
      PlanUnfold(n, indices, k);
      PlacedSplit(indices, leaves, t);
      if t == |indices| {
        TrailingUnfold(n, indices[t..], k - 1);
        NoTail(n, k - 1);
        assert indices[t..] == [];
      } else if |proof| >= need {
        ShortProof(m, n, indices[t..], leaves[t..], k - 1, proof[need..]);
      }
      StarvedMountain(m, n, indices, leaves, c, t, proof);
    }
  }

  lemma NoTail(n: nat, k: nat)
    ensures |PeaksBelow(n, k)| == 0 ==> Plan(n, [], k) == []
  {
    hide PeaksBelow;
  }

  lemma PlacedSplit<T>(indices: seq<nat>, leaves: seq<Leaf<T>>, t: nat)
    requires Placed(indices, leaves) && t <= |indices|
    ensures |leaves| == |indices|
    ensures Placed(indices[..t], leaves[..t]) && Placed(indices[t..], leaves[t..])
  {
    hide Size;
  }

  lemma StarvedMountain<T>(m: Hasher<T>, n: nat, indices: seq<nat>, leaves: seq<Leaf<T>>, c: Coord, t: nat, proof: seq<T>)
    requires Placed(indices, leaves) && indices != [] && t == CountBelow(indices, Shl(c.j + 1, c.h)) <= |leaves|
    requires Shr(n, c.h) == c.j + 1 && c.j % 2 == 0
    requires t > 0 && c.h > 0 ==> Climb(c, 0, indices[..t], [])
    requires t > 0 && c.h == 0 ==> indices[..t] == [c.j]
    requires var need := |MountainPlan(indices[..t], c)|;
             |proof| >= need ==> Starved(PeakHashes(m, leaves[t..], Positions(PeaksBelow(n, c.h)), proof[need..]))
    ensures Starved(PeakHashes(m, leaves, Positions(PeaksBelow(n, c.h + 1)), proof))
  {
    hide Size, Pos, Shl, Shr, Positions, Climb, CountBelow, Placed, PeaksBelow, MountainPlan, MountainHash, UpTo;
    PlacedSplit(indices, leaves, t);
    PlacedUpTo(indices, leaves, c);
    MountainCount(m, c, indices[..t], leaves[..t], proof);
    OddPeak(n, c);
    PositionsCons(c, PeaksBelow(n, c.h));
    var peaks := Positions(PeaksBelow(n, c.h + 1));
    assert peaks[0] == Pos(c.h, c.j) && peaks[1..] == Positions(PeaksBelow(n, c.h));
  }

  lemma OddPeak(n: nat, c: Coord)
    requires Shr(n, c.h) == c.j + 1 && c.j % 2 == 0
    ensures PeaksBelow(n, c.h + 1) == [c] + PeaksBelow(n, c.h)
  {
    hide Shr;
  }

  // ----- one leaf more -----

  /** With the last leaf proved nothing trails. */
  lemma {:induction false} LastLeafTrails(n: nat, indices: seq<nat>, k: nat)
    requires LeavesFrom(n, indices, k) && indices != [] && indices[|indices| - 1] + 1 == n
    ensures Trailing(n, indices, k) == 0
    decreases k
  {
    hide Shl, Shr, LeavesFrom, CountBelow, Trailing, PeaksBelow;
    TrailingUnfold(n, indices, k);
    if k == 0 {
      LeavesDone(n, indices);
    } else if Shr(n, k - 1) % 2 == 0 {
      LeavesSkip(n, indices, k);
      LastLeafTrails(n, indices, k - 1);
    } else {
      var c := Coord(k - 1, Shr(n, k - 1) - 1);
      var t := CountBelow(indices, Shl(c.j + 1, c.h));
      LeavesSplit(n, indices, k);
      if t < |indices| {
        LastLeafTrails(n, indices[t..], k - 1);
      } else {
        LastBelow(indices, Shl(c.j + 1, c.h));
        ShlShr(c.j + 1, n, c.h);
        PeaksOfMultiple(c.j + 1, c.h, c.h);
        TrailingUnfold(n, indices[t..], k - 1);
      }
    }
  }

  lemma LastBelow(s: seq<nat>, bound: nat)
    requires s != [] && CountBelow(s, bound) == |s|
    ensures s[|s| - 1] < bound
  {
  }

  /** An even forest and its successor differ in the lowest bit only. */
  lemma EvenSuccessor(n: nat, h: nat)
    requires n % 2 == 0 && h > 0
    ensures Shr(n + 1, h) == Shr(n, h) && Shl(Shr(n, h), h) <= n
  {
    assert (n + 1) / 2 == n / 2;
    ShlShr(Shr(n, h), n, h);
  }

  /** Proving a new leaf that becomes a peak of its own: the old bare tail, peak by peak. */
  lemma NewPeakTail(n: nat, k: nat)
    requires n % 2 == 0 && k > 0
    ensures Plan(n + 1, [n], k) == Singles(PeaksBelow(n, k))
  {
    hide Shr, Plan, PeaksBelow, Singles, Reverse;
    EvenSuccessor(n, k);
    IncrementalPlan(n, n + 1, k);
    Part(n, n + 1, k);
    var d := Merging(n, n + 1, k);
    if d > 0 { EvenSuccessor(n, d); }
    PeaksBelowNone(n);
    assert Range(n, n + 1) == [n] + Range(n + 1, n + 1) == [n];
    var u := Unchanged(n, n + 1, k);
    assert u + [] == u;
  }

  /** A plan gains an item for every bagged peak once the new leaf is proved as well. */
  lemma {:induction false} NewPeakPlan(n: nat, indices: seq<nat>, k: nat)
    requires n % 2 == 0 && k > 0 && LeavesFrom(n, indices, k)
    ensures Trailing(n, indices, k) <= 1 ==> Plan(n + 1, indices + [n], k) == Plan(n, indices, k)
    ensures Trailing(n, indices, k) > 1 ==>
              |Plan(n + 1, indices + [n], k)| == |Plan(n, indices, k)| + Trailing(n, indices, k) - 1
    decreases k
  {
    hide Shl, Shr, LeavesFrom, CountBelow, Trailing, PeaksBelow, Plan, MountainPlan, Singles;
    TrailingUnfold(n, indices, k);
    if indices == [] {
      NewPeakTail(n, k);
      BareTails(n, k);
      assert indices + [n] == [n];
    } else if k == 1 {
      LowestRow(n, indices);
    } else {
      EvenSuccessor(n, k - 1);
      if Shr(n, k - 1) % 2 == 0 {
        LeavesSkip(n, indices, k);
        PlanSkip(n, indices, k);
        PlanSkip(n + 1, indices + [n], k);
        NewPeakPlan(n, indices, k - 1);
      } else {
        var c := Coord(k - 1, Shr(n, k - 1) - 1);
        var t := CountBelow(indices, Shl(c.j + 1, c.h));
        LeavesSplit(n, indices, k);
        NewPeakPlan(n, indices[t..], k - 1);
        NewPeakMountain(n, indices, c, t);
      }
    }
  }

  /** Going past a mountain, the new leaf stays among those to come. */
  lemma NewPeakMountain(n: nat, indices: seq<nat>, c: Coord, t: nat)
    requires n % 2 == 0 && c.h > 0 && indices != [] && t == CountBelow(indices, Shl(c.j + 1, c.h))
    requires Shr(n, c.h) == Shr(n + 1, c.h) == c.j + 1 && c.j % 2 == 0 && Shl(c.j + 1, c.h) <= n
    ensures |Plan(n + 1, indices + [n], c.h + 1)| - |Plan(n, indices, c.h + 1)|
            == |Plan(n + 1, indices[t..] + [n], c.h)| - |Plan(n, indices[t..], c.h)|
    ensures Plan(n + 1, indices[t..] + [n], c.h) == Plan(n, indices[t..], c.h) ==>
              Plan(n + 1, indices + [n], c.h + 1) == Plan(n, indices, c.h + 1)
  {
    hide Shl, Shr, CountBelow, Plan, MountainPlan, HashPlan, PeaksBelow;
    var more := indices + [n];
    PlanUnfolds(n, indices, c);
    PlanUnfolds(n + 1, more, c);
    CountSame(indices, n, Shl(c.j + 1, c.h));
    assert more[..t] == indices[..t] && more[t..] == indices[t..] + [n];
  }

  lemma PlanUnfolds(n: nat, indices: seq<nat>, c: Coord)
    requires Shr(n, c.h) == c.j + 1 && c.j % 2 == 0 && indices != []
    ensures var t := CountBelow(indices, Shl(c.j + 1, c.h));
            Plan(n, indices, c.h + 1) == MountainPlan(indices[..t], c) + Plan(n, indices[t..], c.h)
  {
    hide Shl, Shr, CountBelow, Plan, MountainPlan, HashPlan, PeaksBelow;
    PlanUnfold(n, indices, c.h + 1);
  }

  lemma BareTails(n: nat, k: nat)
    ensures |PeaksBelow(n, k)| <= 1 ==> Plan(n, [], k) == Singles(PeaksBelow(n, k))
    ensures |PeaksBelow(n, k)| > 1 ==> |Plan(n, [], k)| == 1
    ensures |Singles(PeaksBelow(n, k))| == |PeaksBelow(n, k)|
  {
    hide PeaksBelow;
    var ps := PeaksBelow(n, k);
    if |ps| == 1 { assert ps == [ps[0]]; }
  }

  lemma LowestRow(n: nat, indices: seq<nat>)
    requires LeavesFrom(n, indices, 1) && n % 2 == 0
    ensures indices == []
  {
    hide LeavesFrom;
    assert Shr(n, 0) == n;
    LeavesSkip(n, indices, 1);
    LeavesDone(n, indices);
  }

  lemma {:induction false} CountSame(s: seq<nat>, x: nat, bound: nat)
    requires bound <= x
    ensures CountBelow(s + [x], bound) == CountBelow(s, bound)
  {
    if s != [] {
      CountSame(s[1..], x, bound);
      assert (s + [x])[1..] == s[1..] + [x];
    }
  }

  lemma {:induction false} FirstBeyondIs(peaks: seq<nat>, pos: nat, u: nat)
    requires u < |peaks| && peaks[u] >= pos && forall i :: 0 <= i < u ==> peaks[i] < pos
    ensures FirstBeyond(peaks, pos) == u
  {
    if u > 0 { FirstBeyondIs(peaks[1..], pos, u - 1); }
  }

  /** The peaks left of the new leaf's mountain are those the push leaves alone. */
  lemma MergePoint(n: nat)
    requires n > 0
    ensures var u := |Unchanged(n, n + 1, BitLength(n + 1))|;
            FirstBeyond(Positions(Peaks(n + 1)), Size(n)) == u < |Peaks(n + 1)|
  {
    hide Shr, PeaksBelow, Pos, Unchanged, Merging, Peaks, Size, BitLength;
    var us := Unchanged(n, n + 1, BitLength(n + 1));
    var d, ps := Merging(n, n + 1, BitLength(n + 1)), Positions(Peaks(n + 1));
    PeaksPart(n, n + 1);
    forall i | 0 <= i < |us|
      ensures ps[i] < Size(n)
    {
      assert Peaks(n + 1)[i] == us[i] == Peaks(n)[i];
      PeaksInForest(n, us[i]);
      InForestPos(n, us[i].h, us[i].j);
    }
    var c := Coord(d, Shr(n + 1, d) - 1);
    assert Peaks(n + 1)[|us|] == c;
    InForestPos(n, c.h, c.j);
    FirstBeyondIs(ps, Size(n), |us|);
  }

  // ----- the two branches -----

  /** The hashes an honest proof gives, also in the shortcut for a single leaf. */
  lemma HonestPeaksHashes<T>(m: Hasher<T>, ls: seq<T>, positions: seq<nat>, leaves: seq<Leaf<T>>)
    requires ls != [] && positions != [] && LeavesFor(ls, positions, leaves)
    requires forall p :: p in positions ==> LeafPosition(|ls|, p)
    ensures var n, idx := |ls|, LeafIndices(positions);
            PlanIn(n, HashPlan(n, idx, BitLength(n)))
            && PeaksHashes(m, leaves, Size(n), ProofItems(m, ls, positions))
               == Ok(ItemValues(m, ls, HashPlan(n, idx, BitLength(n))))
  {
    hide LeafPosition, Size, Block, Distinct, Positions, HashPlan, PeakHashes, PlanIn, LeafIndices, ItemValues,
         ProofItems, Peaks, MaxLeaves;
    var n := |ls|;
    NoNodes(ls, positions, leaves);
    HonestHashes(m, ls, positions, leaves);
    var hashes := ItemValues(m, ls, HashPlan(n, LeafIndices(positions), BitLength(n)));
    assert hashes + [] == hashes;
    if Size(n) == 1 && |leaves| == 1 && leaves[0].pos == 0 {
      ShortcutHashes(m, ls, leaves, ProofItems(m, ls, positions), hashes);
    }
  }

  lemma LoneHashes<T>(m: Hasher<T>, leaves: seq<Leaf<T>>, proof: seq<T>)
    requires |leaves| == 1 && leaves[0].pos == 0
    ensures PeakHashes(m, leaves, [0], proof) == Ok(([leaves[0].item], [], proof))
  {
    hide PeakWalk;
    assert UpTo(leaves, 0) == 1 by { assert UpTo(leaves[1..], 0) == 0; }
    var peaks: seq<nat> := [0];
    var none: seq<Leaf<T>> := [];
    assert leaves[..1] == leaves && leaves[1..] == none;
    assert peaks[1..] == [];
    assert PeakHashes(m, none, peaks[1..], proof) == Ok(([], none, proof));
    assert [leaves[0].item] + [] == [leaves[0].item];
  }

  lemma ShortcutHashes<T>(m: Hasher<T>, ls: seq<T>, leaves: seq<Leaf<T>>, proof: seq<T>, hashes: seq<T>)
    requires Size(|ls|) == 1 && |leaves| == 1 && leaves[0].pos == 0
    requires PeakHashes(m, Distinct(LeafKey, leaves), Positions(Peaks(MaxLeaves(Size(|ls|)))), proof) == Ok((hashes, [], []))
    ensures hashes == [leaves[0].item]
  {
    hide Size, MaxLeaves, Peaks, PeakHashes, Positions;
    SizeAboveOne(|ls|);
    SizeZero(|ls|);
    MaxLeavesOfSize(1);
    SizeOne();
    LoneDistinct(leaves);
    LoneHashes(m, leaves, proof);
  }

  lemma SizeZero(n: nat)
    ensures n == 0 ==> Size(n) == 0
    ensures Positions([Coord(0, 0)]) == [0]
  {
    hide Pos, Size, Positions, Height, Block;
    SizeOfNone();
    LeafPos(0);
    PositionsOne(Coord(0, 0));
  }

  lemma SizeOfNone()
    ensures Size(0) == 0
  {
  }

  lemma LoneDistinct<T>(leaves: seq<Leaf<T>>)
    requires |leaves| == 1
    ensures Distinct(LeafKey, leaves) == leaves
  {
    assert Distinct(LeafKey, leaves[1..]) == [];
  }

  /** A right-child leaf: the collected peaks, with the absorbed ones reversed, prove it. */
  lemma MergeBranch<T>(m: Hasher<T>, ls: seq<T>, hashes: seq<T>, x: T)
    requires ls != [] && Size(|ls| + 1) <= SIZE_LIMIT
    requires |hashes| <= |PeakValues(MmrCombine(m), ls)|
    ensures var n, u := |ls|, |Unchanged(|ls|, |ls| + 1, BitLength(|ls| + 1))|;
            && u <= |PeakValues(MmrCombine(m), ls)|
            && Size(n) <= SIZE_LIMIT
            && (u <= |hashes| && hashes == PeakValues(MmrCombine(m), ls) ==>
                  CalculatedRoot(m, [Leaf(Size(n), x)], Size(n + 1), ReverseFrom(hashes, u))
                  == Ok(Root(m, MmrCombine(m), ls + [x])))
            && (u <= |hashes| < |PeakValues(MmrCombine(m), ls)| ==>
                  CalculatedRoot(m, [Leaf(Size(n), x)], Size(n + 1), ReverseFrom(hashes, u)) == Err(CorruptedProof))
  {
    hide Size, PeakValues, MmrCombine, Unchanged, ProofItems, CalculatedRoot, NewPositions, LeavesFor, BitLength, ReverseFrom,
         LeafPosition, Root;
    var n, f := |ls|, MmrCombine(m);
    var u, grown := |Unchanged(n, n + 1, BitLength(n + 1))|, ls + [x];
    SizeMono(n, n + 1);
    assert grown[..n] == ls && grown[n..] == [x];
    IncrementalItems(m, grown, n);
    NewLeavesFor(grown, n);
    OneNewLeaf(grown, n);
    MultiLeafCompleteness(m, grown, NewPositions(n, n + 1), [Leaf(Size(n), x)]);
    if u <= |hashes| < |PeakValues(f, ls)| {
      StarvedMerge(m, grown, n, [Leaf(Size(n), x)], ReverseFrom(hashes, u));
    }
  }

  lemma OneNewLeaf<T>(ls: seq<T>, n: nat)
    requires n + 1 == |ls| && Size(n + 1) <= SIZE_LIMIT && Size(n) <= SIZE_LIMIT
    ensures NewLeaves(n, ls[n..]) == [Leaf(Size(n), ls[n])]
    ensures forall hs: seq<T>, u: nat {:trigger ReverseFrom(hs, u)} :: u <= |hs| ==> |ReverseFrom(hs, u)| == |hs|
  {
    hide Size;
  }

  /** Fewer items than old peaks cannot prove the new leaf. */
  lemma StarvedMerge<T>(m: Hasher<T>, ls: seq<T>, n: nat, leaves: seq<Leaf<T>>, proof: seq<T>)
    requires n > 0 && |ls| == n + 1 && |proof| < |PeakValues(MmrCombine(m), ls[..n])|
    requires |leaves| == 1 && leaves[0].pos == Size(n)
    ensures CalculatedRoot(m, leaves, Size(n + 1), proof) == Err(CorruptedProof)
  {
    hide Size, PeakValues, MmrCombine, Unchanged, Plan, PeakHashes, LeafIndices, ReverseFrom, LeavesFrom, Distinct,
         Positions, Peaks, MaxLeaves, PeaksBelow, Height, Bag, ItemValues, PlanIn, Node, Trailing, LeafPosition, BitLength;
    NewIndices(n, n + 1);
    OneRange(n);
    IndicesFrom(n + 1, NewPositions(n, n + 1));
    IncrementalItems(m, ls, n);
    PlanLength(m, ls, n);
    LastLeafTrails(n + 1, [n], BitLength(n + 1));
    ShortProof(m, n + 1, [n], leaves, BitLength(n + 1), proof);
    MaxLeavesOfSize(n + 1);
    LeafPos(n);
    PeaksFromAll(n + 1);
    StarvedErr(m, leaves, n + 1, proof);
  }

  lemma PeaksFromAll(n: nat)
    ensures PeaksBelow(n, BitLength(n)) == Peaks(n)
  {
  }

  lemma OneRange(n: nat)
    ensures Range(n, n + 1) == [n]
  {
    assert Range(n + 1, n + 1) == [];
  }

  lemma PlanLength<T>(m: Hasher<T>, ls: seq<T>, n: nat)
    requires 0 < n && |ls| == n + 1
    ensures forall p :: p in NewPositions(n, |ls|) ==> LeafPosition(|ls|, p)
    ensures |ProofItems(m, ls, NewPositions(n, |ls|))| == |Plan(|ls|, [n], BitLength(|ls|))|
    ensures forall hs: seq<T>, u: nat {:trigger ReverseFrom(hs, u)} :: u <= |hs| ==> |ReverseFrom(hs, u)| == |hs|
  {
    hide Plan, LeafPosition, NewPositions, BitLength, LeafIndices, ItemValue, LeavesFrom;
    NewIndices(n, |ls|);
    OneRange(n);
  }

  lemma StarvedErr<T>(m: Hasher<T>, leaves: seq<Leaf<T>>, n: nat, proof: seq<T>)
    requires n > 1 && leaves != [] && forall i :: 0 <= i < |leaves| ==> Height(leaves[i].pos) == 0
    requires Starved(PeakHashes(m, Distinct(LeafKey, leaves), Positions(Peaks(MaxLeaves(Size(n)))), proof))
             || (|leaves| == 1 && Starved(PeakHashes(m, leaves, Positions(Peaks(MaxLeaves(Size(n)))), proof)))
    ensures CalculatedRoot(m, leaves, Size(n), proof) == Err(CorruptedProof)
  {
    hide Size, PeakHashes, Positions, Peaks, MaxLeaves, Height, Bag, Distinct;
    SizeAboveOne(n);
    if |leaves| == 1 { LoneDistinct(leaves); }
  }

  /** A left-child leaf: with the leaf as a peak of its own, the old items prove it along with the rest. */
  lemma PeakBranch<T>(m: Hasher<T>, ls: seq<T>, positions: seq<nat>, leaves: seq<Leaf<T>>, x: T)
    requires ls != [] && |ls| % 2 == 0 && positions != [] && LeavesFor(ls, positions, leaves)
    requires forall p :: p in positions ==> LeafPosition(|ls|, p)
    requires Size(|ls| + 1) <= SIZE_LIMIT && Size(|ls|) <= SIZE_LIMIT
    ensures var n := |ls|;
            var r := CalculatedRoot(m, leaves + [Leaf(Size(n), x)], Size(n + 1), ProofItems(m, ls, positions));
            if Trailing(n, LeafIndices(positions), BitLength(n)) <= 1 then r == Ok(Root(m, MmrCombine(m), ls + [x]))
            else r == Err(CorruptedProof)
  {
    hide Size, Root, MmrCombine, ProofItems, CalculatedRoot, LeafIndices, BitLength, Trailing, LeavesFor, LeafPosition,
         LeavesFrom;
    var n, idx := |ls|, LeafIndices(positions);
    var grown, more, placed := ls + [x], positions + [Size(n)], leaves + [Leaf(Size(n), x)];
    IndicesFrom(n, positions);
    OneMoreLeaf(ls, positions, leaves, x);
    BitLengthEven(n);
    NewPeakPlan(n, idx, BitLength(n));
    if Trailing(n, idx, BitLength(n)) <= 1 {
      SameItems(m, ls, positions, x);
      MultiLeafCompleteness(m, grown, more, placed);
    } else {
      StarvedPeak(m, ls, positions, leaves, x);
    }
  }

  lemma BitLengthEven(n: nat)
    requires n > 0 && n % 2 == 0
    ensures BitLength(n + 1) == BitLength(n) > 0
  {
    assert (n + 1) / 2 == n / 2;
  }

  /** The old leaves and the new one, as leaves of the grown forest. */
  lemma OneMoreLeaf<T>(ls: seq<T>, positions: seq<nat>, leaves: seq<Leaf<T>>, x: T)
    requires LeavesFor(ls, positions, leaves) && Size(|ls|) <= SIZE_LIMIT
    requires forall p :: p in positions ==> LeafPosition(|ls|, p)
    ensures var more := positions + [Size(|ls|)];
            && (forall p :: p in more ==> LeafPosition(|ls| + 1, p))
            && LeavesFor(ls + [x], more, leaves + [Leaf(Size(|ls|), x)])
            && LeafIndices(more) == LeafIndices(positions) + [|ls|]
  {
    hide Size, Height, Block, LeafIndices;
    var n, l := |ls|, Leaf(Size(|ls|), x);
    var more, placed := positions + [Size(n)], leaves + [l];
    SizeMono(n, n + 1);
    LeafPlace(n + 1, n);
    forall p | p in positions
      ensures LeafPosition(n + 1, p) && Block(p) < n
    {
      LeafIndex(n, p);
    }
    assert LeafPositions(placed) == LeafPositions(leaves) + [Size(n)];
    forall l' | l' in placed
      ensures LeafPosition(n + 1, l'.pos) && Block(l'.pos) < n + 1 && l'.item == (ls + [x])[Block(l'.pos)]
    {
      if l' in leaves { LeafIndex(n, l'.pos); } else { assert l' == l; }
    }
    MoreIndices(n, positions);
  }

  lemma MoreIndices(n: nat, positions: seq<nat>)
    requires forall p :: p in positions ==> LeafPosition(n, p)
    ensures LeafIndices(positions + [Size(n)]) == LeafIndices(positions) + [n]
  {
    hide Size, Height, Block, Distinct;
    var more := positions + [Size(n)];
    var ps, qs := Distinct<nat>(PosKey, positions), Distinct<nat>(PosKey, more);
    DistinctAscending(positions);
    DistinctAscending(more);
    LeafPos(n);
    forall i | 0 <= i < |ps|
      ensures ps[i] < Size(n)
    {
      assert ps[i] in ps;
    }
    assert forall p :: p in more <==> p in positions || p == Size(n);
    AscendingUnique(qs, ps + [Size(n)]);
  }

  /** Nodes of the old forest keep their values, so its items are items of the grown one. */
  lemma SameItems<T>(m: Hasher<T>, ls: seq<T>, positions: seq<nat>, x: T)
    requires forall p :: p in positions ==> LeafPosition(|ls|, p)
    requires forall p :: p in positions + [Size(|ls|)] ==> LeafPosition(|ls| + 1, p)
    requires Plan(|ls| + 1, LeafIndices(positions + [Size(|ls|)]), BitLength(|ls| + 1))
             == Plan(|ls|, LeafIndices(positions), BitLength(|ls|))
    ensures ProofItems(m, ls + [x], positions + [Size(|ls|)]) == ProofItems(m, ls, positions)
  {
    hide Size, LeafPosition, Plan, LeafIndices, BitLength, LeavesFrom, MmrCombine, Node, Bag;
    IndicesFrom(|ls|, positions);
    PlanInForest(|ls|, LeafIndices(positions), BitLength(|ls|));
    ItemsPrefix(m, ls, x, Plan(|ls|, LeafIndices(positions), BitLength(|ls|)));
  }

  lemma ItemsPrefix<T>(m: Hasher<T>, ls: seq<T>, x: T, plan: seq<Item>)
    requires PlanIn(|ls|, plan)
    ensures PlanIn(|ls + [x]|, plan) && ItemValues(m, ls + [x], plan) == ItemValues(m, ls, plan)
  {
    hide AllIn, Values, MmrCombine, Bag;
    forall i | 0 <= i < |plan|
      ensures AllIn(|ls + [x]|, plan[i]) && ItemValue(m, ls + [x], plan[i]) == ItemValue(m, ls, plan[i])
    {
      ValuesPrefix(MmrCombine(m), ls, [x], plan[i]);
    }
  }

  /** A bagged tail holds too few items for the grown forest. */
  lemma StarvedPeak<T>(m: Hasher<T>, ls: seq<T>, positions: seq<nat>, leaves: seq<Leaf<T>>, x: T)
    requires ls != [] && |ls| % 2 == 0 && LeavesFor(ls, positions, leaves) && positions != []
    requires forall p :: p in positions ==> LeafPosition(|ls|, p)
    requires Size(|ls|) <= SIZE_LIMIT
    requires Trailing(|ls|, LeafIndices(positions), BitLength(|ls|)) > 1
    ensures CalculatedRoot(m, leaves + [Leaf(Size(|ls|), x)], Size(|ls| + 1), ProofItems(m, ls, positions))
            == Err(CorruptedProof)
  {
    hide Size, MmrCombine, LeafIndices, BitLength, Trailing, LeavesFor, LeafPosition, LeavesFrom, Plan, Distinct,
         CalculatedRoot, PeakHashes, Positions, Peaks, PeaksBelow, MaxLeaves, Height, Starved, TrueLeaves, Placed;
    var n, idx := |ls|, LeafIndices(positions);
    var more, placed := positions + [Size(n)], leaves + [Leaf(Size(n), x)];
    IndicesFrom(n, positions);
    OneMoreLeaf(ls, positions, leaves, x);
    IndicesFrom(n + 1, more);
    BitLengthEven(n);
    NewPeakPlan(n, idx, BitLength(n));
    LastLeafTrails(n + 1, idx + [n], BitLength(n + 1));
    LeavesForTrue(ls + [x], more, placed);
    TruePlaced(ls + [x], idx + [n], Distinct(LeafKey, placed));
    ItemCount(m, ls, positions);
    ShortProof(m, n + 1, idx + [n], Distinct(LeafKey, placed), BitLength(n + 1), ProofItems(m, ls, positions));
    MaxLeavesOfSize(n + 1);
    PeaksFromAll(n + 1);
    NoNodes(ls + [x], more, placed);
    StarvedErr(m, placed, n + 1, ProofItems(m, ls, positions));
  }

  lemma TruePlaced<T>(ls: seq<T>, indices: seq<nat>, leaves: seq<Leaf<T>>)
    requires TrueLeaves(ls, indices, leaves)
    ensures Placed(indices, leaves)
  {
    hide Size;
  }

  lemma ItemCount<T>(m: Hasher<T>, ls: seq<T>, positions: seq<nat>)
    requires forall p :: p in positions ==> LeafPosition(|ls|, p)
    ensures |ProofItems(m, ls, positions)| == |Plan(|ls|, LeafIndices(positions), BitLength(|ls|))|
  {
    hide LeafPosition, Plan, LeafIndices, BitLength, ItemValue, LeavesFrom;
  }

  // ----- the result -----

  /** The hashes of an honest proof number one less for each bagged peak beyond the first. */
  lemma {:induction false} HashCount(n: nat, indices: seq<nat>, k: nat)
    requires LeavesFrom(n, indices, k)
    ensures Trailing(n, indices, k) <= 1 ==> |HashPlan(n, indices, k)| == |PeaksBelow(n, k)|
    ensures Trailing(n, indices, k) > 1 ==>
              |HashPlan(n, indices, k)| == |PeaksBelow(n, k)| - (Trailing(n, indices, k) - 1)
    decreases k
  {
    hide Shl, Shr, LeavesFrom, CountBelow, Trailing, PeaksBelow, HashPlan, Plan, MountainPlan, Climb, Row, InForest;
    TrailingUnfold(n, indices, k);
    if indices == [] {
      HashTail(n, k);
    } else if k == 0 {
      LeavesDone(n, indices);
    } else if Shr(n, k - 1) % 2 == 0 {
      LeavesSkip(n, indices, k);
      PlanSkip(n, indices, k);
      HashCount(n, indices, k - 1);
    } else {
      var c := Coord(k - 1, Shr(n, k - 1) - 1);
      var later := indices[CountBelow(indices, Shl(c.j + 1, c.h))..];
      LeavesSplit(n, indices, k);
      PlanUnfold(n, indices, k);
      HashCount(n, later, k - 1);
      assert |HashPlan(n, indices, k)| == 1 + |HashPlan(n, later, k - 1)|;
    }
  }

  lemma HashTail(n: nat, k: nat)
    ensures |HashPlan(n, [], k)| == if PeaksBelow(n, k) == [] then 0 else 1
  {
    hide PeaksBelow;
  }

  /** The branch of a leaf that completes a parent. */
  lemma OddBranch<T>(m: Hasher<T>, ls: seq<T>, positions: seq<nat>, leaves: seq<Leaf<T>>, x: T, hashes: seq<T>)
    requires ls != [] && positions != [] && LeavesFor(ls, positions, leaves)
    requires forall p :: p in positions ==> LeafPosition(|ls|, p)
    requires Size(|ls| + 1) <= SIZE_LIMIT && Size(|ls|) <= SIZE_LIMIT
    requires PlanIn(|ls|, HashPlan(|ls|, LeafIndices(positions), BitLength(|ls|)))
    requires hashes == ItemValues(m, ls, HashPlan(|ls|, LeafIndices(positions), BitLength(|ls|)))
    ensures var n, peaks := |ls|, Positions(Peaks(|ls| + 1));
            var i := FirstBeyond(peaks, Size(n));
            && i < |peaks|
            && if Trailing(n, LeafIndices(positions), BitLength(n)) <= 1 then
                 i <= |hashes|
                 && CalculatedRoot(m, [Leaf(Size(n), x)], Size(n + 1), ReverseFrom(hashes, i))
                    == Ok(Root(m, MmrCombine(m), ls + [x]))
               else
                 i <= |hashes| ==>
                   CalculatedRoot(m, [Leaf(Size(n), x)], Size(n + 1), ReverseFrom(hashes, i)) == Err(CorruptedProof)
  {
    hide Size, Root, MmrCombine, CalculatedRoot, LeafIndices, BitLength, Trailing, LeavesFor, LeafPosition, ReverseFrom,
         LeavesFrom, Peaks, Positions, FirstBeyond, HashPlan, ItemValues, PlanIn, Unchanged, PeakValues;
    IndicesFrom(|ls|, positions);
    MergePoint(|ls|);
    CollectedCount(m, ls, LeafIndices(positions));
    MergeBranch(m, ls, hashes, x);
  }

  /**
   The root after one more push, exactly when at most one peak trails the last proved leaf; with two
   or more the bagged item stands in for several, and the call fails.
   */
  lemma NextRoot<T>(m: Hasher<T>, ls: seq<T>, positions: seq<nat>, leaves: seq<Leaf<T>>, x: T)
    requires ls != [] && positions != [] && LeavesFor(ls, positions, leaves)
    requires forall p :: p in positions ==> LeafPosition(|ls|, p)
    requires Size(|ls| + 1) <= SIZE_LIMIT && Size(|ls|) <= SIZE_LIMIT
    ensures var n := |ls|;
            var r := RootWithNewLeaf(m, leaves, Size(n), x, Size(n + 1), Size(n), ProofItems(m, ls, positions));
            if Trailing(n, LeafIndices(positions), BitLength(n)) <= 1 then r == Ok(Root(m, MmrCombine(m), ls + [x]))
            else r.Err?
  {
    hide Size, Root, MmrCombine, ProofItems, CalculatedRoot, LeafIndices, BitLength, Trailing, LeavesFor, LeafPosition,
         LeavesFrom, Peaks, Positions, FirstBeyond, PeaksHashes, HashPlan, ItemValues, PlanIn, MaxLeaves, Height,
         ReverseFrom, Pos;
    var n := |ls|;
    NextHeight(0, n);
    LeafPos(n);
    if n % 2 == 0 {
      PeakBranch(m, ls, positions, leaves, x);
    } else {
      HonestPeaksHashes(m, ls, positions, leaves);
      MaxLeavesOfSize(n + 1);
      OddBranch(m, ls, positions, leaves, x, ItemValues(m, ls, HashPlan(n, LeafIndices(positions), BitLength(n))));
    }
  }

  /** The collected hashes: all peaks when at most one trails, else fewer. */
  lemma CollectedCount<T>(m: Hasher<T>, ls: seq<T>, idx: seq<nat>)
    requires ls != [] && LeavesFrom(|ls|, idx, BitLength(|ls|))
    ensures PlanIn(|ls|, HashPlan(|ls|, idx, BitLength(|ls|)))
    ensures var hashes := ItemValues(m, ls, HashPlan(|ls|, idx, BitLength(|ls|)));
            var peaks := PeakValues(MmrCombine(m), ls);
            && |Positions(Peaks(|ls| + 1))| == |Peaks(|ls| + 1)|
            && (Trailing(|ls|, idx, BitLength(|ls|)) <= 1 ==> hashes == peaks)
            && (Trailing(|ls|, idx, BitLength(|ls|)) > 1 ==> |hashes| < |peaks|)
  {
    hide Trailing, HashPlan, PeaksBelow, LeavesFrom, InForest, Node, MmrCombine, BitLength, Pos;
    var n, k := |ls|, BitLength(|ls|);
    PlanInForest(n, idx, k);
    HashCount(n, idx, k);
    PeaksFromAll(n);
    PeaksAllIn(n);
    if Trailing(n, idx, k) <= 1 {
      HashPlanFlat(n, idx, k);
      SinglesValues(m, ls, Peaks(n));
    }
  }
}
