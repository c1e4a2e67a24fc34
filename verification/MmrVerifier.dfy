/**
 The verifying half of `src/mmr.rs`, loop by loop, against the functions of module ProofSpec.
 Nothing is assumed about the leaves or the proof items.
 */
module MmrVerifier {
  import opened Bits
  import opened Forest
  import opened Helper
  import opened PeakIterators
  import opened Nodes
  import opened Bagging
  import opened QueueWalk
  import opened ProofSpec
  import opened Wrappers

  /** `take_while_vec` */
  method TakeWhileVec<A>(v: seq<A>, p: A -> bool) returns (taken: seq<A>, rest: seq<A>)
    ensures taken + rest == v
    ensures forall i :: 0 <= i < |taken| ==> p(taken[i])
    ensures rest == [] || !p(rest[0])
  {
    for i := 0 to |v|
      invariant forall k :: 0 <= k < i ==> p(v[k])
    {
      if !p(v[i]) {
        return v[..i], v[i..];
      }
    }
    return v, [];
  }

  lemma {:induction false} UpToUnique<T>(leaves: seq<Leaf<T>>, peakPos: nat, k: nat)
    requires k <= |leaves|
    requires forall i :: 0 <= i < k ==> leaves[i].pos <= peakPos
    requires k < |leaves| ==> leaves[k].pos > peakPos
    ensures UpTo(leaves, peakPos) == k
  {
    if k > 0 {
      UpToUnique(leaves[1..], peakPos, k - 1);
    }
  }

  // ----- one mountain -----

  /** The tracked height is the true one. */
  ghost predicate TrueHeights<T>(q: seq<Entry<T>>) {
    forall i :: 0 <= i < |q| ==> q[i].height == Height(q[i].pos)
  }

  /** With a true height no step of the queue leaves the range of a u64, and the parent's height is true. */
  lemma EntryStep<T>(e: Entry<T>)
    requires e.height == Height(e.pos) && e.pos < SIZE_LIMIT
    ensures e.height <= 61
    ensures 0 <= SibPos(e) < 3 * SIZE_LIMIT && ParentPos(e) < 3 * SIZE_LIMIT
    ensures IsRight(e) ==> Height(e.pos + 1) == e.height + 1
    ensures Height(ParentPos(e)) == e.height + 1
  {
    hide Pos, Height, Pow2, Block, Size, MaxLeaves, Sib;
    var h, j := e.height, Block(e.pos);
    HeightLimit(e.pos);
    PosOfCoord(e.pos);
    StepOf(e, j);
    Pow2Limit(h + 1);
  }

  lemma TrueHeightsStep<T>(q: seq<Entry<T>>, e: Entry<T>)
    requires TrueHeights(q) && q != [] && e.height == Height(e.pos)
    ensures TrueHeights(Behind(q) + [e])
  {
    hide Height, SibPos;
    var k := if SiblingQueued(q) then 2 else 1;
    assert Behind(q) == q[k..];
    assert forall i :: 0 <= i < |q| - k ==> (q[k..] + [e])[i] == q[k + i];
  }

  /** The loop's state: true heights below the peak, and the value still to be computed. */
  ghost predicate Walking<T>(m: Hasher<T>, q: seq<Entry<T>>, peakPos: nat, proof: seq<T>, goal: Result<(T, seq<T>)>) {
    Below(q, peakPos) && TrueHeights(q) && PeakWalk(m, q, peakPos, proof) == goal
  }

  lemma WalkStart<T>(m: Hasher<T>, leaves: seq<Leaf<T>>, peakPos: nat, proof: seq<T>)
    requires forall i :: 0 <= i < |leaves| ==> leaves[i].pos <= peakPos && Height(leaves[i].pos) == 0
    ensures Below(Queue(leaves), peakPos)
    ensures Walking(m, Queue(leaves), peakPos, proof, PeakWalk(m, Queue(leaves), peakPos, proof))
  {
    hide Height, PeakWalk;
  }

  lemma WalkEnds<T>(m: Hasher<T>, q: seq<Entry<T>>, peakPos: nat, proof: seq<T>, goal: Result<(T, seq<T>)>)
    requires Walking(m, q, peakPos, proof, goal)
    ensures q == [] ==> goal == Err(CorruptedProof)
    ensures q != [] ==> q[0].pos <= peakPos && q[0].height == Height(q[0].pos)
    ensures q != [] && q[0].pos == peakPos ==> goal == if |q| == 1 then Ok((q[0].item, proof)) else Err(CorruptedProof)
  {
    hide Height, Work;
  }

  /** One turn of the loop, in the terms it computes with. */
  lemma WalkOn<T>(m: Hasher<T>, q: seq<Entry<T>>, peakPos: nat, proof: seq<T>, goal: Result<(T, seq<T>)>, sibling: T,
                  parent: Entry<T>)
    requires Walking(m, q, peakPos, proof, goal) && q != [] && q[0].pos != peakPos && peakPos < SIZE_LIMIT
    requires var e := q[0];
             var right := Height(e.pos + 1) > e.height;
             && parent.pos == (if right then e.pos + 1 else e.pos + Pow2(e.height + 1))
             && parent.item == (if right then m.merge(sibling, e.item) else m.merge(e.item, sibling))
             && parent.height == e.height + 1
    ensures PairedBy(q, Pow2(q[0].height + 1) - 1) ==>
              sibling == q[1].item ==>
                if parent.pos > peakPos then goal == Err(CorruptedProof)
                else Walking(m, q[2..] + [parent], peakPos, proof, goal)
                     && Work(q[2..] + [parent], peakPos) < Work(q, peakPos)
    ensures !PairedBy(q, Pow2(q[0].height + 1) - 1) && proof != [] ==>
              sibling == proof[0] ==>
                if parent.pos > peakPos then goal == Err(CorruptedProof)
                else Walking(m, q[1..] + [parent], peakPos, proof[1..], goal)
                     && Work(q[1..] + [parent], peakPos) < Work(q, peakPos)
  {
    hide Work, Height, Pow2;
    EntryStep(q[0]);
    TrueHeightsStep(q, parent);
    if parent.pos <= peakPos {
      WorkFalls(q, parent, peakPos);
    }
  }

  /** The queued sibling, by the distance of the two children at the front's height. */
  ghost predicate PairedBy<T>(q: seq<Entry<T>>, d: int)
    requires q != []
  {
    |q| > 1 && q[1].pos == if Height(q[0].pos + 1) > q[0].height then q[0].pos - d else q[0].pos + d
  }

  lemma WalkStuck<T>(m: Hasher<T>, q: seq<Entry<T>>, peakPos: nat, goal: Result<(T, seq<T>)>)
    requires Walking(m, q, peakPos, [], goal) && q != [] && q[0].pos != peakPos
    ensures !PairedBy(q, Pow2(q[0].height + 1) - 1) ==> goal == Err(CorruptedProof)
  {
    hide Work, Height, Pow2;
  }

  method CalculatePeakRoot<T>(m: Hasher<T>, leaves: seq<Leaf<T>>, peakPos: u64, proof: seq<T>)
    returns (root: Result<(T, seq<T>)>)
    requires peakPos < SIZE_LIMIT
    requires forall i :: 0 <= i < |leaves| ==> leaves[i].pos <= peakPos && Height(leaves[i].pos) == 0
    ensures root == PeakWalk(m, Queue(leaves), peakPos, proof)
  {
    hide Walking, Work, Height, Pow2, Queue, Below, PeakWalk;
    WalkStart(m, leaves, peakPos, proof);
    var queue := Queue(leaves);
    var proofIter := proof;
    ghost var goal := PeakWalk(m, queue, peakPos, proof);
    while |queue| > 0
      invariant Walking(m, queue, peakPos, proofIter, goal)
      decreases Work(queue, peakPos)
    {
      ghost var q, items := queue, proofIter;
      WalkEnds(m, queue, peakPos, proofIter, goal);
      var e := queue[0];
      queue := queue[1..];
      var pos: u64 := e.pos;
      if pos == peakPos {
        if |queue| == 0 {
          return Ok((e.item, proofIter));
        }
        return Err(CorruptedProof);
      }
      StepRoom(e, peakPos);
      var nextHeight := PosHeightInTree(pos + 1);
      var siblingOffset := SiblingOffset(e.height);
      var isRight := nextHeight > e.height;
      var sibPos: u64 := if isRight then pos - siblingOffset else pos + siblingOffset;
      var parentPos: u64 := if isRight then pos + 1 else pos + ParentOffset(e.height);
      var siblingItem: T;
      if |queue| > 0 && queue[0].pos == sibPos {
        siblingItem := queue[0].item;
        queue := queue[1..];
      } else if |proofIter| > 0 {
        siblingItem := proofIter[0];
        proofIter := proofIter[1..];
      } else {
        WalkStuck(m, q, peakPos, goal);
        return Err(CorruptedProof);
      }
      var parentItem := if isRight then m.merge(siblingItem, e.item) else m.merge(e.item, siblingItem);
      WalkOn(m, q, peakPos, items, goal, siblingItem, Entry(parentPos, parentItem, e.height + 1));
      assert |q| > 1 ==> q[2..] == q[1..][1..];
      if parentPos > peakPos {
        return Err(CorruptedProof);
      }
      queue := queue + [Entry(parentPos, parentItem, e.height + 1)];
    }
    WalkEnds(m, queue, peakPos, proofIter, goal);
    root := Err(CorruptedProof);
  }

  /** The positions around an entry with a true height fit a u64. */
  lemma StepRoom<T>(e: Entry<T>, peakPos: nat)
    requires e.height == Height(e.pos) && e.pos <= peakPos < SIZE_LIMIT
    ensures e.pos < 0x4000_0000_0000_0000 && e.height <= 61 && Pow2(e.height + 1) <= 0x4000_0000_0000_0000
    ensures Height(e.pos + 1) > e.height ==> e.pos >= Pow2(e.height + 1) - 1
  {
    hide Height, Pow2;
    EntryStep(e);
    Pow2Limit(e.height + 1);
  }

  // ----- all mountains -----

  /** Going on past a mountain whose value was found. */
  ghost function After<T>(m: Hasher<T>, r: Result<(T, seq<T>)>, left: seq<Leaf<T>>, peaks: seq<nat>)
    : Result<(seq<T>, seq<Leaf<T>>, seq<T>)>
  {
    if r.Err? then Err(r.error) else Prepend([r.value.0], PeakHashes(m, left, peaks, r.value.1))
  }

  lemma PeakHashesOn<T>(m: Hasher<T>, leaves: seq<Leaf<T>>, peakPos: nat, peaks: seq<nat>, proof: seq<T>)
    ensures var k := UpTo(leaves, peakPos);
            PeakHashes(m, leaves, [peakPos] + peaks, proof)
            == if k == 0 && proof == [] then Ok(([], leaves, proof))
               else After(m, MountainHash(m, leaves[..k], peakPos, proof), leaves[k..], peaks)
  {
    hide UpTo, MountainHash;
    assert ([peakPos] + peaks)[1..] == peaks;
  }

  function Prepend<T>(hashes: seq<T>, r: Result<(seq<T>, seq<Leaf<T>>, seq<T>)>): Result<(seq<T>, seq<Leaf<T>>, seq<T>)> {
    match r
    case Err(e) => Err(e)
    case Ok((more, left, rest)) => Ok((hashes + more, left, rest))
  }

  lemma PrependNone<T>(r: Result<(seq<T>, seq<Leaf<T>>, seq<T>)>)
    ensures Prepend([], r) == r
  {
    if r.Ok? { assert [] + r.value.0 == r.value.0; }
  }

  lemma PrependTwice<T>(a: seq<T>, b: seq<T>, r: Result<(seq<T>, seq<Leaf<T>>, seq<T>)>)
    ensures Prepend(a, Prepend(b, r)) == Prepend(a + b, r)
  {
    if r.Ok? { assert a + (b + r.value.0) == (a + b) + r.value.0; }
  }

  lemma MountainCases<T>(m: Hasher<T>, here: seq<Leaf<T>>, peakPos: nat, proof: seq<T>)
    requires forall i :: 0 <= i < |here| ==> here[i].pos <= peakPos
    ensures |here| == 1 && here[0].pos == peakPos ==> MountainHash(m, here, peakPos, proof) == Ok((here[0].item, proof))
    ensures here == [] && proof != [] ==> MountainHash(m, here, peakPos, proof) == Ok((proof[0], proof[1..]))
    ensures here != [] && !(|here| == 1 && here[0].pos == peakPos) ==>
              MountainHash(m, here, peakPos, proof) == PeakWalk(m, Queue(here), peakPos, proof)
  {
    hide PeakWalk, Queue;
  }

  lemma PeakPositionsBelow(n: nat, peaks: seq<nat>)
    requires peaks == Positions(Peaks(n))
    ensures forall i :: 0 <= i < |peaks| ==> peaks[i] < Size(n)
  {
    hide Peaks, Pos, Size, Shr;
    forall i | 0 <= i < |peaks|
      ensures peaks[i] < Size(n)
    {
      var c := Peaks(n)[i];
      PeaksInForest(n, c);
      InForestPos(n, c.h, c.j);
    }
  }

  /** How `calculate_peaks_hashes` treats nodes, and what it makes of the loop's outcome. */
  lemma PeaksHashesCases<T>(m: Hasher<T>, leaves: seq<Leaf<T>>, mmrSize: nat, proof: seq<T>)
    ensures (exists i :: 0 <= i < |leaves| && Height(leaves[i].pos) > 0) ==>
              PeaksHashes(m, leaves, mmrSize, proof) == Err(NodeProofsNotSupported)
    ensures (forall i :: 0 <= i < |leaves| ==> Height(leaves[i].pos) == 0) ==>
              PeaksHashes(m, leaves, mmrSize, proof)
              == if mmrSize == 1 && |leaves| == 1 && leaves[0].pos == 0 then Ok([leaves[0].item])
                 else Collected(PeakHashes(m, Distinct(LeafKey, leaves), Positions(Peaks(MaxLeaves(mmrSize))), proof))
  {
    hide Height, Distinct, PeakHashes, MaxLeaves, Peaks, Positions;
    var r := PeakHashes(m, Distinct(LeafKey, leaves), Positions(Peaks(MaxLeaves(mmrSize))), proof);
    if r.Ok? {
      var (hashes, left, rest) := r.value;
      assert hashes + [] == hashes;
      assert |rest| == 1 ==> rest == [rest[0]];
    }
  }

  /** At most one item may be left once every leaf is used: the bagged peaks. */
  function Collected<T>(r: Result<(seq<T>, seq<Leaf<T>>, seq<T>)>): Result<seq<T>> {
    if r.Err? then Err(r.error)
    else if r.value.1 != [] || |r.value.2| > 1 then Err(CorruptedProof)
    else Ok(if r.value.2 == [] then r.value.0 else r.value.0 + [r.value.2[0]])
  }

  lemma {:induction false} InsertHeights<T>(x: Leaf<T>, s: seq<Leaf<T>>)
    requires Height(x.pos) == 0 && forall i :: 0 <= i < |s| ==> Height(s[i].pos) == 0
    ensures forall i :: 0 <= i < |InsertFirst(LeafKey, x, s)| ==> Height(InsertFirst(LeafKey, x, s)[i].pos) == 0
  {
    hide Height;
    if s != [] {
      InsertHeights(x, s[1..]);
    }
  }

  lemma {:induction false} DistinctHeights<T>(leaves: seq<Leaf<T>>)
    requires forall i :: 0 <= i < |leaves| ==> Height(leaves[i].pos) == 0
    ensures forall i :: 0 <= i < |Distinct(LeafKey, leaves)| ==> Height(Distinct(LeafKey, leaves)[i].pos) == 0
  {
    hide Height;
    if leaves != [] {
      DistinctHeights(leaves[1..]);
      InsertHeights(leaves[0], Distinct(LeafKey, leaves[1..]));
    }
  }

  type Found<T> = Result<(seq<T>, seq<Leaf<T>>, seq<T>)>

  /** The loop's state: what is found so far, followed by what the remaining peaks give, is the goal. */
  ghost predicate Scanning<T>(m: Hasher<T>, left: seq<Leaf<T>>, peaks: seq<nat>, proof: seq<T>, found: seq<T>, goal: Found<T>) {
    && (forall i :: 0 <= i < |left| ==> Height(left[i].pos) == 0)
    && goal == Prepend(found, PeakHashes(m, left, peaks, proof))
  }

  lemma ScanStarts<T>(m: Hasher<T>, left: seq<Leaf<T>>, peaks: seq<nat>, proof: seq<T>)
    requires forall i :: 0 <= i < |left| ==> Height(left[i].pos) == 0
    ensures Scanning(m, left, peaks, proof, [], PeakHashes(m, left, peaks, proof))
  {
    hide Height, PeakHashes;
    PrependNone(PeakHashes(m, left, peaks, proof));
  }

  lemma ScanEnds<T>(m: Hasher<T>, left: seq<Leaf<T>>, proof: seq<T>, found: seq<T>, goal: Found<T>)
    requires Scanning(m, left, [], proof, found, goal)
    ensures goal == Ok((found, left, proof))
  {
    hide Height;
    assert found + [] == found;
  }

  lemma CutLeaves<A>(here: seq<A>, later: seq<A>, left: seq<A>)
    requires here + later == left
    ensures |here| <= |left| && here == left[..|here|] && later == left[|here|..]
    ensures forall i :: 0 <= i < |later| ==> later[i] == left[|here| + i]
    ensures forall i :: 0 <= i < |here| ==> here[i] == left[i]
  {
  }

  /** One turn of the loop over the peaks. */
  lemma ScanOn<T>(m: Hasher<T>, left: seq<Leaf<T>>, peakPos: nat, peaks: seq<nat>, proof: seq<T>, found: seq<T>,
                  goal: Found<T>, here: seq<Leaf<T>>, later: seq<Leaf<T>>)
    requires Scanning(m, left, [peakPos] + peaks, proof, found, goal)
    requires here + later == left && forall i :: 0 <= i < |here| ==> here[i].pos <= peakPos
    requires later == [] || later[0].pos > peakPos
    ensures forall i :: 0 <= i < |here| ==> Height(here[i].pos) == 0
    ensures if |here| == 1 && here[0].pos == peakPos then Scanning(m, later, peaks, proof, found + [here[0].item], goal)
            else if here == [] then
              if proof == [] then goal == Ok((found, left, proof))
              else Scanning(m, later, peaks, proof[1..], found + [proof[0]], goal)
            else
              var r := PeakWalk(m, Queue(here), peakPos, proof);
              if r.Err? then goal == Err(r.error)
              else Scanning(m, later, peaks, r.value.1, found + [r.value.0], goal)
  {
    hide Height, PeakWalk, Queue, PeakHashes, MountainHash, UpTo;
    CutLeaves(here, later, left);
    UpToUnique(left, peakPos, |here|);
    PeakHashesOn(m, left, peakPos, peaks, proof);
    MountainCases(m, here, peakPos, proof);
    assert found + [] == found;
    var r := MountainHash(m, here, peakPos, proof);
    if r.Ok? {
      PrependTwice(found, [r.value.0], PeakHashes(m, later, peaks, r.value.1));
    }
  }

  /** `calculate_peaks_hashes` */
  method CalculatePeaksHashes<T>(m: Hasher<T>, leaves: seq<Leaf<T>>, mmrSize: u64, proof: seq<T>)
    returns (hashes: Result<seq<T>>)
    requires mmrSize <= SIZE_LIMIT
    ensures hashes == PeaksHashes(m, leaves, mmrSize, proof)
  {
    hide Height, Distinct, PeakHashes, MaxLeaves, Peaks, Positions, Size, PeaksHashes, Scanning, PeakWalk, Queue;
    PeaksHashesCases(m, leaves, mmrSize, proof);
    for i := 0 to |leaves|
      invariant forall k :: 0 <= k < i ==> Height(leaves[k].pos) == 0
    {
      var height := PosHeightInTree(leaves[i].pos);
      if height > 0 {
        return Err(NodeProofsNotSupported);
      }
    }
    if mmrSize == 1 && |leaves| == 1 && leaves[0].pos == 0 {
      return Ok([leaves[0].item]);
    }
    DistinctHeights(leaves);
    var left := Distinct(LeafKey, leaves);
    var peaks := CollectPeaks(mmrSize);
    PeakPositionsBelow(MaxLeaves(mmrSize), peaks);
    ghost var goal := PeakHashes(m, left, peaks, proof);
    var proofIter := proof;
    var peaksHashes: seq<T> := [];
    ScanStarts(m, left, peaks, proof);
    var i := 0;
    assert peaks[0..] == peaks;
    while i < |peaks|
      invariant 0 <= i <= |peaks|
      invariant Scanning(m, left, peaks[i..], proofIter, peaksHashes, goal)
    {
      var peakPos := peaks[i];
      assert peaks[i..] == [peakPos] + peaks[i + 1..];
      var here, later := TakeWhileVec(left, (l: Leaf<T>) => l.pos <= peakPos);
      ScanOn(m, left, peakPos, peaks[i + 1..], proofIter, peaksHashes, goal, here, later);
      var peakRoot: T;
      if |here| == 1 && here[0].pos == peakPos {
        peakRoot := here[0].item;
      } else if |here| == 0 {
        if |proofIter| == 0 {
          break;
        }
        peakRoot := proofIter[0];
        proofIter := proofIter[1..];
      } else {
        var r := CalculatePeakRoot(m, here, peakPos, proofIter);
        if r.Err? {
          return Err(r.error);
        }
        peakRoot := r.value.0;
        proofIter := r.value.1;
      }
      left := later;
      peaksHashes := peaksHashes + [peakRoot];
      i := i + 1;
    }
    if i == |peaks| {
      assert peaks[i..] == [];
      ScanEnds(m, left, proofIter, peaksHashes, goal);
    }
    if |left| > 0 {
      return Err(CorruptedProof);
    }
    if |proofIter| > 0 {
      peaksHashes := peaksHashes + [proofIter[0]];
      proofIter := proofIter[1..];
    }
    if |proofIter| > 0 {
      return Err(CorruptedProof);
    }
    hashes := Ok(peaksHashes);
  }

  /** `bagging_peaks_hashes` */
  method BaggingPeaksHashes<T>(m: Hasher<T>, hashes: seq<T>) returns (root: Result<T>)
    ensures root == if hashes == [] then Err(CorruptedProof) else Ok(Bag(m, hashes))
  {
    var bagged := BagRhsPeaks(m, hashes);
    root := match bagged case None => Err(CorruptedProof) case Some(x) => Ok(x);
  }

  /** `calculate_root` */
  method CalculateRoot<T>(m: Hasher<T>, leaves: seq<Leaf<T>>, mmrSize: u64, proof: seq<T>) returns (root: Result<T>)
    requires mmrSize <= SIZE_LIMIT
    ensures root == CalculatedRoot(m, leaves, mmrSize, proof)
  {
    hide PeaksHashes;
    var hashes := CalculatePeaksHashes(m, leaves, mmrSize, proof);
    if hashes.Err? {
      return Err(hashes.error);
    }
    root := BaggingPeaksHashes(m, hashes.value);
  }
}
