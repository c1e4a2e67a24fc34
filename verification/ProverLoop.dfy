/** The two loops of `gen_proof` (`src/mmr.rs`), turn by turn. */
module ProverLoop {
  import opened Bits
  import opened Forest
  import opened Nodes
  import opened Bagging
  import opened ProofPlan
  import opened QueueWalk
  import opened ProofSpec
  import opened Completeness
  import opened MmrVerifier
  import opened Wrappers

  // ----- inside one mountain -----

  function LeafQueue(positions: seq<nat>): seq<Entry<()>> {
    seq(|positions|, i requires 0 <= i < |positions| => Entry(positions[i], (), 0))
  }

  /** The queue's state: these siblings are still to be fetched. */
  ghost predicate Asking(q: seq<Entry<()>>, peakPos: nat, sibs: seq<int>) {
    Below(q, peakPos) && TrueHeights(q) && SiblingWalk(q, peakPos) == Ok(sibs)
  }

  /** The leaves of a mountain ask for the siblings of the climb. */
  lemma AskStarts(c: Coord, here: seq<nat>, positions: seq<nat>)
    requires Climb(c, 0, here, []) && here != []
    requires |positions| == |here| && forall i :: 0 <= i < |here| ==> positions[i] == Size(here[i])
    ensures Asking(LeafQueue(positions), Pos(c.h, c.j), Positions(Siblings(0, here, [], c.h)))
    ensures positions[0] < Pos(c.h, c.j)
  {
    hide Pos, Size, Height, Siblings, Positions, SiblingWalk;
    var q := LeafQueue(positions);
    forall i | 0 <= i < |here|
      ensures q[i].pos == Pos(0, here[i]) && q[i].height == 0 == Height(q[i].pos)
    {
      LeafPos(here[i]);
    }
    ClimbBelow(q, c, 0, here, []);
    SiblingWalkIsClimb(q, c, 0, here, []);
    ClimbPositions(c, 0, here, []);
  }

  lemma AskEnds(q: seq<Entry<()>>, peakPos: nat, sibs: seq<int>)
    requires Asking(q, peakPos, sibs)
    ensures q == [] ==> sibs == []
    ensures q != [] ==> q[0].pos <= peakPos && q[0].height == Height(q[0].pos)
    ensures q != [] && q[0].pos == peakPos ==> |q| == 1 && sibs == []
  {
    hide Height, Work;
  }

  lemma AskUnfold(q: seq<Entry<()>>, peakPos: nat, sibs: seq<int>, parent: Entry<()>)
    requires Below(q, peakPos) && q != [] && q[0].pos != peakPos && SiblingWalk(q, peakPos) == Ok(sibs)
    requires parent == Entry(ParentPos(q[0]), (), q[0].height + 1)
    ensures !SiblingQueued(q) ==> sibs != [] && sibs[0] == SibPos(q[0])
    ensures var q' := if parent.pos < peakPos then Behind(q) + [parent] else Behind(q);
            Below(q', peakPos) && SiblingWalk(q', peakPos) == Ok(if SiblingQueued(q) then sibs else sibs[1..])
  {
    hide Work, SibPos, Behind, SiblingQueued, IsRight;
    WorkShrinks(q, peakPos);
    if parent.pos < peakPos {
      WorkFalls(q, parent, peakPos);
    }
    var tail := if parent.pos < peakPos then SiblingWalk(Behind(q) + [parent], peakPos) else SiblingWalk(Behind(q), peakPos);
    var first := if SiblingQueued(q) then [] else [SibPos(q[0])];
    assert tail.Ok? && sibs == first + tail.value;
    assert (first + tail.value)[|first|..] == tail.value;
  }

  /** One turn of the queue, in the terms it computes with. */
  lemma AskOn(q: seq<Entry<()>>, peakPos: nat, sibs: seq<int>, parentPos: nat)
    requires Asking(q, peakPos, sibs) && q != [] && q[0].pos != peakPos && peakPos < SIZE_LIMIT
    requires parentPos == if Height(q[0].pos + 1) > q[0].height then q[0].pos + 1
                           else q[0].pos + Pow2(q[0].height + 1)
    ensures var d := Pow2(q[0].height + 1) - 1;
            var paired := PairedBy(q, d);
            var rest := if paired then q[2..] else q[1..];
            var q' := if parentPos < peakPos then rest + [Entry(parentPos, (), q[0].height + 1)] else rest;
            && (!paired ==> sibs != [] && sibs[0] == if Height(q[0].pos + 1) > q[0].height then q[0].pos - d else q[0].pos + d)
            && Asking(q', peakPos, if paired then sibs else sibs[1..])
            && Work(q', peakPos) < Work(q, peakPos)
  {
    hide Work, Height, Pow2, SiblingWalk;
    var parent := Entry(parentPos, (), q[0].height + 1);
    EntryStep(q[0]);
    AskUnfold(q, peakPos, sibs, parent);
    WorkShrinks(q, peakPos);
    TrueHeightsRest(q);
    if parent.pos < peakPos {
      TrueHeightsStep(q, parent);
      WorkFalls(q, parent, peakPos);
    }
  }

  lemma TrueHeightsRest<T>(q: seq<Entry<T>>)
    requires TrueHeights(q) && q != []
    ensures TrueHeights(Behind(q))
  {
    hide Height, SibPos;
  }

  // ----- over the peaks -----

  /** The plan for the proved leaves left, when the peaks in `bare` already trail the last one before. */
  function PlanAfter(bare: seq<Coord>, n: nat, rem: seq<nat>, k: nat): seq<Item> {
    if rem == [] then if bare + PeaksBelow(n, k) == [] then [] else [bare + PeaksBelow(n, k)]
    else Plan(n, rem, k)
  }

  /** The state of the loop over the peaks. */
  ghost predicate Proving<T>(m: Hasher<T>, ls: seq<T>, all: seq<T>, proof: seq<T>, track: nat,
                             head: seq<T>, bare: seq<Coord>, rem: seq<nat>, k: nat) {
    && LeavesFrom(|ls|, rem, k)
    && AllIn(|ls|, bare) && PlanIn(|ls|, PlanAfter(bare, |ls|, rem, k))
    && proof == head + Values(MmrCombine(m), ls, bare)
    && all == head + ItemValues(m, ls, PlanAfter(bare, |ls|, rem, k))
    && (rem == [] ==> track == |bare|)
    && (rem != [] ==> bare == [])
  }

  lemma ProveStarts<T>(m: Hasher<T>, ls: seq<T>, rem: seq<nat>, k: nat)
    requires LeavesFrom(|ls|, rem, k)
    ensures PlanIn(|ls|, Plan(|ls|, rem, k))
    ensures Proving(m, ls, ItemValues(m, ls, Plan(|ls|, rem, k)), [], 0, [], [], rem, k)
  {
    hide Shl, Shr, ItemValues, LeavesFrom, Plan, InForest, Node, PlanAfter;
    PlanInForest(|ls|, rem, k);
    PlanAfterNone(|ls|, rem, k);
    var items := ItemValues(m, ls, Plan(|ls|, rem, k));
    assert [] + items == items;
    assert Values(MmrCombine(m), ls, []) == [];
  }

  /** Down to the next peak. */
  lemma {:induction false} ProveToPeak<T>(m: Hasher<T>, ls: seq<T>, all: seq<T>, proof: seq<T>, track: nat,
                                          head: seq<T>, bare: seq<Coord>, rem: seq<nat>, k: nat) returns (c: Coord)
    requires Proving(m, ls, all, proof, track, head, bare, rem, k) && PeaksBelow(|ls|, k) != []
    ensures Proving(m, ls, all, proof, track, head, bare, rem, c.h + 1)
    ensures Shr(|ls|, c.h) == c.j + 1 && c.j % 2 == 0 && PeaksBelow(|ls|, k) == PeaksBelow(|ls|, c.h + 1)
    decreases k
  {
    hide Shl, Shr, Proving;
    if Shr(|ls|, k - 1) % 2 == 1 {
      c := Coord(k - 1, Shr(|ls|, k - 1) - 1);
    } else {
      ProveSkip(m, ls, all, proof, track, head, bare, rem, k);
      c := ProveToPeak(m, ls, all, proof, track, head, bare, rem, k - 1);
    }
  }

  /** Heights without a peak change nothing. */
  lemma ProveSkip<T>(m: Hasher<T>, ls: seq<T>, all: seq<T>, proof: seq<T>, track: nat,
                     head: seq<T>, bare: seq<Coord>, rem: seq<nat>, k: nat)
    requires Proving(m, ls, all, proof, track, head, bare, rem, k)
    requires k > 0 && Shr(|ls|, k - 1) % 2 == 0
    ensures Proving(m, ls, all, proof, track, head, bare, rem, k - 1)
    ensures PeaksBelow(|ls|, k) == PeaksBelow(|ls|, k - 1)
  {
    hide Shl, Shr, ItemValues, LeavesFrom, Plan, InForest, Node, PeaksBelow, Values;
    LeavesSkip(|ls|, rem, k);
    PlanSkip(|ls|, rem, k);
  }

  /** A mountain: its items are appended, and while no leaf is left its peak is kept track of. */
  lemma ProveOn<T>(m: Hasher<T>, ls: seq<T>, all: seq<T>, proof: seq<T>, track: nat,
                   head: seq<T>, bare: seq<Coord>, rem: seq<nat>, c: Coord, t: nat)
    requires Proving(m, ls, all, proof, track, head, bare, rem, c.h + 1)
    requires Shr(|ls|, c.h) == c.j + 1 && c.j % 2 == 0 && t == CountBelow(rem, Shl(c.j + 1, c.h))
    ensures PeaksBelow(|ls|, c.h + 1) == [c] + PeaksBelow(|ls|, c.h)
    ensures InForest(|ls|, c)
    ensures t > 0 && c.h > 0 ==> Climb(c, 0, rem[..t], [])
    ensures t > 0 && c.h == 0 ==> rem[..t] == [c.j]
    ensures PlanIn(|ls|, MountainPlan(rem[..t], c))
    ensures var proof' := proof + ItemValues(m, ls, MountainPlan(rem[..t], c));
            if rem == [] then Proving(m, ls, all, proof', track + 1, head, bare + [c], [], c.h)
            else Proving(m, ls, all, proof', if t == 0 then track + 1 else 0, proof', [], rem[t..], c.h)
  {
    hide Shl, Shr, LeavesFrom, InForest, PeaksBelow, Climb, Row, CountBelow, Proving, ItemValues, MountainPlan, PlanIn;
    ProvingLeaves(m, ls, all, proof, track, head, bare, rem, c.h + 1);
    LeavesSplit(|ls|, rem, c.h + 1);
    PeaksBelowStep(|ls|, c.h + 1);
    MountainPlanIn(|ls|, rem[..t], c);
    if rem == [] {
      ProveBare(m, ls, all, proof, track, head, bare, c);
    } else {
      ProveMountain(m, ls, all, proof, track, head, rem, c, t);
    }
  }

  lemma ProvingLeaves<T>(m: Hasher<T>, ls: seq<T>, all: seq<T>, proof: seq<T>, track: nat,
                         head: seq<T>, bare: seq<Coord>, rem: seq<nat>, k: nat)
    requires Proving(m, ls, all, proof, track, head, bare, rem, k)
    ensures LeavesFrom(|ls|, rem, k) && (rem != [] ==> bare == [])
  {
    hide LeavesFrom, AllIn, PlanIn, PlanAfter, ItemValues, Values;
  }

  lemma ProveBare<T>(m: Hasher<T>, ls: seq<T>, all: seq<T>, proof: seq<T>, track: nat,
                     head: seq<T>, bare: seq<Coord>, c: Coord)
    requires Proving(m, ls, all, proof, track, head, bare, [], c.h + 1)
    requires Shr(|ls|, c.h) == c.j + 1 && c.j % 2 == 0 && InForest(|ls|, c)
    requires LeavesFrom(|ls|, [], c.h) && PlanIn(|ls|, MountainPlan([], c))
    ensures Proving(m, ls, all, proof + ItemValues(m, ls, MountainPlan([], c)), track + 1, head, bare + [c], [], c.h)
  {
    hide Shl, Shr, LeavesFrom, InForest, Node, PeaksBelow, Values, MmrCombine, ItemValues;
    var n, f := |ls|, MmrCombine(m);
    PeaksBelowStep(n, c.h + 1);
    assert bare + PeaksBelow(n, c.h + 1) == (bare + [c]) + PeaksBelow(n, c.h);
    LonePeak(m, ls, c);
    assert AllIn(n, bare + [c]);
    ValuesAppend(f, ls, bare, [c]);
    ValuesOne(f, ls, c);
    Assoc(head, Values(f, ls, bare), [Node(f, ls, c.h, c.j)]);
  }

  lemma ProveMountain<T>(m: Hasher<T>, ls: seq<T>, all: seq<T>, proof: seq<T>, track: nat,
                         head: seq<T>, rem: seq<nat>, c: Coord, t: nat)
    requires Proving(m, ls, all, proof, track, head, [], rem, c.h + 1) && rem != []
    requires Shr(|ls|, c.h) == c.j + 1 && c.j % 2 == 0 && t == CountBelow(rem, Shl(c.j + 1, c.h))
    requires LeavesFrom(|ls|, rem[t..], c.h) && PlanIn(|ls|, MountainPlan(rem[..t], c))
    ensures var proof' := proof + ItemValues(m, ls, MountainPlan(rem[..t], c));
            Proving(m, ls, all, proof', if t == 0 then track + 1 else 0, proof', [], rem[t..], c.h)
  {
    hide Shl, Shr, LeavesFrom, Plan, HashPlan, InForest, Node, PeaksBelow, Values, MmrCombine, ItemValues, CountBelow,
         MountainPlan, PlanIn, AllIn, PlanAfter;
    var n, f := |ls|, MmrCombine(m);
    var here, later := MountainPlan(rem[..t], c), Plan(n, rem[t..], c.h);
    PlanInForest(n, rem[t..], c.h);
    PlanUnfold(n, rem, c.h + 1);
    PlanAfterSome(n, rem, c.h + 1);
    ItemValuesAppend(m, ls, here, later);
    ValuesNone(f, ls);
    NoneIn(n);
    AssocNone(head, ItemValues(m, ls, here), ItemValues(m, ls, later));
    PlanAfterNone(n, rem[t..], c.h);
    if rem[t..] == [] { assert t == |rem|; }
  }

  lemma PlanAfterSome(n: nat, rem: seq<nat>, k: nat)
    requires rem != []
    ensures PlanAfter([], n, rem, k) == Plan(n, rem, k)
  {
    hide Plan;
  }

  lemma NoneIn(n: nat)
    ensures AllIn(n, [])
  {
  }

  lemma AssocNone<T>(a: seq<T>, b: seq<T>, c: seq<T>)
    ensures ((a + []) + b) + c == a + (b + c)
    ensures ((a + []) + b) + [] == (a + []) + b
  {
  }

  lemma PlanAfterNone(n: nat, rem: seq<nat>, k: nat)
    ensures PlanAfter([], n, rem, k) == Plan(n, rem, k)
  {
    hide PeaksBelow, Shr, Shl;
    assert [] + PeaksBelow(n, k) == PeaksBelow(n, k);
  }

  /** When the peaks run out every leaf is proved, and bagging the bare tail completes the plan. */
  lemma ProveEnds<T>(m: Hasher<T>, ls: seq<T>, all: seq<T>, proof: seq<T>, track: nat,
                     head: seq<T>, bare: seq<Coord>, rem: seq<nat>, k: nat)
    requires Proving(m, ls, all, proof, track, head, bare, rem, k) && PeaksBelow(|ls|, k) == []
    ensures rem == [] && track <= |proof|
    ensures track <= 1 ==> all == proof
    ensures track > 1 ==> all == proof[..|proof| - track] + [Bag(m, proof[|proof| - track..])]
  {
    hide Shl, Shr, LeavesFrom, Plan, InForest, Node, PeaksBelow, MmrCombine;
    NoLeavesLeft(|ls|, rem, k);
    var tail := Values(MmrCombine(m), ls, bare);
    assert bare + [] == bare;
    if bare == [] {
      NoItems(m, ls);
      assert head + [] == head;
    } else {
      assert ItemValues(m, ls, [bare]) == [Bag(m, tail)];
      assert proof[..|proof| - track] == head && proof[|proof| - track..] == tail;
      if track == 1 { assert tail == [tail[0]]; }
    }
  }

  lemma {:induction false} NoLeavesLeft(n: nat, rem: seq<nat>, k: nat)
    requires LeavesFrom(n, rem, k) && PeaksBelow(n, k) == []
    ensures rem == []
    decreases k
  {
    hide Shl, Shr, LeavesFrom;
    if k == 0 {
      LeavesDone(n, rem);
    } else {
      LeavesSkip(n, rem, k);
      PlanSkip(n, rem, k);
      NoLeavesLeft(n, rem, k - 1);
    }
  }

  // ----- the positions still to be handled -----

  ghost function LeafPlaces(indices: seq<nat>): seq<nat> {
    seq(|indices|, i requires 0 <= i < |indices| => Size(indices[i]))
  }

  /** Taking the positions up to a peak takes the proved leaves of its mountain. */
  lemma TakenHere(n: nat, rem: seq<nat>, outs: seq<nat>, c: Coord, here: seq<nat>, later: seq<nat>)
    requires here + later == LeafPlaces(rem) + outs
    requires StrictlyAscending(rem) && InForest(n, c) && forall i :: 0 <= i < |outs| ==> outs[i] >= Size(n)
    requires forall i :: 0 <= i < |here| ==> here[i] <= Pos(c.h, c.j)
    requires later == [] || later[0] > Pos(c.h, c.j)
    ensures var t := CountBelow(rem, Shl(c.j + 1, c.h));
            |here| == t && here == LeafPlaces(rem[..t]) && later == LeafPlaces(rem[t..]) + outs
  {
    hide Size, Pos, Shl, InForest, CountBelow, LeafPlaces, StrictlyAscending;
    var t := CountBelow(rem, Shl(c.j + 1, c.h));
    var ps := LeafPlaces(rem) + outs;
    forall i | 0 <= i < |ps|
      ensures i < t <==> ps[i] <= Pos(c.h, c.j)
    {
      PlaceAt(n, rem, outs, c, i);
    }
    forall i | 0 <= i < |ps|
      ensures i < |here| ==> ps[i] <= Pos(c.h, c.j)
      ensures i == |here| ==> ps[i] > Pos(c.h, c.j)
    {
      assert i < |here| ==> ps[i] == here[i];
      assert i == |here| ==> ps[i] == later[0];
    }
    PlacesCut(rem, t);
    SameCut(ps, Pos(c.h, c.j), t, |here|);
    CutBoth(here, later, LeafPlaces(rem), outs, t);
  }

  lemma PlaceAt(n: nat, rem: seq<nat>, outs: seq<nat>, c: Coord, i: nat)
    requires StrictlyAscending(rem) && InForest(n, c) && forall k :: 0 <= k < |outs| ==> outs[k] >= Size(n)
    requires i < |LeafPlaces(rem) + outs|
    ensures CountBelow(rem, Shl(c.j + 1, c.h)) <= |rem|
    ensures i < CountBelow(rem, Shl(c.j + 1, c.h)) <==> (LeafPlaces(rem) + outs)[i] <= Pos(c.h, c.j)
  {
    hide Size, Pos, Shl, InForest, CountBelow, StrictlyAscending;
    InForestPos(n, c.h, c.j);
    LeavesBeyond(rem, Shl(c.j + 1, c.h));
    if i < |rem| { LeafBeforePeak(rem[i], c); }
  }

  lemma PlacesCut(rem: seq<nat>, t: nat)
    requires t <= |rem|
    ensures |LeafPlaces(rem)| == |rem|
    ensures LeafPlaces(rem[..t]) == LeafPlaces(rem)[..t] && LeafPlaces(rem[t..]) == LeafPlaces(rem)[t..]
  {
    hide Size;
  }

  lemma CutBoth(here: seq<nat>, later: seq<nat>, a: seq<nat>, b: seq<nat>, t: nat)
    requires here + later == a + b && |here| == t <= |a|
    ensures here == a[..t] && later == a[t..] + b
  {
    assert here == (here + later)[..t] && later == (here + later)[t..];
  }

  lemma SameCut(s: seq<nat>, bound: nat, a: nat, b: nat)
    requires a <= |s| && b <= |s|
    requires forall i :: 0 <= i < |s| ==> (i < a <==> s[i] <= bound)
    requires forall i :: 0 <= i < |s| ==> (i < b ==> s[i] <= bound) && (i == b ==> s[i] > bound)
    ensures a == b
  {
    assert a == |s| || s[a] > bound;
    assert b == |s| || s[b] > bound;
  }

  /** An ascending sequence of leaf positions, by leaf index. */
  lemma PlacesOf(n: nat, ps: seq<nat>)
    requires StrictlyAscending(ps) && forall p :: p in ps ==> LeafPosition(n, p)
    ensures var indices := seq(|ps|, i requires 0 <= i < |ps| => Block(ps[i]));
            ps == LeafPlaces(indices) && LeavesFrom(n, indices, BitLength(n))
  {
    hide Size, Block, Height, Shl, Shr, LeafPosition;
    var indices := seq(|ps|, i requires 0 <= i < |ps| => Block(ps[i]));
    AllLeaves(n);
    forall i | 0 <= i < |ps|
      ensures indices[i] < n && Size(indices[i]) == ps[i]
    {
      LeafIndex(n, ps[i]);
    }
    forall i, k | 0 <= i < k < |ps|
      ensures indices[i] < indices[k]
    {
      if indices[k] <= indices[i] { SizeMono(indices[k], indices[i]); }
    }
  }

  /** The sorted positions: the leaves inside the forest, then whatever lies beyond it. */
  lemma SplitPositions(n: nat, positions: seq<nat>, sorted: seq<nat>, t: nat)
    requires sorted == Distinct<nat>(PosKey, positions) && t == CountBelow(sorted, Size(n))
    requires forall p :: p in positions ==> Height(p) == 0
    ensures StrictlyAscending(sorted[..t]) && forall p :: p in sorted[..t] ==> LeafPosition(n, p)
    ensures forall i :: 0 <= i < |sorted[t..]| ==> sorted[t..][i] >= Size(n)
    ensures t == |sorted| <==> forall p :: p in positions ==> LeafPosition(n, p)
  {
    hide Size, Height;
    DistinctAscending(positions);
    LeavesBeyond(sorted, Size(n));
    forall i | 0 <= i < |sorted| - t
      ensures sorted[t..][i] >= Size(n)
    {
      assert sorted[t..][i] == sorted[t + i];
    }
    if t < |sorted| {
      assert sorted[t] in sorted;
    } else {
      assert sorted[..t] == sorted;
    }
  }
}
