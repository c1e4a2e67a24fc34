/**
 The breadth-first queues of `src/mmr.rs`: what the prover asks for inside one mountain, and what
 the verifier computes from it. Both are defined on arbitrary queues; on the queues of a real
 proof they stay in step with the climb of module ProofPlan.
 */
module QueueWalk {
  import opened Bits
  import opened Forest
  import opened Nodes
  import opened ProofPlan
  import opened Wrappers

  /** A queue entry: the verifier's carry an item, the prover's carry nothing. */
  datatype Entry<T> = Entry(pos: nat, item: T, height: nat)

  ghost predicate IsRight<T>(e: Entry<T>) {
    Height(e.pos + 1) > e.height
  }

  ghost function SibPos<T>(e: Entry<T>): int {
    if IsRight(e) then e.pos - (Pow2(e.height + 1) - 1) else e.pos + (Pow2(e.height + 1) - 1)
  }

  ghost function ParentPos<T>(e: Entry<T>): (p: nat)
    ensures p > e.pos
  {
    if IsRight(e) then e.pos + 1 else e.pos + Pow2(e.height + 1)
  }

  ghost predicate SiblingQueued<T>(q: seq<Entry<T>>)
    requires q != []
  {
    |q| > 1 && q[1].pos == SibPos(q[0])
  }

  ghost function Behind<T>(q: seq<Entry<T>>): seq<Entry<T>>
    requires q != []
  {
    if SiblingQueued(q) then q[2..] else q[1..]
  }

  // ----- termination on arbitrary queues -----

  ghost predicate Below<T>(q: seq<Entry<T>>, peakPos: nat) {
    forall i :: 0 <= i < |q| ==> q[i].pos <= peakPos
  }

  /** The distance the queued entries still have to climb. */
  ghost function Work<T>(q: seq<Entry<T>>, peakPos: nat): nat {
    if q == [] then 0 else (if q[0].pos <= peakPos then peakPos + 1 - q[0].pos else 0) + Work(q[1..], peakPos)
  }

  lemma {:induction false} WorkAppend<T>(q: seq<Entry<T>>, e: Entry<T>, peakPos: nat)
    requires e.pos <= peakPos
    ensures Work(q + [e], peakPos) == Work(q, peakPos) + (peakPos + 1 - e.pos)
  {
    if q == [] {
      assert q + [e] == [e];
    } else {
      WorkAppend(q[1..], e, peakPos);
      assert (q + [e])[1..] == q[1..] + [e];
    }
  }

  /** Replacing the front, and its sibling if queued, by the parent brings the queue closer to the peak. */
  lemma WorkFalls<T>(q: seq<Entry<T>>, parent: Entry<T>, peakPos: nat)
    requires Below(q, peakPos) && q != [] && q[0].pos < parent.pos <= peakPos
    ensures Below(Behind(q) + [parent], peakPos)
    ensures Work(Behind(q) + [parent], peakPos) < Work(q, peakPos)
  {
    WorkAppend(Behind(q), parent, peakPos);
    WorkShrinks(q, peakPos);
  }

  lemma WorkShrinks<T>(q: seq<Entry<T>>, peakPos: nat)
    requires Below(q, peakPos) && q != []
    ensures Below(Behind(q), peakPos)
    ensures Work(Behind(q), peakPos) + (peakPos + 1 - q[0].pos) <= Work(q, peakPos)
  {
    if SiblingQueued(q) { assert q[1..][1..] == q[2..]; }
  }

  // ----- the two walks -----

  /** `gen_proof_for_peak`: positions of the siblings to put into the proof. */
  ghost function SiblingWalk(q: seq<Entry<()>>, peakPos: nat): Result<seq<int>>
    requires Below(q, peakPos)
    decreases Work(q, peakPos)
  {
    if q == [] then Ok([])
    else if q[0].pos == peakPos then if |q| == 1 then Ok([]) else Err(NodeProofsNotSupported)
    else
      WorkShrinks(q, peakPos);
      var parent := Entry(ParentPos(q[0]), (), q[0].height + 1);
      var tail :=
        if parent.pos < peakPos then
          WorkFalls(q, parent, peakPos);
          SiblingWalk(Behind(q) + [parent], peakPos)
        else SiblingWalk(Behind(q), peakPos);
      match tail
      case Err(e) => Err(e)
      case Ok(sibs) => Ok((if SiblingQueued(q) then [] else [SibPos(q[0])]) + sibs)
  }

  ghost function ParentItem<T>(m: Hasher<T>, e: Entry<T>, sibling: T): T {
    if IsRight(e) then m.merge(sibling, e.item) else m.merge(e.item, sibling)
  }

  /** `calculate_peak_root`: the peak's value and the proof items left over. */
  ghost function PeakWalk<T>(m: Hasher<T>, q: seq<Entry<T>>, peakPos: nat, proof: seq<T>): Result<(T, seq<T>)>
    requires Below(q, peakPos)
    decreases Work(q, peakPos)
  {
    if q == [] then Err(CorruptedProof)
    else if q[0].pos == peakPos then if |q| == 1 then Ok((q[0].item, proof)) else Err(CorruptedProof)
    else if !SiblingQueued(q) && proof == [] then Err(CorruptedProof)
    else
      var sibling := if SiblingQueued(q) then q[1].item else proof[0];
      var parent := Entry(ParentPos(q[0]), ParentItem(m, q[0], sibling), q[0].height + 1);
      if parent.pos <= peakPos then
        WorkFalls(q, parent, peakPos);
        PeakWalk(m, Behind(q) + [parent], peakPos, if SiblingQueued(q) then proof else proof[1..])
      else Err(CorruptedProof)
  }

  // ----- queues of a real climb -----

  /** The queue holds row h from the left mark on, then what row h + 1 has so far. */
  ghost predicate Places<T>(q: seq<Entry<T>>, h: nat, front: seq<nat>, back: seq<nat>) {
    && |q| == |front| + |back|
    && (forall i :: 0 <= i < |front| ==> q[i].pos == Pos(h, front[i]) && q[i].height == h)
    && (forall i :: |front| <= i < |q| ==> q[i].pos == Pos(h + 1, back[i - |front|]) && q[i].height == h + 1)
  }

  /** ... and every entry carries the value of its node. */
  ghost predicate Carries<T>(q: seq<Entry<T>>, f: Combine<T>, ls: seq<T>, h: nat, front: seq<nat>, back: seq<nat>) {
    && |q| == |front| + |back|
    && (forall i :: 0 <= i < |front| ==> CarriesNode(q[i], f, ls, h, front[i]))
    && (forall i :: |front| <= i < |q| ==> CarriesNode(q[i], f, ls, h + 1, back[i - |front|]))
  }

  ghost predicate CarriesNode<T>(e: Entry<T>, f: Combine<T>, ls: seq<T>, h: nat, j: nat) {
    InForest(|ls|, Coord(h, j)) && e.item == Node(f, ls, h, j)
  }

  /** The step of the entry at (height, j). */
  lemma StepOf<T>(e: Entry<T>, j: nat)
    requires e.pos == Pos(e.height, j)
    ensures IsRight(e) <==> j % 2 == 1
    ensures SibPos(e) == Pos(e.height, Sib(j)) && ParentPos(e) == Pos(e.height + 1, j / 2)
    ensures IsRight(e) ==> Height(e.pos + 1) == e.height + 1
    ensures Height(ParentPos(e)) == e.height + 1
  {
    hide Pos, Height, Pow2, Block, Size, MaxLeaves, Sib;
    NextHeight(e.height, j);
    FamilyOf(e.height, j);
    CoordOfPos(e.height + 1, j / 2);
  }

  /** The front's sibling and parent, and whether the sibling is queued right behind it. */
  lemma PlacesFront<T>(q: seq<Entry<T>>, h: nat, front: seq<nat>, back: seq<nat>)
    requires Places(q, h, front, back) && front != []
    ensures IsRight(q[0]) <==> front[0] % 2 == 1
    ensures SibPos(q[0]) == Pos(h, Sib(front[0])) && ParentPos(q[0]) == Pos(h + 1, front[0] / 2)
    ensures SiblingQueued(q) <==> Paired(front)
  {
    hide Pos, Pow2, Height, Sib, Size, IsRight, SibPos, ParentPos;
    StepOf(q[0], front[0]);
    if |q| > 1 {
      if |front| > 1 {
        SamePlace(h, front[1], h, Sib(front[0]));
      } else {
        assert q[1].pos == Pos(h + 1, back[0]);
        SamePlace(h + 1, back[0], h, Sib(front[0]));
      }
    }
  }

  lemma SamePlace(h: nat, j: nat, g: nat, i: nat)
    ensures Pos(h, j) == Pos(g, i) <==> h == g && j == i
  {
    hide Pos;
    if Pos(h, j) == Pos(g, i) { PosInjective(Coord(h, j), Coord(g, i)); }
  }

  lemma PlacesDrop<T>(q: seq<Entry<T>>, e: Entry<T>, h: nat, front: seq<nat>, back: seq<nat>, k: nat, x: nat)
    requires Places(q, h, front, back) && k <= |front|
    requires e.pos == Pos(h + 1, x) && e.height == h + 1
    ensures Places(q[k..] + [e], h, front[k..], back + [x])
  {
    hide Pos;
    var q', front', back' := q[k..] + [e], front[k..], back + [x];
    forall i | 0 <= i < |front'|
      ensures q'[i].pos == Pos(h, front'[i]) && q'[i].height == h
    {
      assert q'[i] == q[k + i] && front'[i] == front[k + i];
    }
    forall i | |front'| <= i < |q'|
      ensures q'[i].pos == Pos(h + 1, back'[i - |front'|]) && q'[i].height == h + 1
    {
      if i < |q'| - 1 { assert q'[i] == q[k + i] && back'[i - |front'|] == back[k + i - |front|]; }
    }
  }

  lemma CarriesDrop<T>(q: seq<Entry<T>>, e: Entry<T>, f: Combine<T>, ls: seq<T>, h: nat, front: seq<nat>,
                       back: seq<nat>, k: nat, x: nat)
    requires Carries(q, f, ls, h, front, back) && k <= |front|
    requires CarriesNode(e, f, ls, h + 1, x)
    ensures Carries(q[k..] + [e], f, ls, h, front[k..], back + [x])
  {
    hide CarriesNode;
    var q', front', back' := q[k..] + [e], front[k..], back + [x];
    forall i | 0 <= i < |front'|
      ensures CarriesNode(q'[i], f, ls, h, front'[i])
    {
      assert q'[i] == q[k + i] && front'[i] == front[k + i];
    }
    forall i | |front'| <= i < |q'|
      ensures CarriesNode(q'[i], f, ls, h + 1, back'[i - |front'|])
    {
      if i < |q'| - 1 { assert q'[i] == q[k + i] && back'[i - |front'|] == back[k + i - |front|]; }
    }
  }

  /** One step of either queue is one step of the climb. */
  lemma StepDrops<T>(q: seq<Entry<T>>, h: nat, front: seq<nat>, back: seq<nat>) returns (k: nat)
    requires Places(q, h, front, back) && front != []
    ensures 0 < k <= |front| && Behind(q) == q[k..] && Rest(front) == front[k..]
  {
    PlacesFront(q, h, front, back);
    k := if Paired(front) then 2 else 1;
  }

  lemma ClimbPositions(c: Coord, h: nat, front: seq<nat>, back: seq<nat>)
    requires Climb(c, h, front, back) && front != []
    ensures Pos(h, front[0]) < Pos(c.h, c.j)
    ensures Pos(h + 1, front[0] / 2) <= Pos(c.h, c.j)
    ensures Pos(h + 1, front[0] / 2) == Pos(c.h, c.j) <==> h + 1 == c.h
  {
    hide Pos, Sib, Rest;
    assert Under(h, front[0], c.h, c.j);
    UnderPos(h, front[0], c.h, c.j);
    ParentUnder(c, h, front[0]);
    UnderPos(h + 1, front[0] / 2, c.h, c.j);
  }

  lemma ClimbBelow<T>(q: seq<Entry<T>>, c: Coord, h: nat, front: seq<nat>, back: seq<nat>)
    requires Climb(c, h, front, back) && Places(q, h, front, back)
    ensures Below(q, Pos(c.h, c.j))
  {
    hide Pos;
    forall i | 0 <= i < |q|
      ensures q[i].pos <= Pos(c.h, c.j)
    {
      if i < |front| {
        UnderPos(h, front[i], c.h, c.j);
      } else {
        assert q[i].pos == Pos(h + 1, back[i - |front|]);
        UnderPos(h + 1, back[i - |front|], c.h, c.j);
      }
    }
  }

  // ----- the walks on a real climb -----

  /** The prover asks for exactly the siblings of the climb. */
  lemma {:induction false} SiblingWalkIsClimb(q: seq<Entry<()>>, c: Coord, h: nat, front: seq<nat>, back: seq<nat>)
    requires Climb(c, h, front, back)
    requires Places(q, h, front, if h + 1 < c.h then back else [])
    requires Below(q, Pos(c.h, c.j))
    ensures SiblingWalk(q, Pos(c.h, c.j)) == Ok(Positions(Siblings(h, front, back, c.h)))
    decreases c.h - h, |front|
  {
    hide Pos, Sib, Paired, IsRight, SibPos, ParentPos, Work, Under, InForest, Height, Size, Row, Climb, Positions;
    var peakPos := Pos(c.h, c.j);
    ClimbHeight(c, h, front, back);
    if front == [] {
      ClimbTurn(c, h, back);
      if h + 1 < c.h {
        SiblingWalkIsClimb(q, c, h + 1, back, []);
      } else {
        PositionsNone();
      }
    } else {
      var kept := if h + 1 < c.h then back else [];
      var x := front[0] / 2;
      PlacesFront(q, h, front, kept);
      ClimbPositions(c, h, front, back);
      ClimbStep(c, h, front, back);
      var k := StepDrops(q, h, front, kept);
      var parent := Entry(ParentPos(q[0]), (), q[0].height + 1);
      WorkShrinks(q, peakPos);
      if h + 1 < c.h {
        WorkFalls(q, parent, peakPos);
        PlacesDrop(q, parent, h, front, back, k, x);
        SiblingWalkIsClimb(Behind(q) + [parent], c, h, Rest(front), back + [x]);
      } else {
        SiblingWalkIsClimb(Behind(q), c, h, Rest(front), back + [x]);
      }
      SiblingsStep(h, front, back, c.h);
    }
  }

  lemma PositionsNone()
    ensures Positions([]) == []
  {
  }

  lemma ClimbHeight(c: Coord, h: nat, front: seq<nat>, back: seq<nat>)
    requires Climb(c, h, front, back)
    ensures h < c.h
  {
  }

  lemma SiblingsStep(h: nat, front: seq<nat>, back: seq<nat>, top: nat)
    requires h < top && front != []
    ensures Positions(Siblings(h, front, back, top))
            == (if Paired(front) then [] else [Pos(h, Sib(front[0]))])
               + Positions(Siblings(h, Rest(front), back + [front[0] / 2], top))
  {
    hide Pos, Sib, Positions;
    var first := if Paired(front) then [] else [Coord(h, Sib(front[0]))];
    PositionsAppend(first, Siblings(h, Rest(front), back + [front[0] / 2], top));
    PositionsNone();
    PositionsOne(Coord(h, Sib(front[0])));
  }

  lemma PositionsOne(c: Coord)
    ensures Positions([c]) == [Pos(c.h, c.j)]
  {
    hide Pos;
  }

  lemma ClimbSiblingsIn(n: nat, c: Coord, h: nat, front: seq<nat>, back: seq<nat>)
    requires Climb(c, h, front, back) && InForest(n, c)
    ensures AllIn(n, Siblings(h, front, back, c.h))
  {
    hide Under, InForest, Siblings, Climb;
    var sibs := Siblings(h, front, back, c.h);
    SiblingsUnder(c, h, front, back);
    forall i | 0 <= i < |sibs|
      ensures InForest(n, sibs[i])
    {
      UnderInForest(n, sibs[i].h, sibs[i].j, c.h, c.j);
    }
  }

  /** The parent of x, from x and its sibling in the order the position test decides. */
  lemma NodeFromChildren<T>(m: Hasher<T>, ls: seq<T>, h: nat, x: nat)
    requires InForest(|ls|, Coord(h + 1, x / 2))
    ensures InForest(|ls|, Coord(h, x)) && InForest(|ls|, Coord(h, Sib(x)))
    ensures Node(MmrCombine(m), ls, h + 1, x / 2)
            == if x % 2 == 1 then m.merge(Node(MmrCombine(m), ls, h, Sib(x)), Node(MmrCombine(m), ls, h, x))
               else m.merge(Node(MmrCombine(m), ls, h, x), Node(MmrCombine(m), ls, h, Sib(x)))
  {
    hide InForest, Pos;
    ChildrenInForest(|ls|, h, x / 2);
    assert x == 2 * (x / 2) || x == 2 * (x / 2) + 1;
  }

  /** From true values and the siblings of the climb, followed by anything, the verifier gets the peak. */
  lemma {:induction false} PeakWalkIsClimb<T>(m: Hasher<T>, ls: seq<T>, q: seq<Entry<T>>, c: Coord, h: nat,
                                              front: seq<nat>, back: seq<nat>, more: seq<T>)
    requires Climb(c, h, front, back) && InForest(|ls|, c)
    requires Places(q, h, front, back) && Carries(q, MmrCombine(m), ls, h, front, back)
    requires Below(q, Pos(c.h, c.j))
    ensures AllIn(|ls|, Siblings(h, front, back, c.h))
    ensures PeakWalk(m, q, Pos(c.h, c.j), Values(MmrCombine(m), ls, Siblings(h, front, back, c.h)) + more)
            == Ok((Node(MmrCombine(m), ls, c.h, c.j), more))
    decreases c.h - h, |front|
  {
    hide Pos, Sib, Paired, IsRight, SibPos, ParentPos, Work, Under, InForest, Height, Size, Row, Climb, Values,
         MmrCombine, Node;
    var f, peakPos := MmrCombine(m), Pos(c.h, c.j);
    ClimbSiblingsIn(|ls|, c, h, front, back);
    ClimbHeight(c, h, front, back);
    if front == [] {
      ClimbTurn(c, h, back);
      if h + 1 < c.h {
        PeakWalkIsClimb(m, ls, q, c, h + 1, back, [], more);
      } else {
        ValuesNone(f, ls);
        assert [] + more == more;
      }
    } else {
      var x := front[0];
      PlacesFront(q, h, front, back);
      ClimbPositions(c, h, front, back);
      ClimbStep(c, h, front, back);
      var k := StepDrops(q, h, front, back);
      ClimbParentIn(|ls|, c, h, front, back);
      NodeFromChildren(m, ls, h, x);
      var sibs' := Siblings(h, Rest(front), back + [x / 2], c.h);
      ClimbSiblingsIn(|ls|, c, h, Rest(front), back + [x / 2]);
      SiblingValues(f, ls, h, front, back, c.h, more);
      var proof := Values(f, ls, Siblings(h, front, back, c.h)) + more;
      var proof' := Values(f, ls, sibs') + more;
      var sibling := if SiblingQueued(q) then q[1].item else proof[0];
      assert sibling == Node(f, ls, h, Sib(x)) by { if Paired(front) { PairedNext(front); } }
      var parent := Entry(ParentPos(q[0]), ParentItem(m, q[0], sibling), q[0].height + 1);
      WorkFalls(q, parent, peakPos);
      PlacesDrop(q, parent, h, front, back, k, x / 2);
      CarriesDrop(q, parent, f, ls, h, front, back, k, x / 2);
      PeakWalkIsClimb(m, ls, Behind(q) + [parent], c, h, Rest(front), back + [x / 2], more);
    }
  }

  lemma PairedNext(js: seq<nat>)
    requires Paired(js)
    ensures |js| > 1 && js[1] == Sib(js[0])
  {
  }

  lemma ValuesOne<T>(f: Combine<T>, ls: seq<T>, c: Coord)
    requires InForest(|ls|, c)
    ensures AllIn(|ls|, [c]) && Values(f, ls, [c]) == [Node(f, ls, c.h, c.j)]
  {
    hide InForest, Node;
  }

  lemma ValuesNone<T>(f: Combine<T>, ls: seq<T>)
    ensures Values(f, ls, []) == []
  {
  }

  lemma ClimbParentIn(n: nat, c: Coord, h: nat, front: seq<nat>, back: seq<nat>)
    requires Climb(c, h, front, back) && InForest(n, c) && front != []
    ensures InForest(n, Coord(h + 1, front[0] / 2))
  {
    hide InForest, Shr;
    assert Under(h, front[0], c.h, c.j);
    ParentUnder(c, h, front[0]);
    UnderInForest(n, h + 1, front[0] / 2, c.h, c.j);
  }

  /** The proof after one step: one item less, unless the sibling was queued. */
  lemma SiblingValues<T>(f: Combine<T>, ls: seq<T>, h: nat, front: seq<nat>, back: seq<nat>, top: nat, more: seq<T>)
    requires h < top && front != []
    requires AllIn(|ls|, Siblings(h, front, back, top))
    requires AllIn(|ls|, Siblings(h, Rest(front), back + [front[0] / 2], top))
    requires InForest(|ls|, Coord(h, Sib(front[0])))
    ensures var proof := Values(f, ls, Siblings(h, front, back, top)) + more;
            var proof' := Values(f, ls, Siblings(h, Rest(front), back + [front[0] / 2], top)) + more;
            if Paired(front) then proof == proof'
            else proof != [] && proof[0] == Node(f, ls, h, Sib(front[0])) && proof[1..] == proof'
  {
    hide Node, InForest, Sib, Siblings, Rest, Paired, Values;
    var tail := Siblings(h, Rest(front), back + [front[0] / 2], top);
    SiblingsUnfold(h, front, back, top);
    if !Paired(front) {
      ValuesHead(f, ls, Coord(h, Sib(front[0])), tail, more);
    }
  }

  lemma SiblingsUnfold(h: nat, front: seq<nat>, back: seq<nat>, top: nat)
    requires h < top && front != []
    ensures var tail := Siblings(h, Rest(front), back + [front[0] / 2], top);
            Siblings(h, front, back, top) == if Paired(front) then tail else [Coord(h, Sib(front[0]))] + tail
  {
    hide Rest, Paired, Sib;
  }

  lemma ValuesHead<T>(f: Combine<T>, ls: seq<T>, c: Coord, tail: seq<Coord>, more: seq<T>)
    requires InForest(|ls|, c) && AllIn(|ls|, tail)
    ensures AllIn(|ls|, [c] + tail)
    ensures Values(f, ls, [c] + tail) + more == [Node(f, ls, c.h, c.j)] + (Values(f, ls, tail) + more)
  {
    hide Node, InForest;
    ValuesAppend(f, ls, [c], tail);
    assert Values(f, ls, [c]) == [Node(f, ls, c.h, c.j)];
  }
}
