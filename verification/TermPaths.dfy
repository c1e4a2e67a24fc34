/**
 Ways down into a hash without collisions, and how the verifier's queue goes up along them: what is
 claimed for a leaf lies as many merges below the mountain's value as the mountain is high.
 */
module TermPaths {
  import opened Bits
  import opened Forest
  import opened FreeHash
  import opened ProofPlan
  import opened QueueWalk
  import opened MmrSoundness
  import opened Wrappers

  /** The side to take with r levels to go, told by the bits of the index from high to low. */
  function Side<D>(t: Hash<D>, r: nat, i: nat): Hash<D>
    requires t.HNode? && r > 0
  {
    if Shr(i, r - 1) % 2 == 1 then t.right else t.left
  }

  /** There are r position-less merges on the way down to i. */
  predicate Reaches<D>(t: Hash<D>, r: nat, i: nat)
    decreases r
  {
    r == 0 || (t.HNode? && t.pos == 0 && Reaches(Side(t, r, i), r - 1, i))
  }

  function At<D>(t: Hash<D>, r: nat, i: nat): Hash<D>
    requires Reaches(t, r, i)
    decreases r
  {
    if r == 0 then t else At(Side(t, r, i), r - 1, i)
  }

  function Child<D>(t: Hash<D>, j: nat): Hash<D>
    requires t.HNode?
  {
    if j % 2 == 1 then t.right else t.left
  }

  /** One level further down. */
  lemma {:induction false} Further<D>(t: Hash<D>, r: nat, j: nat)
    requires Reaches(t, r, j / 2)
    ensures Reaches(t, r + 1, j) <==> At(t, r, j / 2).HNode? && At(t, r, j / 2).pos == 0
    ensures Reaches(t, r + 1, j) ==> At(t, r + 1, j) == Child(At(t, r, j / 2), j)
    decreases r
  {
    if r > 0 {
      assert Shr(j, r) == Shr(j / 2, r - 1);
      Further(Side(t, r, j / 2), r - 1, j);
    } else {
      assert Shr(j, 0) == j;
    }
  }

  /** One level less. */
  lemma {:induction false} Nearer<D>(t: Hash<D>, r: nat, j: nat)
    requires Reaches(t, r + 1, j)
    ensures Reaches(t, r, j / 2) && At(t, r, j / 2).HNode? && At(t, r, j / 2).pos == 0
    ensures At(t, r + 1, j) == Child(At(t, r, j / 2), j)
    decreases r
  {
    if r > 0 {
      assert Shr(j, r) == Shr(j / 2, r - 1);
      Nearer(Side(t, r + 1, j), r - 1, j);
    } else {
      assert Shr(j, 0) == j;
    }
  }

  /** A node and its sibling hang on the same merge. */
  lemma Twins<D>(t: Hash<D>, r: nat, j: nat)
    requires Reaches(t, r + 1, j)
    ensures Reaches(t, r, j / 2) && Reaches(t, r + 1, Sib(j))
    ensures At(t, r, j / 2)
            == if j % 2 == 1 then HNode(0, At(t, r + 1, Sib(j)), At(t, r + 1, j))
               else HNode(0, At(t, r + 1, j), At(t, r + 1, Sib(j)))
  {
    hide Shr;
    Nearer(t, r, j);
    Further(t, r, Sib(j));
  }

  // ----- the queue -----

  /** The entry holds what lies at its node. */
  ghost predicate LiesAt<D>(e: Entry<Hash<D>>, t: Hash<D>, r: nat, j: nat) {
    Reaches(t, r, j) && At(t, r, j) == e.item
  }

  ghost predicate AllHold<D>(q: seq<Entry<Hash<D>>>, t: Hash<D>, r: nat, front: seq<nat>, back: seq<nat>) {
    && |q| == |front| + |back| && r > 0
    && (forall i :: 0 <= i < |front| ==> LiesAt(q[i], t, r, front[i]))
    && (forall i :: |front| <= i < |q| ==> LiesAt(q[i], t, r - 1, back[i - |front|]))
  }

  lemma TurnHolds<D>(q: seq<Entry<Hash<D>>>, t: Hash<D>, r: nat, back: seq<nat>)
    requires r > 0
    ensures r > 1 ==> (AllHold(q, t, r - 1, back, []) <==> AllHold(q, t, r, [], back))
    ensures AllHold(q, t, r, [], back) <==> |q| == |back| && forall i :: 0 <= i < |q| ==> LiesAt(q[i], t, r - 1, back[i])
  {
    hide LiesAt;
  }

  /** One step of the climb, seen on the queue before and after it. */
  lemma StepHolds<D>(q: seq<Entry<Hash<D>>>, t: Hash<D>, r: nat, front: seq<nat>, back: seq<nat>, k: nat,
                     parent: Entry<Hash<D>>)
    requires r > 0 && |q| == |front| + |back| && 0 < k <= |front|
    ensures AllHold(q[k..] + [parent], t, r, front[k..], back + [front[0] / 2]) <==>
            && LiesAt(parent, t, r - 1, front[0] / 2)
            && (forall i :: k <= i < |front| ==> LiesAt(q[i], t, r, front[i]))
            && (forall i :: |front| <= i < |q| ==> LiesAt(q[i], t, r - 1, back[i - |front|]))
  {
    hide LiesAt;
    var q', front', back' := q[k..] + [parent], front[k..], back + [front[0] / 2];
    assert forall i :: k <= i < |front| ==> q'[i - k] == q[i] && front'[i - k] == front[i];
    assert forall i :: |front| <= i < |q| ==> q'[i - k] == q[i] && back'[i - |front|] == back[i - |front|];
    assert q'[|q'| - 1] == parent && back'[|back'| - 1] == front[0] / 2;
    if AllHold(q', t, r, front', back') {
      assert LiesAt(q'[|q'| - 1], t, r - 1, back'[|q'| - 1 - |front'|]);
      forall i | k <= i < |front|
        ensures LiesAt(q[i], t, r, front[i])
      {
        assert LiesAt(q'[i - k], t, r, front'[i - k]);
      }
      forall i | |front| <= i < |q|
        ensures LiesAt(q[i], t, r - 1, back[i - |front|])
      {
        assert LiesAt(q'[i - k], t, r - 1, back'[i - k - |front'|]);
      }
    }
    if && LiesAt(parent, t, r - 1, front[0] / 2)
       && (forall i :: k <= i < |front| ==> LiesAt(q[i], t, r, front[i]))
       && (forall i :: |front| <= i < |q| ==> LiesAt(q[i], t, r - 1, back[i - |front|]))
    {
      forall i | 0 <= i < |front'|
        ensures LiesAt(q'[i], t, r, front'[i])
      {
        assert q'[i] == q[i + k] && front'[i] == front[i + k];
      }
      forall i | |front'| <= i < |q'|
        ensures LiesAt(q'[i], t, r - 1, back'[i - |front'|])
      {
        if i < |q'| - 1 { assert q'[i] == q[i + k] && LiesAt(q[i + k], t, r - 1, back[i + k - |front|]); }
      }
    }
  }

  /** Whatever the items: the queue's entries lie in the value computed, at their nodes. */
  lemma {:induction false} WalkHolds<D>(q: seq<Entry<Hash<D>>>, c: Coord, h: nat, front: seq<nat>, back: seq<nat>,
                                        proof: seq<Hash<D>>)
    requires Climb(c, h, front, back) && Places(q, h, front, back) && Below(q, Pos(c.h, c.j))
    requires PeakWalk(Free<D>(), q, Pos(c.h, c.j), proof).Ok?
    ensures AllHold(q, PeakWalk(Free<D>(), q, Pos(c.h, c.j), proof).value.0, c.h - h, front, back)
    decreases c.h - h, |front|
  {
    hide Pos, Sib, Paired, IsRight, SibPos, ParentPos, Work, Under, Height, Size, Row, Climb, ParentItem, AllHold, Shr,
         Free, Places;
    var peakPos := Pos(c.h, c.j);
    var v := PeakWalk(Free<D>(), q, peakPos, proof).value.0;
    ClimbHeight(c, h, front, back);
    if front == [] {
      ClimbTurn(c, h, back);
      TurnHolds(q, v, c.h - h, back);
      PlacesTurn(q, h, back);
      if h + 1 < c.h {
        WalkHolds(q, c, h + 1, back, [], proof);
      }
    } else {
      var x := front[0];
      PlacesSizes(q, h, front, back);
      PlacesFront(q, h, front, back);
      ClimbPositions(c, h, front, back);
      ClimbStep(c, h, front, back);
      var k := StepDrops(q, h, front, back);
      var sibling := if SiblingQueued(q) then q[1].item else proof[0];
      var parent := Entry(ParentPos(q[0]), ParentItem(Free<D>(), q[0], sibling), q[0].height + 1);
      WorkFalls(q, parent, peakPos);
      PlacesDrop(q, parent, h, front, back, k, x / 2);
      var proof' := if Paired(front) then proof else proof[1..];
      WalkHolds(Behind(q) + [parent], c, h, Rest(front), back + [x / 2], proof');
      StepHolds(q, v, c.h - h, front, back, k, parent);
      FreeParent(q[0], sibling);
      FrontHolds(q, v, c.h - h, front, back, k, sibling, parent);
    }
  }

  lemma PlacesTurn<T>(q: seq<Entry<T>>, h: nat, back: seq<nat>)
    requires Places(q, h, [], back)
    ensures |q| == |back| && Places(q, h + 1, back, []) && (|back| == 1 ==> q[0].pos == Pos(h + 1, back[0]))
  {
    hide Pos;
  }

  lemma PlacesSizes<T>(q: seq<Entry<T>>, h: nat, front: seq<nat>, back: seq<nat>)
    requires Places(q, h, front, back)
    ensures |q| == |front| + |back| && (front != [] ==> q[0].height == h)
  {
    hide Pos;
  }

  lemma FrontHolds<D>(q: seq<Entry<Hash<D>>>, t: Hash<D>, r: nat, front: seq<nat>, back: seq<nat>, k: nat,
                      sibling: Hash<D>, parent: Entry<Hash<D>>)
    requires r > 0 && |q| == |front| + |back| && front != [] && k == if Paired(front) then 2 else 1
    requires Paired(front) ==> |q| > 1 && sibling == q[1].item
    requires parent.item == if front[0] % 2 == 1 then HNode(0, sibling, q[0].item) else HNode(0, q[0].item, sibling)
    requires LiesAt(parent, t, r - 1, front[0] / 2)
    requires forall i :: k <= i < |front| ==> LiesAt(q[i], t, r, front[i])
    requires forall i :: |front| <= i < |q| ==> LiesAt(q[i], t, r - 1, back[i - |front|])
    ensures AllHold(q, t, r, front, back)
  {
    hide Shr, Reaches, At;
    Further(t, r - 1, front[0]);
    if Paired(front) { Further(t, r - 1, front[1]); }
    forall i | 0 <= i < |front|
      ensures LiesAt(q[i], t, r, front[i])
    {
    }
  }

  /** The items with which entries that lie in a term are taken up to it. */
  lemma {:induction false} WalkTarget<D>(t: Hash<D>, q: seq<Entry<Hash<D>>>, c: Coord, h: nat, front: seq<nat>,
                                         back: seq<nat>) returns (items: seq<Hash<D>>)
    requires Climb(c, h, front, back) && Places(q, h, front, back) && Below(q, Pos(c.h, c.j))
    requires AllHold(q, t, c.h - h, front, back)
    ensures |items| == |Siblings(h, front, back, c.h)|
    ensures PeakWalk(Free<D>(), q, Pos(c.h, c.j), items) == Ok((t, []))
    decreases c.h - h, |front|
  {
    hide Pos, Sib, Paired, IsRight, SibPos, ParentPos, Work, Under, Height, Size, Row, Climb, ParentItem, AllHold, Shr,
         Free, Places, Siblings;
    var peakPos := Pos(c.h, c.j);
    ClimbHeight(c, h, front, back);
    if front == [] {
      ClimbTurn(c, h, back);
      TurnHolds(q, t, c.h - h, back);
      PlacesTurn(q, h, back);
      TurnSiblings(h, back, c.h);
      if h + 1 < c.h {
        items := WalkTarget(t, q, c, h + 1, back, []);
      } else {
        items := [];
      }
    } else {
      var x := front[0];
      PlacesSizes(q, h, front, back);
      PlacesFront(q, h, front, back);
      ClimbPositions(c, h, front, back);
      ClimbStep(c, h, front, back);
      SiblingsUnfold(h, front, back, c.h);
      var k := StepDrops(q, h, front, back);
      var sibling := TargetSibling(q, t, c.h - h, front, back);
      var parent := Entry(ParentPos(q[0]), ParentItem(Free<D>(), q[0], sibling), q[0].height + 1);
      FreeParent(q[0], sibling);
      TargetStep(q, t, c.h - h, front, back, k, sibling, parent);
      StepHolds(q, t, c.h - h, front, back, k, parent);
      WorkFalls(q, parent, peakPos);
      PlacesDrop(q, parent, h, front, back, k, x / 2);
      var rest := WalkTarget(t, Behind(q) + [parent], c, h, Rest(front), back + [x / 2]);
      items := if Paired(front) then rest else [sibling] + rest;
    }
  }

  lemma TurnSiblings(h: nat, back: seq<nat>, top: nat)
    requires h < top && back != []
    ensures Siblings(h, [], back, top) == Siblings(h + 1, back, [], top)
    ensures h + 1 == top ==> Siblings(h, [], back, top) == []
  {
  }

  /** The sibling of the front, queued or not. */
  lemma TargetSibling<D>(q: seq<Entry<Hash<D>>>, t: Hash<D>, r: nat, front: seq<nat>, back: seq<nat>)
    returns (sibling: Hash<D>)
    requires AllHold(q, t, r, front, back) && front != []
    ensures Reaches(t, r, Sib(front[0])) && sibling == At(t, r, Sib(front[0]))
    ensures Paired(front) ==> |q| > 1 && sibling == q[1].item
  {
    hide Shr, Reaches, At;
    assert LiesAt(q[0], t, r, front[0]);
    Twins(t, r - 1, front[0]);
    sibling := At(t, r, Sib(front[0]));
    if Paired(front) { assert LiesAt(q[1], t, r, front[1]); }
  }

  lemma TargetStep<D>(q: seq<Entry<Hash<D>>>, t: Hash<D>, r: nat, front: seq<nat>, back: seq<nat>, k: nat,
                      sibling: Hash<D>, parent: Entry<Hash<D>>)
    requires AllHold(q, t, r, front, back) && front != [] && 0 < k <= |front|
    requires Reaches(t, r, Sib(front[0])) && sibling == At(t, r, Sib(front[0]))
    requires parent.item == if front[0] % 2 == 1 then HNode(0, sibling, q[0].item) else HNode(0, q[0].item, sibling)
    ensures LiesAt(parent, t, r - 1, front[0] / 2)
    ensures forall i :: k <= i < |front| ==> LiesAt(q[i], t, r, front[i])
    ensures forall i :: |front| <= i < |q| ==> LiesAt(q[i], t, r - 1, back[i - |front|])
  {
    hide Shr, Reaches, At;
    assert LiesAt(q[0], t, r, front[0]);
    Twins(t, r - 1, front[0]);
  }
}
