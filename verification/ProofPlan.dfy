/**
 Which nodes an MMR inclusion proof carries, told by coordinates alone.

 Inside one mountain the proved leaves climb level by level; a node whose sibling is not
 proved as well needs that sibling. Mountains without a proved leaf contribute their peak,
 except that the ones right of the last proved leaf are bagged into a single item.
 */
module ProofPlan {
  import opened Bits
  import opened Forest
  import opened Nodes

  ghost predicate StrictlyAscending(s: seq<nat>) {
    forall i, k :: 0 <= i < k < |s| ==> s[i] < s[k]
  }

  /** Row h of the climb through mountain c: the nodes js, left to right. */
  ghost predicate Row(c: Coord, h: nat, js: seq<nat>) {
    StrictlyAscending(js) && forall i :: 0 <= i < |js| ==> Under(h, js[i], c.h, c.j)
  }

  predicate Paired(js: seq<nat>) {
    |js| > 1 && js[1] == Sib(js[0])
  }

  function Rest(js: seq<nat>): seq<nat>
    requires js != []
  {
    if Paired(js) then js[2..] else js[1..]
  }

  /** Siblings needed once `front` is left to climb in row h and `back` has already reached row h + 1. */
  function Siblings(h: nat, front: seq<nat>, back: seq<nat>, top: nat): seq<Coord>
    decreases if h < top then top - h else 0, |front|
  {
    if h >= top then []
    else if front == [] then if back == [] then [] else Siblings(h + 1, back, [], top)
    else
      (if Paired(front) then [] else [Coord(h, Sib(front[0]))])
      + Siblings(h, Rest(front), back + [front[0] / 2], top)
  }

  /** A state of the climb: row h is being left from the left, row h + 1 filled behind it. */
  ghost predicate Climb(c: Coord, h: nat, front: seq<nat>, back: seq<nat>) {
    && h < c.h
    && Row(c, h, front) && Row(c, h + 1, back)
    && (forall a, b :: 0 <= a < |back| && 0 <= b < |front| ==> back[a] < front[b] / 2)
    && front + back != []
  }

  lemma RestRow(c: Coord, h: nat, js: seq<nat>)
    requires Row(c, h, js) && js != []
    ensures Row(c, h, Rest(js))
  {
    hide Under, Sib;
    assert forall i :: 0 <= i < |Rest(js)| ==> Rest(js)[i] == js[i + |js| - |Rest(js)|];
  }

  /** Climbing one node keeps the state; the last row ends in the peak alone. */
  lemma ClimbStep(c: Coord, h: nat, front: seq<nat>, back: seq<nat>)
    requires Climb(c, h, front, back) && front != []
    ensures Climb(c, h, Rest(front), back + [front[0] / 2])
    ensures Under(h, Sib(front[0]), c.h, c.j)
    ensures h + 1 == c.h ==> Rest(front) == [] && back + [front[0] / 2] == [c.j]
  {
    hide Under, Sib, Rest, Paired;
    var x := front[0];
    ParentUnder(c, h, x);
    SiblingUnder(c, h, x);
    RestRow(c, h, front);
    forall b | 0 <= b < |Rest(front)|
      ensures x / 2 < Rest(front)[b] / 2
    {
      RestBeyond(front, b);
    }
    if h + 1 == c.h {
      RowAtTop(c, front);
      PeakRow(c, back + [x / 2]);
    }
  }

  /** What is left of a row belongs to later parents. */
  lemma RestBeyond(js: seq<nat>, b: nat)
    requires StrictlyAscending(js) && js != [] && b < |Rest(js)|
    ensures js[0] / 2 < Rest(js)[b] / 2
  {
    var y := Rest(js)[b];
    if Paired(js) {
      assert y == js[b + 2] && js[1] < js[b + 2];
    } else {
      assert y == js[b + 1] && js[0] < js[b + 1];
      assert b == 0 ==> y != Sib(js[0]);
      if b > 0 { assert js[1] < js[b + 1]; }
    }
  }

  lemma ParentUnder(c: Coord, h: nat, x: nat)
    requires Under(h, x, c.h, c.j) && h < c.h
    ensures Under(h + 1, x / 2, c.h, c.j)
  {
  }

  lemma SiblingUnder(c: Coord, h: nat, x: nat)
    requires Under(h, x, c.h, c.j) && h < c.h
    ensures Under(h, Sib(x), c.h, c.j)
  {
  }

  /** Just below the peak a row holds at most its two children. */
  lemma RowAtTop(c: Coord, js: seq<nat>)
    requires c.h > 0 && Row(c, c.h - 1, js) && js != []
    ensures Rest(js) == [] && js[0] / 2 == c.j
  {
    forall i | 0 <= i < |js|
      ensures js[i] / 2 == c.j
    {
      assert Under(c.h - 1, js[i], c.h, c.j);
      assert Shr(js[i], 1) == js[i] / 2;
    }
    if Rest(js) != [] { RestBeyond(js, 0); }
  }

  lemma PeakRow(c: Coord, js: seq<nat>)
    requires Row(c, c.h, js)
    ensures js == [] || js == [c.j]
  {
    assert |js| > 1 ==> js[0] < js[1];
    forall i | 0 <= i < |js|
      ensures js[i] == c.j
    {
      assert Under(c.h, js[i], c.h, c.j);
    }
  }

  /** Turning to the next row. */
  lemma ClimbTurn(c: Coord, h: nat, back: seq<nat>)
    requires Climb(c, h, [], back)
    ensures h + 1 == c.h ==> back == [c.j]
    ensures h + 1 < c.h ==> Climb(c, h + 1, back, [])
  {
    if h + 1 == c.h {
      PeakRow(c, back);
    }
    assert [] + back == back + [];
  }

  /** Every sibling asked for lies in the mountain. */
  lemma {:induction false} SiblingsUnder(c: Coord, h: nat, front: seq<nat>, back: seq<nat>)
    requires Climb(c, h, front, back)
    ensures forall i :: 0 <= i < |Siblings(h, front, back, c.h)| ==>
              var s := Siblings(h, front, back, c.h)[i]; s.h < c.h && Under(s.h, s.j, c.h, c.j)
    decreases c.h - h, |front|
  {
    hide Under, Rest, Paired, Sib;
    if front == [] {
      ClimbTurn(c, h, back);
      if h + 1 < c.h { SiblingsUnder(c, h + 1, back, []); }
    } else {
      ClimbStep(c, h, front, back);
      RestShorter(front);
      SiblingsUnder(c, h, Rest(front), back + [front[0] / 2]);
    }
  }

  lemma RestShorter(js: seq<nat>)
    requires js != []
    ensures |Rest(js)| < |js|
  {
  }

  // ----- the whole forest -----

  /** The elements of an ascending sequence below a bound come first. */
  function CountBelow(s: seq<nat>, bound: nat): (k: nat)
    ensures k <= |s|
    ensures forall i :: 0 <= i < k ==> s[i] < bound
    ensures k < |s| ==> s[k] >= bound
  {
    if s == [] || s[0] >= bound then 0 else 1 + CountBelow(s[1..], bound)
  }

  /** One item of a proof: the values of these nodes, bagged; a single node stands for itself. */
  type Item = cs: seq<Coord> | cs != [] witness [Coord(0, 0)]

  function Singles(cs: seq<Coord>): seq<Item> {
    seq(|cs|, i requires 0 <= i < |cs| => [cs[i]])
  }

  /** Items for one mountain, given the proved leaves in it. */
  function MountainPlan(here: seq<nat>, c: Coord): seq<Item> {
    if here == [] then [[c]] else Singles(Siblings(0, here, [], c.h))
  }

  /** Items for the peaks of height below k, given the proved leaves in them. */
  function Plan(n: nat, leaves: seq<nat>, k: nat): seq<Item>
    decreases k
  {
    if leaves == [] then if PeaksBelow(n, k) == [] then [] else [PeaksBelow(n, k)]
    else if k == 0 then []
    else if Shr(n, k - 1) % 2 == 0 then Plan(n, leaves, k - 1)
    else
      var c := Coord(k - 1, Shr(n, k - 1) - 1);
      var t := CountBelow(leaves, Shl(c.j + 1, c.h));
      MountainPlan(leaves[..t], c) + Plan(n, leaves[t..], k - 1)
  }

  /** The hashes the verifier then bags: one for each peak, the bagged ones in one. */
  function HashPlan(n: nat, leaves: seq<nat>, k: nat): seq<Item>
    decreases k
  {
    if leaves == [] then if PeaksBelow(n, k) == [] then [] else [PeaksBelow(n, k)]
    else if k == 0 then []
    else if Shr(n, k - 1) % 2 == 0 then HashPlan(n, leaves, k - 1)
    else
      var c := Coord(k - 1, Shr(n, k - 1) - 1);
      [[c]] + HashPlan(n, leaves[CountBelow(leaves, Shl(c.j + 1, c.h))..], k - 1)
  }

  /** How many peaks lie right of the last proved leaf. */
  function Trailing(n: nat, leaves: seq<nat>, k: nat): nat
    decreases k
  {
    if leaves == [] then |PeaksBelow(n, k)|
    else if k == 0 then 0
    else if Shr(n, k - 1) % 2 == 0 then Trailing(n, leaves, k - 1)
    else Trailing(n, leaves[CountBelow(leaves, Shl(Shr(n, k - 1), k - 1))..], k - 1)
  }

  lemma PlanUnfold(n: nat, indices: seq<nat>, k: nat)
    requires indices != [] && k > 0 && Shr(n, k - 1) % 2 == 1
    ensures var c := Coord(k - 1, Shr(n, k - 1) - 1);
            var t := CountBelow(indices, Shl(c.j + 1, c.h));
            && Plan(n, indices, k) == MountainPlan(indices[..t], c) + Plan(n, indices[t..], k - 1)
            && HashPlan(n, indices, k) == [[c]] + HashPlan(n, indices[t..], k - 1)
            && PeaksBelow(n, k) == [c] + PeaksBelow(n, k - 1)
  {
    hide Shl, Shr, CountBelow, MountainPlan;
  }

  lemma PlanSkip(n: nat, indices: seq<nat>, k: nat)
    requires k > 0 && Shr(n, k - 1) % 2 == 0
    ensures PeaksBelow(n, k) == PeaksBelow(n, k - 1)
    ensures Plan(n, indices, k) == Plan(n, indices, k - 1)
    ensures HashPlan(n, indices, k) == HashPlan(n, indices, k - 1)
  {
    hide Shr, Shl, CountBelow;
    assert PeaksBelow(n, k) == [] + PeaksBelow(n, k - 1);
  }

  lemma SinglesCons(c: Coord, cs: seq<Coord>)
    ensures Singles([c] + cs) == [[c]] + Singles(cs)
  {
  }

  /** Proved leaves of the peaks of height below k. */
  ghost predicate LeavesFrom(n: nat, leaves: seq<nat>, k: nat) {
    StrictlyAscending(leaves) && forall i :: 0 <= i < |leaves| ==> Shl(Shr(n, k), k) <= leaves[i] < n
  }

  /** The leaves of mountain c. */
  lemma UnderRange(i: nat, c: Coord)
    ensures Under(0, i, c.h, c.j) <==> Shl(c.j, c.h) <= i < Shl(c.j + 1, c.h)
  {
    ShlShr(c.j, i, c.h);
    ShlShr(c.j + 1, i, c.h);
  }

  /** The row below k of the decided part of n, with and without a peak of height k - 1. */
  lemma DecidedStep(n: nat, k: nat)
    requires k > 0
    ensures Shr(n, k - 1) % 2 == 0 ==> Shl(Shr(n, k - 1), k - 1) == Shl(Shr(n, k), k)
    ensures Shr(n, k - 1) % 2 == 1 ==> Shl(Shr(n, k - 1) - 1, k - 1) == Shl(Shr(n, k), k)
  {
    ShrStep(n, k - 1);
    ShlHalves(Shr(n, k), k - 1);
  }

  lemma LeafBounds(n: nat, leaves: seq<nat>, k: nat)
    requires LeavesFrom(n, leaves, k) && leaves != []
    ensures Shl(Shr(n, k), k) <= leaves[0] < n
  {
    hide Shl, Shr;
  }

  lemma LeavesDone(n: nat, leaves: seq<nat>)
    requires LeavesFrom(n, leaves, 0)
    ensures leaves == []
  {
    if leaves != [] { LeafBounds(n, leaves, 0); }
  }

  lemma LeavesSkip(n: nat, leaves: seq<nat>, k: nat)
    requires LeavesFrom(n, leaves, k) && k > 0 && Shr(n, k - 1) % 2 == 0
    ensures LeavesFrom(n, leaves, k - 1)
  {
    hide Shl, Shr;
    DecidedStep(n, k);
  }

  lemma SliceAscending(s: seq<nat>, t: nat)
    requires StrictlyAscending(s) && t <= |s|
    ensures StrictlyAscending(s[..t]) && StrictlyAscending(s[t..])
  {
  }

  lemma LeavesHere(leaves: seq<nat>, c: Coord)
    requires StrictlyAscending(leaves) && forall i :: 0 <= i < |leaves| ==> Shl(c.j, c.h) <= leaves[i]
    ensures var t := CountBelow(leaves, Shl(c.j + 1, c.h));
            && Row(c, 0, leaves[..t])
            && (t > 0 && c.h > 0 ==> Climb(c, 0, leaves[..t], []))
            && (t > 0 && c.h == 0 ==> leaves[..t] == [c.j])
  {
    hide Shl, Shr, Under;
    var t := CountBelow(leaves, Shl(c.j + 1, c.h));
    SliceAscending(leaves, t);
    forall i | 0 <= i < t
      ensures Under(0, leaves[..t][i], c.h, c.j)
    {
      UnderRange(leaves[i], c);
    }
    if c.h == 0 { PeakRow(c, leaves[..t]); }
  }

  lemma LeavesBeyond(leaves: seq<nat>, bound: nat)
    requires StrictlyAscending(leaves)
    ensures forall i :: CountBelow(leaves, bound) <= i < |leaves| ==> bound <= leaves[i]
  {
    var t := CountBelow(leaves, bound);
    assert forall i :: t < i < |leaves| ==> leaves[t] < leaves[i];
  }

  /** The proved leaves of the highest mountain left, and those beyond it. */
  lemma LeavesSplit(n: nat, leaves: seq<nat>, k: nat)
    requires LeavesFrom(n, leaves, k) && k > 0 && Shr(n, k - 1) % 2 == 1
    ensures var c := Coord(k - 1, Shr(n, k - 1) - 1);
            var t := CountBelow(leaves, Shl(c.j + 1, c.h));
            && InForest(n, c)
            && LeavesFrom(n, leaves[t..], k - 1)
            && Row(c, 0, leaves[..t])
            && (t > 0 && c.h > 0 ==> Climb(c, 0, leaves[..t], []))
            && (t > 0 && c.h == 0 ==> leaves[..t] == [c.j])
  {
    hide Shl, Shr, Under, CountBelow, Climb, Row;
    DecidedStep(n, k);
    var c := Coord(k - 1, Shr(n, k - 1) - 1);
    LeavesHere(leaves, c);
    LeavesBeyond(leaves, Shl(c.j + 1, c.h));
    SliceAscending(leaves, CountBelow(leaves, Shl(c.j + 1, c.h)));
  }

  ghost predicate PlanIn(n: nat, plan: seq<Item>) {
    forall i :: 0 <= i < |plan| ==> AllIn(n, plan[i])
  }

  lemma ShrZeroBits(n: nat)
    ensures Shr(n, 0) == n
  {
  }

  /** Every leaf lies in a mountain. */
  lemma {:induction false} LeafInMountain(n: nat, k: nat, i: nat) returns (a: nat)
    requires i < n && Shl(Shr(n, k), k) <= i
    ensures a < |PeaksBelow(n, k)| && Under(0, i, PeaksBelow(n, k)[a].h, PeaksBelow(n, k)[a].j)
    decreases k
  {
    hide Shl, Shr, Under;
    a := 0;
    if k == 0 {
      ShlShr(Shr(n, 0), i, 0);
      ShrZeroBits(n);
      ShrZeroBits(i);
    } else {
      DecidedStep(n, k);
      PeaksBelowStep(n, k);
      var c := Coord(k - 1, Shr(n, k - 1));
      if Shr(n, k - 1) % 2 == 0 {
        a := LeafInMountain(n, k - 1, i);
      } else if Shl(Shr(n, k - 1), k - 1) <= i {
        a := LeafInMountain(n, k - 1, i);
        a := a + 1;
      } else {
        UnderRange(i, Coord(k - 1, Shr(n, k - 1) - 1));
      }
    }
  }

  lemma LeafInPeak(n: nat, i: nat) returns (a: nat)
    requires i < n
    ensures a < |Peaks(n)| && Under(0, i, Peaks(n)[a].h, Peaks(n)[a].j)
  {
    hide Shl, Shr, Under, PeaksBelow;
    BitLengthBounds(n);
    ShrZero(n, BitLength(n));
    ShlLinear(0, 0, BitLength(n));
    a := LeafInMountain(n, BitLength(n), i);
  }

  /** Without peaks below height k all leaves are decided. */
  lemma {:induction false} NoneLeft(n: nat, k: nat)
    requires PeaksBelow(n, k) == []
    ensures Shl(Shr(n, k), k) == n
    decreases k
  {
    hide Shr, Shl, PeaksBelow;
    if k > 0 {
      PeaksBelowStep(n, k);
      DecidedStep(n, k);
      NoneLeft(n, k - 1);
    } else {
      NoShift(n);
    }
  }

  lemma NoShift(n: nat)
    ensures Shl(Shr(n, 0), 0) == n
  {
  }
}
