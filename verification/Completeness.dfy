/**
 Multi-leaf completeness: the proof the prover owes makes the verifier arrive at the root.
 */
module Completeness {
  import opened Bits
  import opened Forest
  import opened Nodes
  import opened Bagging
  import opened ProofPlan
  import opened QueueWalk
  import opened ProofSpec
  import opened Wrappers

  /** The leaves of a proof, each with the position and hash the forest holds at that index. */
  ghost predicate TrueLeaves<T>(ls: seq<T>, indices: seq<nat>, leaves: seq<Leaf<T>>) {
    && |leaves| == |indices|
    && forall i :: 0 <= i < |indices| ==>
         indices[i] < |ls| && leaves[i].pos == Size(indices[i]) && leaves[i].item == ls[indices[i]]
  }

  /** A leaf lies before a peak exactly when it lies in that mountain or left of it. */
  lemma LeafBeforePeak(i: nat, c: Coord)
    ensures Size(i) <= Pos(c.h, c.j) <==> i < Shl(c.j + 1, c.h)
    ensures Size(i) == Pos(c.h, c.j) <==> c == Coord(0, i)
  {
    hide Size, Pos, Shl;
    var l := LastLeaf(c.h, c.j);
    PosFromLastLeaf(c.h, c.j);
    if i <= l { SizeMono(i, l); } else { SizeMono(l + 1, i); }
    LeafPos(i);
    if Size(i) == Pos(c.h, c.j) { PosInjective(Coord(0, i), c); }
  }

  lemma {:induction false} UpToIsCount<T>(ls: seq<T>, indices: seq<nat>, leaves: seq<Leaf<T>>, c: Coord)
    requires TrueLeaves(ls, indices, leaves)
    ensures UpTo(leaves, Pos(c.h, c.j)) == CountBelow(indices, Shl(c.j + 1, c.h))
  {
    hide Size, Pos, Shl;
    if indices != [] {
      LeafBeforePeak(indices[0], c);
      UpToIsCount(ls, indices[1..], leaves[1..], c);
    }
  }

  lemma TrueQueue<T>(m: Hasher<T>, ls: seq<T>, indices: seq<nat>, leaves: seq<Leaf<T>>)
    requires TrueLeaves(ls, indices, leaves)
    ensures Places(Queue(leaves), 0, indices, [])
    ensures Carries(Queue(leaves), MmrCombine(m), ls, 0, indices, [])
  {
    hide Size, Pos, InForest;
    forall i | 0 <= i < |indices|
      ensures leaves[i].pos == Pos(0, indices[i])
      ensures InForest(|ls|, Coord(0, indices[i])) && leaves[i].item == Node(MmrCombine(m), ls, 0, indices[i])
    {
      LeafPos(indices[i]);
      LevelZero(|ls|, indices[i]);
    }
  }

  /** One mountain: its proved leaves and its share of the plan give its peak. */
  lemma MountainVerifies<T>(m: Hasher<T>, ls: seq<T>, c: Coord, here: seq<nat>, leaves: seq<Leaf<T>>, more: seq<T>)
    requires InForest(|ls|, c) && TrueLeaves(ls, here, leaves)
    requires here != [] && c.h > 0 ==> Climb(c, 0, here, [])
    requires here != [] && c.h == 0 ==> here == [c.j]
    requires forall i :: 0 <= i < |leaves| ==> leaves[i].pos <= Pos(c.h, c.j)
    ensures PlanIn(|ls|, MountainPlan(here, c))
    ensures MountainHash(m, leaves, Pos(c.h, c.j), ItemValues(m, ls, MountainPlan(here, c)) + more)
            == Ok((Node(MmrCombine(m), ls, c.h, c.j), more))
  {
    hide Size, Pos, InForest, Climb, PeakWalk, Queue, Singles, MmrCombine;
    MountainPlanIn(|ls|, here, c);
    if here == [] {
      SinglesValues(m, ls, [c]);
      LonePeak(m, ls, c);
    } else if c.h == 0 {
      LeafPos(c.j);
      LevelZero(|ls|, c.j);
      NoSiblings(here);
      NoItems(m, ls);
      assert [] + more == more;
    } else {
      TrueQueue(m, ls, here, leaves);
      LeafBeforePeak(here[0], c);
      ClimbBelow(Queue(leaves), c, 0, here, []);
      PeakWalkIsClimb(m, ls, Queue(leaves), c, 0, here, [], more);
      ClimbSiblingsIn(|ls|, c, 0, here, []);
      SinglesValues(m, ls, Siblings(0, here, [], c.h));
    }
  }

  lemma LonePeak<T>(m: Hasher<T>, ls: seq<T>, c: Coord)
    requires InForest(|ls|, c)
    ensures PlanIn(|ls|, [[c]]) && ItemValues(m, ls, [[c]]) == [Node(MmrCombine(m), ls, c.h, c.j)]
  {
    hide InForest, Node, MmrCombine;
    assert AllIn(|ls|, [c]);
  }

  lemma NoSiblings(here: seq<nat>)
    ensures Singles(Siblings(0, here, [], 0)) == []
  {
  }

  lemma NoItems<T>(m: Hasher<T>, ls: seq<T>)
    ensures PlanIn(|ls|, []) && ItemValues(m, ls, []) == []
  {
  }

  /** One turn of the loop over the peaks. */
  lemma PeakHashesStep<T>(m: Hasher<T>, leaves: seq<Leaf<T>>, peakPos: nat, peaks: seq<nat>, proof: seq<T>,
                          hash: T, proof': seq<T>, hashes: seq<T>)
    requires UpTo(leaves, peakPos) > 0 || proof != []
    requires MountainHash(m, leaves[..UpTo(leaves, peakPos)], peakPos, proof) == Ok((hash, proof'))
    requires PeakHashes(m, leaves[UpTo(leaves, peakPos)..], peaks, proof') == Ok((hashes, [], []))
    ensures PeakHashes(m, leaves, [peakPos] + peaks, proof) == Ok(([hash] + hashes, [], []))
  {
    hide UpTo, MountainHash;
    assert ([peakPos] + peaks)[1..] == peaks;
  }

  /** Right of the last proved leaf a single item stands for all peaks. */
  lemma BareTail<T>(m: Hasher<T>, peaks: seq<nat>, x: T)
    requires peaks != []
    ensures PeakHashes(m, [], peaks, [x]) == Ok(([x], [], []))
  {
    var none: seq<Leaf<T>> := [];
    assert PeakHashes(m, none, peaks[1..], []) == Ok(([], none, []));
    assert [x][1..] == [] && none[..0] == none && none[0..] == none;
    PeakHashesStep(m, none, peaks[0], peaks[1..], [x], x, [], []);
    assert [x] + [] == [x];
    assert peaks == [peaks[0]] + peaks[1..];
  }

  lemma {:induction false} PlanVerifies<T>(m: Hasher<T>, ls: seq<T>, indices: seq<nat>, leaves: seq<Leaf<T>>, k: nat)
    requires LeavesFrom(|ls|, indices, k) && TrueLeaves(ls, indices, leaves)
    ensures PlanIn(|ls|, Plan(|ls|, indices, k)) && PlanIn(|ls|, HashPlan(|ls|, indices, k))
    ensures PeakHashes(m, leaves, Positions(PeaksBelow(|ls|, k)), ItemValues(m, ls, Plan(|ls|, indices, k)))
            == Ok((ItemValues(m, ls, HashPlan(|ls|, indices, k)), [], []))
    decreases k
  {
    hide Size, Pos, Shl, Shr, InForest, Positions, ItemValues, MountainPlan, LeavesFrom, Climb, Row, MountainHash, UpTo,
         CountBelow, PeakHashes, TrueLeaves;
    var n := |ls|;
    PlanInForest(n, indices, k);
    if indices == [] {
      assert leaves == [] by { TrueSize(ls, indices, leaves); }
      PeaksBelowIn(n, k);
      PlanTail(m, ls, k);
    } else if k == 0 {
      LeavesDone(n, indices);
    } else if Shr(n, k - 1) % 2 == 0 {
      LeavesSkip(n, indices, k);
      PlanVerifies(m, ls, indices, leaves, k - 1);
      assert PeaksBelow(n, k) == [] + PeaksBelow(n, k - 1) == PeaksBelow(n, k - 1);
    } else {
      var c := Coord(k - 1, Shr(n, k - 1) - 1);
      var t := CountBelow(indices, Shl(c.j + 1, c.h));
      LeavesSplit(n, indices, k);
      TrueSplit(ls, indices, leaves, t);
      UpToIsCount(ls, indices, leaves, c);
      PlanVerifies(m, ls, indices[t..], leaves[t..], k - 1);
      PlanInForest(n, indices[t..], k - 1);
      PlanMountain(m, ls, indices, leaves, k);
    }
  }

  lemma TrueSize<T>(ls: seq<T>, indices: seq<nat>, leaves: seq<Leaf<T>>)
    requires TrueLeaves(ls, indices, leaves)
    ensures |leaves| == |indices|
  {
  }

  lemma TrueSplit<T>(ls: seq<T>, indices: seq<nat>, leaves: seq<Leaf<T>>, t: nat)
    requires TrueLeaves(ls, indices, leaves) && t <= |indices|
    ensures |leaves| == |indices|
    ensures TrueLeaves(ls, indices[..t], leaves[..t]) && TrueLeaves(ls, indices[t..], leaves[t..])
  {
    hide Size;
  }

  lemma PlanTail<T>(m: Hasher<T>, ls: seq<T>, k: nat)
    ensures PlanIn(|ls|, Plan(|ls|, [], k))
    ensures PeakHashes(m, [], Positions(PeaksBelow(|ls|, k)), ItemValues(m, ls, Plan(|ls|, [], k)))
            == Ok((ItemValues(m, ls, HashPlan(|ls|, [], k)), [], []))
  {
    hide PeaksBelow, Pos, InForest, Node, PeakHashes;
    var peaks := PeaksBelow(|ls|, k);
    PeaksBelowIn(|ls|, k);
    if peaks == [] {
      PeaksNone(m);
      NoItems(m, ls);
    } else {
      BareTail(m, Positions(peaks), ItemValue(m, ls, peaks));
      assert ItemValues(m, ls, [peaks]) == [ItemValue(m, ls, peaks)];
    }
  }

  lemma PeaksNone<T>(m: Hasher<T>)
    ensures PeakHashes(m, [], Positions([]), []) == Ok(([], [], []))
  {
  }

  /** The step of the loop over the peaks at a mountain. */
  lemma PlanMountain<T>(m: Hasher<T>, ls: seq<T>, indices: seq<nat>, leaves: seq<Leaf<T>>, k: nat)
    requires LeavesFrom(|ls|, indices, k) && TrueLeaves(ls, indices, leaves) && indices != []
    requires k > 0 && Shr(|ls|, k - 1) % 2 == 1
    requires PlanIn(|ls|, Plan(|ls|, indices, k)) && PlanIn(|ls|, HashPlan(|ls|, indices, k))
    requires var t := CountBelow(indices, Shl(Shr(|ls|, k - 1) - 1 + 1, k - 1));
             && t <= |leaves|
             && PlanIn(|ls|, Plan(|ls|, indices[t..], k - 1)) && PlanIn(|ls|, HashPlan(|ls|, indices[t..], k - 1))
             && PeakHashes(m, leaves[t..], Positions(PeaksBelow(|ls|, k - 1)),
                           ItemValues(m, ls, Plan(|ls|, indices[t..], k - 1)))
                == Ok((ItemValues(m, ls, HashPlan(|ls|, indices[t..], k - 1)), [], []))
    ensures PeakHashes(m, leaves, Positions(PeaksBelow(|ls|, k)), ItemValues(m, ls, Plan(|ls|, indices, k)))
            == Ok((ItemValues(m, ls, HashPlan(|ls|, indices, k)), [], []))
  {
    hide Size, Pos, Shl, Shr, InForest, ItemValues, MountainPlan, LeavesFrom, Climb, Row, MountainHash, Node, ItemValue,
         UpTo, CountBelow, TrueLeaves, AllIn, MmrCombine, Positions, PeakHashes, Plan, HashPlan;
    var n := |ls|;
    var c := Coord(k - 1, Shr(n, k - 1) - 1);
    var t := CountBelow(indices, Shl(c.j + 1, c.h));
    LeavesSplit(n, indices, k);
    TrueSplit(ls, indices, leaves, t);
    UpToIsCount(ls, indices, leaves, c);
    PlanUnfold(n, indices, k);
    var plan, tail := MountainPlan(indices[..t], c), Plan(n, indices[t..], k - 1);
    MountainPlanIn(n, indices[..t], c);
    ItemValuesAppend(m, ls, plan, tail);
    MountainVerifies(m, ls, c, indices[..t], leaves[..t], ItemValues(m, ls, tail));
    LonePeak(m, ls, c);
    ItemValuesAppend(m, ls, [[c]], HashPlan(n, indices[t..], k - 1));
    PositionsCons(c, PeaksBelow(n, k - 1));
    if t == 0 { BareItem(m, ls, c); }
    PeakHashesStep(m, leaves, Pos(c.h, c.j), Positions(PeaksBelow(n, k - 1)), ItemValues(m, ls, plan + tail),
                   Node(MmrCombine(m), ls, c.h, c.j), ItemValues(m, ls, tail),
                   ItemValues(m, ls, HashPlan(n, indices[t..], k - 1)));
  }

  lemma BareItem<T>(m: Hasher<T>, ls: seq<T>, c: Coord)
    requires InForest(|ls|, c)
    ensures PlanIn(|ls|, MountainPlan([], c)) && |ItemValues(m, ls, MountainPlan([], c))| == 1
  {
    LonePeak(m, ls, c);
  }

  lemma PositionsCons(c: Coord, cs: seq<Coord>)
    ensures Positions([c] + cs) == [Pos(c.h, c.j)] + Positions(cs)
  {
    hide Pos;
  }

  // ----- bagging what the verifier collects -----

  /** A proof has an item for every peak unless two or more trail the last proved leaf. */
  lemma {:induction false} HashPlanFlat(n: nat, indices: seq<nat>, k: nat)
    requires LeavesFrom(n, indices, k) && Trailing(n, indices, k) <= 1
    ensures HashPlan(n, indices, k) == Singles(PeaksBelow(n, k))
    decreases k
  {
    hide Shl, Shr, LeavesFrom, CountBelow, HashPlan, Plan, PeaksBelow, Singles, Trailing, MountainPlan, Climb, Row, Under;
    TrailingUnfold(n, indices, k);
    if indices == [] {
      FlatTail(n, k);
    } else if k == 0 {
      LeavesDone(n, indices);
    } else if Shr(n, k - 1) % 2 == 0 {
      LeavesSkip(n, indices, k);
      PlanSkip(n, indices, k);
      HashPlanFlat(n, indices, k - 1);
    } else {
      var c := Coord(k - 1, Shr(n, k - 1) - 1);
      var t := CountBelow(indices, Shl(c.j + 1, c.h));
      LeavesSplit(n, indices, k);
      PlanUnfold(n, indices, k);
      HashPlanFlat(n, indices[t..], k - 1);
      SinglesCons(c, PeaksBelow(n, k - 1));
    }
  }

  lemma TrailingUnfold(n: nat, indices: seq<nat>, k: nat)
    ensures indices == [] ==> Trailing(n, indices, k) == |PeaksBelow(n, k)|
    ensures indices != [] && k > 0 ==>
              Trailing(n, indices, k)
              == if Shr(n, k - 1) % 2 == 0 then Trailing(n, indices, k - 1)
                 else Trailing(n, indices[CountBelow(indices, Shl(Shr(n, k - 1) - 1 + 1, k - 1))..], k - 1)
  {
    hide Shl, Shr, CountBelow, PeaksBelow;
  }

  lemma FlatTail(n: nat, k: nat)
    requires |PeaksBelow(n, k)| <= 1
    ensures HashPlan(n, [], k) == Singles(PeaksBelow(n, k))
  {
    hide PeaksBelow;
    var peaks := PeaksBelow(n, k);
    if peaks != [] { assert peaks == [peaks[0]]; }
  }

  /** Bagging the collected hashes, after any that precede them, is bagging all peaks. */
  ghost predicate BagsAll<T>(m: Hasher<T>, ls: seq<T>, indices: seq<nat>, k: nat, pre: seq<T>) {
    && PlanIn(|ls|, HashPlan(|ls|, indices, k)) && AllIn(|ls|, PeaksBelow(|ls|, k))
    && var hashes := ItemValues(m, ls, HashPlan(|ls|, indices, k));
    && var peaks := Values(MmrCombine(m), ls, PeaksBelow(|ls|, k));
    && pre + hashes != [] && pre + peaks != []
    && Bag(m, pre + hashes) == Bag(m, pre + peaks)
  }

  lemma {:induction false} BagHashes<T>(m: Hasher<T>, ls: seq<T>, indices: seq<nat>, k: nat, pre: seq<T>)
    requires LeavesFrom(|ls|, indices, k)
    requires pre != [] || PeaksBelow(|ls|, k) != []
    ensures BagsAll(m, ls, indices, k, pre)
    decreases k
  {
    hide Shl, Shr, LeavesFrom, CountBelow, MmrCombine, Node, PeaksBelow, HashPlan, BagsAll;
    var n := |ls|;
    if indices == [] {
      BagTail(m, ls, k, pre);
    } else if k == 0 {
      LeavesDone(n, indices);
    } else if Shr(n, k - 1) % 2 == 0 {
      LeavesSkip(n, indices, k);
      PlanSkip(n, indices, k);
      BagHashes(m, ls, indices, k - 1, pre);
      BagSkip(m, ls, indices, k, pre);
    } else {
      var c := Coord(k - 1, Shr(n, k - 1) - 1);
      var t := CountBelow(indices, Shl(c.j + 1, c.h));
      LeavesSplit(n, indices, k);
      BagHashes(m, ls, indices[t..], k - 1, pre + [Node(MmrCombine(m), ls, c.h, c.j)]);
      BagMountain(m, ls, indices, k, pre);
    }
  }

  lemma BagSkip<T>(m: Hasher<T>, ls: seq<T>, indices: seq<nat>, k: nat, pre: seq<T>)
    requires k > 0 && Shr(|ls|, k - 1) % 2 == 0
    requires BagsAll(m, ls, indices, k - 1, pre)
    ensures BagsAll(m, ls, indices, k, pre)
  {
    hide Shr, HashPlan, PeaksBelow, Values, ItemValues, Bag, PlanIn, AllIn;
    PlanSkip(|ls|, indices, k);
  }

  lemma BagMountain<T>(m: Hasher<T>, ls: seq<T>, indices: seq<nat>, k: nat, pre: seq<T>)
    requires LeavesFrom(|ls|, indices, k) && indices != []
    requires k > 0 && Shr(|ls|, k - 1) % 2 == 1
    requires InForest(|ls|, Coord(k - 1, Shr(|ls|, k - 1) - 1))
    requires var c := Coord(k - 1, Shr(|ls|, k - 1) - 1);
             BagsAll(m, ls, indices[CountBelow(indices, Shl(c.j + 1, c.h))..], k - 1,
                     pre + [Node(MmrCombine(m), ls, c.h, c.j)])
    ensures BagsAll(m, ls, indices, k, pre)
  {
    hide Shl, Shr, LeavesFrom, CountBelow, ItemValues, Values, MmrCombine, AllIn, Bag, PlanIn, Node, PeaksBelow, HashPlan,
         InForest;
    var n, f := |ls|, MmrCombine(m);
    var c := Coord(k - 1, Shr(n, k - 1) - 1);
    var rest := indices[CountBelow(indices, Shl(c.j + 1, c.h))..];
    var x := Node(f, ls, c.h, c.j);
    PlanUnfold(n, indices, k);
    PeaksBelowIn(n, k);
    LonePeak(m, ls, c);
    ItemValuesAppend(m, ls, [[c]], HashPlan(n, rest, k - 1));
    ValuesHead(f, ls, c, PeaksBelow(n, k - 1), []);
    Shift(pre, x, ItemValues(m, ls, HashPlan(n, rest, k - 1)));
    Shift(pre, x, Values(f, ls, PeaksBelow(n, k - 1)));
    Shift([], x, Values(f, ls, [c] + PeaksBelow(n, k - 1)));
  }

  lemma Shift<T>(a: seq<T>, x: T, b: seq<T>)
    ensures (a + [x]) + b == a + ([x] + b)
    ensures [x] + b + [] == [x] + b && b + [] == b
  {
  }

  lemma BagTail<T>(m: Hasher<T>, ls: seq<T>, k: nat, pre: seq<T>)
    requires pre != [] || PeaksBelow(|ls|, k) != []
    ensures BagsAll(m, ls, [], k, pre)
  {
    hide PeaksBelow, InForest, Node, MmrCombine, Bag;
    var peaks := PeaksBelow(|ls|, k);
    PeaksBelowIn(|ls|, k);
    var values := Values(MmrCombine(m), ls, peaks);
    if peaks != [] {
      BagSuffix(m, pre, values);
      assert ItemValues(m, ls, [peaks]) == [Bag(m, values)];
    } else {
      NoItems(m, ls);
    }
  }

  // ----- sorting the leaves given -----

  lemma {:induction false} InsertAscending(x: nat, s: seq<nat>)
    requires StrictlyAscending(s)
    ensures StrictlyAscending(InsertFirst<nat>(PosKey, x, s))
    ensures forall p :: p in InsertFirst<nat>(PosKey, x, s) <==> p == x || p in s
  {
    if s != [] && x > s[0] {
      InsertAscending(x, s[1..]);
      InsertHead(x, s);
    } else if s != [] && x == s[0] {
      assert s == [s[0]] + s[1..] && InsertFirst<nat>(PosKey, x, s) == s;
    } else {
      assert s != [] ==> forall i :: 0 < i < |s| ==> s[0] < s[i];
    }
  }

  lemma InsertHead(x: nat, s: seq<nat>)
    requires StrictlyAscending(s) && s != [] && x > s[0]
    requires StrictlyAscending(InsertFirst<nat>(PosKey, x, s[1..]))
    requires forall p :: p in InsertFirst<nat>(PosKey, x, s[1..]) <==> p == x || p in s[1..]
    ensures StrictlyAscending(InsertFirst<nat>(PosKey, x, s))
    ensures forall p :: p in InsertFirst<nat>(PosKey, x, s) <==> p == x || p in s
  {
    var r := InsertFirst<nat>(PosKey, x, s[1..]);
    assert InsertFirst<nat>(PosKey, x, s) == [s[0]] + r;
    hide InsertFirst;
    forall i | 0 <= i < |r|
      ensures s[0] < r[i]
    {
      assert r[i] in r;
    }
    assert s == [s[0]] + s[1..];
  }

  /** Sorting and removing duplicates keeps exactly the positions given. */
  lemma {:induction false} DistinctAscending(s: seq<nat>)
    ensures StrictlyAscending(Distinct<nat>(PosKey, s))
    ensures forall p :: p in Distinct<nat>(PosKey, s) <==> p in s
  {
    if s != [] {
      DistinctAscending(s[1..]);
      InsertAscending(s[0], Distinct<nat>(PosKey, s[1..]));
      assert s == [s[0]] + s[1..];
    }
  }

  function LeafPositions<T>(leaves: seq<Leaf<T>>): seq<nat> {
    seq(|leaves|, i requires 0 <= i < |leaves| => leaves[i].pos)
  }

  lemma {:induction false} InsertPositions<T>(x: Leaf<T>, s: seq<Leaf<T>>)
    ensures LeafPositions(InsertFirst(LeafKey, x, s)) == InsertFirst<nat>(PosKey, x.pos, LeafPositions(s))
    ensures forall l :: l in InsertFirst(LeafKey, x, s) ==> l == x || l in s
  {
    if s != [] {
      InsertPositions(x, s[1..]);
      assert LeafPositions(s)[1..] == LeafPositions(s[1..]);
    }
  }

  /** Leaves are sorted by position, and each survivor is one of those given. */
  lemma {:induction false} DistinctPositions<T>(leaves: seq<Leaf<T>>)
    ensures LeafPositions(Distinct(LeafKey, leaves)) == Distinct<nat>(PosKey, LeafPositions(leaves))
    ensures forall l :: l in Distinct(LeafKey, leaves) ==> l in leaves
  {
    if leaves != [] {
      DistinctPositions(leaves[1..]);
      assert LeafPositions(leaves)[1..] == LeafPositions(leaves[1..]);
      InsertPositions(leaves[0], Distinct(LeafKey, leaves[1..]));
    }
  }

  lemma FirstMember(s: seq<nat>)
    ensures s == [] || s[0] in s
  {
  }

  lemma {:induction false} AscendingUnique(a: seq<nat>, b: seq<nat>)
    requires StrictlyAscending(a) && StrictlyAscending(b)
    requires forall p :: p in a <==> p in b
    ensures a == b
  {
    if a == [] {
      FirstMember(b);
    } else {
      assert a[0] in a && a[0] in b;
      assert b[0] in b && b[0] in a;
      assert a == [a[0]] + a[1..] && b == [b[0]] + b[1..];
      assert a[0] !in a[1..] && b[0] !in b[1..];
      assert a[0] <= b[0] <= a[0];
      forall p: nat
        ensures p in a[1..] <==> p in b[1..]
      {
        assert p in a <==> p == a[0] || p in a[1..];
        assert p in b <==> p == b[0] || p in b[1..];
      }
      AscendingUnique(a[1..], b[1..]);
    }
  }

  // ----- the result -----

  /** Leaf indices of the distinct positions asked for. */
  ghost function LeafIndices(positions: seq<nat>): seq<nat> {
    var ps := Distinct<nat>(PosKey, positions);
    seq(|ps|, i requires 0 <= i < |ps| => Block(ps[i]))
  }

  ghost predicate LeafPosition(n: nat, p: nat) {
    p < Size(n) && Height(p) == 0
  }

  lemma LeafIndex(n: nat, p: nat)
    requires LeafPosition(n, p)
    ensures Block(p) < n && Size(Block(p)) == p
  {
    hide Size, Pos;
    PosOfCoord(p);
    LeafPos(Block(p));
    if n <= Block(p) { SizeMono(n, Block(p)); }
  }

  lemma AllLeaves(n: nat)
    ensures Shl(Shr(n, BitLength(n)), BitLength(n)) == 0
  {
    hide Shl, Shr;
    if n > 0 { BitLengthBounds(n); }
    ShrZero(n, BitLength(n));
    ShlLinear(0, 0, BitLength(n));
    assert n == 0 ==> BitLength(n) == 0;
  }

  lemma IndicesFrom(n: nat, positions: seq<nat>)
    requires forall p :: p in positions ==> LeafPosition(n, p)
    ensures LeavesFrom(n, LeafIndices(positions), BitLength(n))
    ensures LeafIndices(positions) == [] <==> positions == []
  {
    hide Shl, Shr, LeafPosition, Size, Block;
    var ps, idx := Distinct<nat>(PosKey, positions), LeafIndices(positions);
    DistinctAscending(positions);
    AllLeaves(n);
    forall i | 0 <= i < |idx|
      ensures idx[i] < n && Size(idx[i]) == ps[i]
    {
      assert ps[i] in ps;
      LeafIndex(n, ps[i]);
    }
    forall i, k | 0 <= i < k < |idx|
      ensures idx[i] < idx[k]
    {
      if idx[k] <= idx[i] { SizeMono(idx[k], idx[i]); }
    }
    if positions != [] { assert positions[0] in ps; }
  }

  /** The items `gen_proof` puts into the proof of these positions. */
  ghost function ProofItems<T>(m: Hasher<T>, ls: seq<T>, positions: seq<nat>): seq<T>
    requires forall p :: p in positions ==> LeafPosition(|ls|, p)
  {
    IndicesFrom(|ls|, positions);
    PlanInForest(|ls|, LeafIndices(positions), BitLength(|ls|));
    ItemValues(m, ls, Plan(|ls|, LeafIndices(positions), BitLength(|ls|)))
  }

  /** The leaves handed to the verifier: true ones, at exactly the positions asked for, in any order. */
  ghost predicate LeavesFor<T>(ls: seq<T>, positions: seq<nat>, leaves: seq<Leaf<T>>) {
    && (forall p :: p in positions <==> p in LeafPositions(leaves))
    && (forall l :: l in leaves ==> LeafPosition(|ls|, l.pos) && Block(l.pos) < |ls| && l.item == ls[Block(l.pos)])
  }

  lemma LeavesForTrue<T>(ls: seq<T>, positions: seq<nat>, leaves: seq<Leaf<T>>)
    requires LeavesFor(ls, positions, leaves)
    ensures TrueLeaves(ls, LeafIndices(positions), Distinct(LeafKey, leaves))
  {
    hide LeafPosition, Size, Block, Distinct;
    var ps, ds := Distinct<nat>(PosKey, positions), Distinct(LeafKey, leaves);
    DistinctPositions(leaves);
    DistinctAscending(positions);
    DistinctAscending(LeafPositions(leaves));
    AscendingUnique(ps, Distinct<nat>(PosKey, LeafPositions(leaves)));
    forall i | 0 <= i < |ds|
      ensures ds[i].pos == ps[i] && LeafPosition(|ls|, ps[i]) && ds[i].item == ls[Block(ps[i])]
      ensures Block(ps[i]) < |ls| && Size(Block(ps[i])) == ps[i]
    {
      assert ds[i] in ds && LeafPositions(ds)[i] == ds[i].pos;
      LeafIndex(|ls|, ps[i]);
    }
    assert |LeafPositions(ds)| == |ds|;
  }

  /** The verifier's peak hashes for an honest proof. */
  lemma HonestHashes<T>(m: Hasher<T>, ls: seq<T>, positions: seq<nat>, leaves: seq<Leaf<T>>)
    requires ls != [] && LeavesFor(ls, positions, leaves)
    requires forall p :: p in positions ==> LeafPosition(|ls|, p)
    ensures var n, idx := |ls|, LeafIndices(positions);
            PlanIn(n, HashPlan(n, idx, BitLength(n)))
            && PeakHashes(m, Distinct(LeafKey, leaves), Positions(Peaks(MaxLeaves(Size(n)))), ProofItems(m, ls, positions))
               == Ok((ItemValues(m, ls, HashPlan(n, idx, BitLength(n))), [], []))
  {
    hide LeafPosition, Size, Block, Distinct, Positions, Plan, HashPlan, PeakHashes, ItemValues, PlanIn, LeafIndices,
         LeavesFor, LeavesFrom, TrueLeaves, PeaksBelow;
    IndicesFrom(|ls|, positions);
    LeavesForTrue(ls, positions, leaves);
    PlanVerifies(m, ls, LeafIndices(positions), Distinct(LeafKey, leaves), BitLength(|ls|));
    MaxLeavesOfSize(|ls|);
  }

  /** Any non-empty list of leaf positions, in any order and with repeats, is proved against the root. */
  lemma MultiLeafCompleteness<T>(m: Hasher<T>, ls: seq<T>, positions: seq<nat>, leaves: seq<Leaf<T>>)
    requires ls != [] && positions != [] && LeavesFor(ls, positions, leaves)
    requires forall p :: p in positions ==> LeafPosition(|ls|, p)
    ensures CalculatedRoot(m, leaves, Size(|ls|), ProofItems(m, ls, positions)) == Ok(Root(m, MmrCombine(m), ls))
    ensures Verified(m, Root(m, MmrCombine(m), ls), leaves, Size(|ls|), ProofItems(m, ls, positions)) == Ok(true)
  {
    hide LeafPosition, Size, Block, Distinct, Positions, Plan, HashPlan, PeakHashes, PlanIn, LeafIndices,
         LeavesFrom, PeaksBelow, Values, ItemValues, MmrCombine, Node, Bag;
    var n := |ls|;
    var idx, k := LeafIndices(positions), BitLength(n);
    NoNodes(ls, positions, leaves);
    IndicesFrom(n, positions);
    PeaksNotEmpty(n);
    HonestHashes(m, ls, positions, leaves);
    BagHashes(m, ls, idx, k, []);
    var hashes := ItemValues(m, ls, HashPlan(n, idx, k));
    Concat0(hashes, Values(MmrCombine(m), ls, Peaks(n)));
    if Size(n) == 1 && |leaves| == 1 && leaves[0].pos == 0 {
      OneLeaf(m, ls, leaves);
    }
  }

  lemma Concat0<T>(a: seq<T>, b: seq<T>)
    ensures [] + a == a == a + [] && [] + b == b
  {
  }

  lemma NoNodes<T>(ls: seq<T>, positions: seq<nat>, leaves: seq<Leaf<T>>)
    requires LeavesFor(ls, positions, leaves)
    ensures !exists i :: 0 <= i < |leaves| && Height(leaves[i].pos) > 0
  {
    forall i | 0 <= i < |leaves|
      ensures Height(leaves[i].pos) == 0
    {
      assert leaves[i] in leaves;
    }
  }

  lemma OneLeaf<T>(m: Hasher<T>, ls: seq<T>, leaves: seq<Leaf<T>>)
    requires ls != [] && Size(|ls|) == 1 && |leaves| == 1 && leaves[0].pos == 0
    requires Block(0) < |ls| && leaves[0].item == ls[Block(0)]
    ensures leaves[0].item == Root(m, MmrCombine(m), ls) && Bag(m, [leaves[0].item]) == leaves[0].item
  {
    hide MmrCombine, Peaks, Shr, Size, Block;
    SizeOne();
    SizeAboveOne(|ls|);
    LevelZero(1, 0);
    var f := MmrCombine(m);
    assert Values(f, ls, [Coord(0, 0)]) == [ls[0]];
    assert Block(0) == 0;
  }
}
