/**
 When an accepted MMR proof binds its leaves, under a hash without collisions: at every number of items
 but one.
 */
module MmrBinding {
  import opened Bits
  import opened Forest
  import opened Nodes
  import opened FreeHash
  import opened Bagging
  import opened ProofPlan
  import opened QueueWalk
  import opened ProofSpec
  import opened Completeness
  import opened FirstClaims
  import opened MmrNextRoot
  import opened MmrSoundness
  import opened Wrappers

  // ----- the items up to the last proved leaf -----

  /** The plan without the item for the trailing peaks. */
  function HeadPlan(n: nat, leaves: seq<nat>, k: nat): seq<Item>
    decreases k
  {
    if leaves == [] || k == 0 then []
    else if Shr(n, k - 1) % 2 == 0 then HeadPlan(n, leaves, k - 1)
    else
      var c := Coord(k - 1, Shr(n, k - 1) - 1);
      var t := CountBelow(leaves, Shl(c.j + 1, c.h));
      MountainPlan(leaves[..t], c) + HeadPlan(n, leaves[t..], k - 1)
  }

  lemma HeadUnfold(n: nat, indices: seq<nat>, k: nat)
    ensures indices == [] ==> HeadPlan(n, indices, k) == []
    ensures indices != [] && k > 0 && Shr(n, k - 1) % 2 == 0 ==> HeadPlan(n, indices, k) == HeadPlan(n, indices, k - 1)
    ensures indices != [] && k > 0 && Shr(n, k - 1) % 2 == 1 ==>
              var c := Coord(k - 1, Shr(n, k - 1) - 1);
              var t := CountBelow(indices, Shl(c.j + 1, c.h));
              HeadPlan(n, indices, k) == MountainPlan(indices[..t], c) + HeadPlan(n, indices[t..], k - 1)
  {
    hide Shl, Shr, CountBelow, MountainPlan;
  }

  /** The plan goes on with one item if any peak trails. */
  lemma {:induction false} HeadOfPlan(n: nat, indices: seq<nat>, k: nat)
    requires LeavesFrom(n, indices, k)
    ensures HeadPlan(n, indices, k) <= Plan(n, indices, k)
    ensures |Plan(n, indices, k)| == |HeadPlan(n, indices, k)| + if Trailing(n, indices, k) > 0 then 1 else 0
    ensures Trailing(n, indices, k) <= |PeaksBelow(n, k)|
    decreases k
  {
    hide Shl, Shr, LeavesFrom, CountBelow, Trailing, PeaksBelow, HashPlan, Plan, HeadPlan, MountainPlan, Climb, Row, InForest;
    TrailingUnfold(n, indices, k);
    HeadUnfold(n, indices, k);
    if indices == [] {
      PlanEnds(n, indices, k);
    } else if k == 0 {
      LeavesDone(n, indices);
    } else if Shr(n, k - 1) % 2 == 0 {
      LeavesSkip(n, indices, k);
      PlanSkip(n, indices, k);
      HeadOfPlan(n, indices, k - 1);
    } else {
      LeavesSplit(n, indices, k);
      PlanUnfold(n, indices, k);
      var c := Coord(k - 1, Shr(n, k - 1) - 1);
      HeadOfPlan(n, indices[CountBelow(indices, Shl(c.j + 1, c.h))..], k - 1);
    }
  }

  // ----- what the loop over the peaks does with any number of items -----

  /** The hashes of the first peaks, then items taken over for trailing peaks, then items left. */
  ghost predicate SplitRun<T>(r: Result<(seq<T>, seq<Leaf<T>>, seq<T>)>, proof: seq<T>, used: nat, led: nat, trailing: nat) {
    if |proof| < used then Starved(r)
    else
      var u := if |proof| - used < trailing then |proof| - used else trailing;
      && r.Ok? && r.value.1 == [] && r.value.2 == proof[used + u..]
      && |r.value.0| == led + u && r.value.0[led..] == proof[used..used + u]
  }

  /** Trailing peaks take an item each as long as there are any. */
  lemma {:induction false} TrailRun<T>(m: Hasher<T>, peaks: seq<nat>, proof: seq<T>)
    ensures var u := if |proof| < |peaks| then |proof| else |peaks|;
            PeakHashes(m, [], peaks, proof) == Ok((proof[..u], [], proof[u..]))
    decreases |peaks|
  {
    var none: seq<Leaf<T>> := [];
    if peaks == [] {
      assert proof[..0] == [] && proof[0..] == proof;
    } else if proof == [] {
      assert proof[..0] == [] && proof[0..] == proof;
    } else {
      TrailRun(m, peaks[1..], proof[1..]);
      assert none[..0] == none && none[0..] == none;
      var u := if |proof| < |peaks| then |proof| else |peaks|;
      assert proof[..u] == [proof[0]] + proof[1..][..u - 1] && proof[u..] == proof[1..][u - 1..];
    }
  }

  lemma {:induction false} RunSplits<T>(m: Hasher<T>, n: nat, indices: seq<nat>, leaves: seq<Leaf<T>>, k: nat, proof: seq<T>)
    requires LeavesFrom(n, indices, k) && Placed(indices, leaves)
    ensures Trailing(n, indices, k) <= |PeaksBelow(n, k)|
    ensures SplitRun(PeakHashes(m, leaves, Positions(PeaksBelow(n, k)), proof), proof, |HeadPlan(n, indices, k)|,
                     |PeaksBelow(n, k)| - Trailing(n, indices, k), Trailing(n, indices, k))
    decreases k
  {
    hide Size, Pos, Shl, Shr, Positions, LeavesFrom, Climb, Row, CountBelow, PeakHashes, Placed, Plan, HeadPlan, HashPlan,
         PeaksBelow, SplitRun, Trailing, MountainPlan, InForest;
    HeadOfPlan(n, indices, k);
    TrailingUnfold(n, indices, k);
    HeadUnfold(n, indices, k);
    if indices == [] {
      NoLeavesPlaced(indices, leaves);
      TrailRun(m, Positions(PeaksBelow(n, k)), proof);
      TrailSplit(m, PeaksBelow(n, k), proof);
    } else if k == 0 {
      LeavesDone(n, indices);
    } else if Shr(n, k - 1) % 2 == 0 {
      LeavesSkip(n, indices, k);
      PeaksBelowStep(n, k);
      RunSplits(m, n, indices, leaves, k - 1, proof);
    } else {
      var c := Coord(k - 1, Shr(n, k - 1) - 1);
      var t := CountBelow(indices, Shl(c.j + 1, c.h));
      var need := |MountainPlan(indices[..t], c)|;
      LeavesSplit(n, indices, k);
      PeaksBelowStep(n, k);
      PlacedSplit(indices, leaves, t);
      HeadOfPlan(n, indices[t..], k - 1);
      if |proof| >= need {
        RunSplits(m, n, indices[t..], leaves[t..], k - 1, proof[need..]);
      }
      SplitMountain(m, n, indices, leaves, c, t, proof, |HeadPlan(n, indices[t..], k - 1)|, Trailing(n, indices[t..], k - 1));
    }
  }

  lemma NoLeavesPlaced<T>(indices: seq<nat>, leaves: seq<Leaf<T>>)
    requires Placed(indices, leaves) && indices == []
    ensures leaves == []
  {
  }

  lemma TrailSplit<T>(m: Hasher<T>, peaks: seq<Coord>, proof: seq<T>)
    requires var u := if |proof| < |Positions(peaks)| then |proof| else |Positions(peaks)|;
             PeakHashes(m, [], Positions(peaks), proof) == Ok((proof[..u], [], proof[u..]))
    ensures SplitRun(PeakHashes(m, [], Positions(peaks), proof), proof, 0, 0, |peaks|)
  {
    hide Pos, PeakHashes;
  }

  lemma SplitMountain<T>(m: Hasher<T>, n: nat, indices: seq<nat>, leaves: seq<Leaf<T>>, c: Coord, t: nat, proof: seq<T>,
                         used: nat, trailing: nat)
    requires Placed(indices, leaves) && indices != [] && t == CountBelow(indices, Shl(c.j + 1, c.h)) <= |leaves|
    requires Shr(n, c.h) == c.j + 1 && c.j % 2 == 0 && trailing <= |PeaksBelow(n, c.h)|
    requires t > 0 && c.h > 0 ==> Climb(c, 0, indices[..t], [])
    requires t > 0 && c.h == 0 ==> indices[..t] == [c.j]
    requires var need := |MountainPlan(indices[..t], c)|;
             |proof| >= need ==>
               SplitRun(PeakHashes(m, leaves[t..], Positions(PeaksBelow(n, c.h)), proof[need..]), proof[need..], used,
                        |PeaksBelow(n, c.h)| - trailing, trailing)
    ensures SplitRun(PeakHashes(m, leaves, Positions(PeaksBelow(n, c.h + 1)), proof), proof,
                     |MountainPlan(indices[..t], c)| + used, |PeaksBelow(n, c.h)| + 1 - trailing, trailing)
  {
    hide Size, Pos, Shl, Shr, Positions, Climb, CountBelow, Placed, PeaksBelow, MountainPlan, MountainHash, UpTo, SplitRun;
    PlacedSplit(indices, leaves, t);
    PlacedUpTo(indices, leaves, c);
    MountainCount(m, c, indices[..t], leaves[..t], proof);
    OddPeak(n, c);
    PositionsCons(c, PeaksBelow(n, c.h));
    EmptyHere(c, indices, t);
    var need := |MountainPlan(indices[..t], c)|;
    var peaks := Positions(PeaksBelow(n, c.h + 1));
    assert peaks[0] == Pos(c.h, c.j) && peaks[1..] == Positions(PeaksBelow(n, c.h));
    var x := MountainHash(m, leaves[..t], Pos(c.h, c.j), proof);
    if |proof| >= need {
      var r := PeakHashes(m, leaves[t..], peaks[1..], proof[need..]);
      SplitShift(r, proof, need, used, |PeaksBelow(n, c.h)| - trailing, trailing, x.value.0);
    } else {
      SplitStarved(PeakHashes(m, leaves, peaks, proof), proof, need + used, |PeaksBelow(n, c.h)| + 1 - trailing, trailing);
    }
  }

  lemma SplitStarved<T>(r: Result<(seq<T>, seq<Leaf<T>>, seq<T>)>, proof: seq<T>, used: nat, led: nat, trailing: nat)
    requires |proof| < used && Starved(r)
    ensures SplitRun(r, proof, used, led, trailing)
  {
  }

  lemma EmptyHere(c: Coord, indices: seq<nat>, t: nat)
    requires t <= |indices|
    ensures t == 0 ==> |MountainPlan(indices[..t], c)| == 1
  {
  }

  /** One hash more in front. */
  lemma SplitShift<T>(r: Result<(seq<T>, seq<Leaf<T>>, seq<T>)>, proof: seq<T>, need: nat, used: nat, led: nat,
                      trailing: nat, hash: T)
    requires need <= |proof| && SplitRun(r, proof[need..], used, led, trailing)
    ensures SplitRun(if r.Err? then r else Ok(([hash] + r.value.0, r.value.1, r.value.2)), proof, need + used, led + 1, trailing)
  {
    if |proof| >= need + used {
      var u := if |proof| - need - used < trailing then |proof| - need - used else trailing;
      assert proof[need..][used + u..] == proof[need + used + u..];
      assert proof[need..][used..used + u] == proof[need + used..need + used + u];
      assert ([hash] + r.value.0)[led + 1..] == r.value.0[led..];
    }
  }

  /** On true leaves, and true items up to the last of them, the first hashes are the true peaks. */
  ghost predicate HeadTrue<T>(r: Result<(seq<T>, seq<Leaf<T>>, seq<T>)>, values: seq<T>, led: nat) {
    r.Ok? && led <= |r.value.0| && led <= |values| && r.value.0[..led] == values[..led]
  }

  ghost predicate HonestHead<T>(m: Hasher<T>, ls: seq<T>, indices: seq<nat>, leaves: seq<Leaf<T>>, k: nat, more: seq<T>) {
    var (n, plan, trailing) := (|ls|, HeadPlan(|ls|, indices, k), Trailing(|ls|, indices, k));
    && PlanIn(n, plan) && AllIn(n, PeaksBelow(n, k)) && trailing <= |PeaksBelow(n, k)|
    && HeadTrue(PeakHashes(m, leaves, Positions(PeaksBelow(n, k)), ItemValues(m, ls, plan) + more),
                Values(MmrCombine(m), ls, PeaksBelow(n, k)), |PeaksBelow(n, k)| - trailing)
  }

  lemma {:induction false} HonestRun<T>(m: Hasher<T>, ls: seq<T>, indices: seq<nat>, leaves: seq<Leaf<T>>, k: nat, more: seq<T>)
    requires LeavesFrom(|ls|, indices, k) && TrueLeaves(ls, indices, leaves)
    ensures HonestHead(m, ls, indices, leaves, k, more)
    decreases k
  {
    hide Size, Shl, Shr, LeavesFrom, Climb, Row, CountBelow, TrueLeaves, HonestHead, InForest, MountainPlan;
    var n := |ls|;
    if indices == [] {
      HonestTail(m, ls, indices, leaves, k, more);
    } else if k == 0 {
      LeavesDone(n, indices);
    } else if Shr(n, k - 1) % 2 == 0 {
      LeavesSkip(n, indices, k);
      HonestRun(m, ls, indices, leaves, k - 1, more);
      HonestSkip(m, ls, indices, leaves, k, more);
    } else {
      var c := Coord(k - 1, Shr(n, k - 1) - 1);
      var t := CountBelow(indices, Shl(c.j + 1, c.h));
      LeavesSplit(n, indices, k);
      TrueSplit(ls, indices, leaves, t);
      HonestRun(m, ls, indices[t..], leaves[t..], k - 1, more);
      HonestOn(m, ls, indices, leaves, c, t, more);
    }
  }

  lemma HonestTail<T>(m: Hasher<T>, ls: seq<T>, indices: seq<nat>, leaves: seq<Leaf<T>>, k: nat, more: seq<T>)
    requires TrueLeaves(ls, indices, leaves) && indices == []
    ensures HonestHead(m, ls, indices, leaves, k, more)
  {
    hide Size, Pos, Shl, Shr, PeakHashes, PeaksBelow, HeadTrue, InForest, ItemValues, Values, MmrCombine;
    TrailingUnfold(|ls|, indices, k);
    PeaksBelowIn(|ls|, k);
    NoItems(m, ls);
    TrueSize(ls, indices, leaves);
    TrailRun(m, Positions(PeaksBelow(|ls|, k)), [] + more);
    NoHead(PeakHashes(m, leaves, Positions(PeaksBelow(|ls|, k)), [] + more), Values(MmrCombine(m), ls, PeaksBelow(|ls|, k)));
  }

  lemma HonestSkip<T>(m: Hasher<T>, ls: seq<T>, indices: seq<nat>, leaves: seq<Leaf<T>>, k: nat, more: seq<T>)
    requires k > 0 && Shr(|ls|, k - 1) % 2 == 0 && indices != [] && HonestHead(m, ls, indices, leaves, k - 1, more)
    ensures HonestHead(m, ls, indices, leaves, k, more)
  {
    hide Pos, Shl, Shr, CountBelow, PeakHashes, HeadPlan, PeaksBelow, HeadTrue, Trailing, ItemValues, PlanIn, Values, AllIn;
    TrailingUnfold(|ls|, indices, k);
    HeadUnfold(|ls|, indices, k);
    PeaksBelowStep(|ls|, k);
  }

  lemma HonestOn<T>(m: Hasher<T>, ls: seq<T>, indices: seq<nat>, leaves: seq<Leaf<T>>, c: Coord, t: nat, more: seq<T>)
    requires TrueLeaves(ls, indices, leaves) && indices != [] && t == CountBelow(indices, Shl(c.j + 1, c.h)) <= |leaves|
    requires InForest(|ls|, c) && Shr(|ls|, c.h) == c.j + 1 && c.j % 2 == 0
    requires t > 0 && c.h > 0 ==> Climb(c, 0, indices[..t], [])
    requires t > 0 && c.h == 0 ==> indices[..t] == [c.j]
    requires HonestHead(m, ls, indices[t..], leaves[t..], c.h, more)
    ensures HonestHead(m, ls, indices, leaves, c.h + 1, more)
  {
    hide Size, Pos, Shl, Shr, Climb, CountBelow, PeakHashes, TrueLeaves, HeadPlan, PeaksBelow, HeadTrue, Trailing,
         MountainPlan, InForest, ItemValues, PlanIn, Values, AllIn, Positions;
    TrailingUnfold(|ls|, indices, c.h + 1);
    HeadUnfold(|ls|, indices, c.h + 1);
    OddPeak(|ls|, c);
    HonestMountain(m, ls, indices, leaves, c, t, HeadPlan(|ls|, indices[t..], c.h), more,
                   |PeaksBelow(|ls|, c.h)| - Trailing(|ls|, indices[t..], c.h));
  }

  lemma NoHead<T>(r: Result<(seq<T>, seq<Leaf<T>>, seq<T>)>, values: seq<T>)
    requires r.Ok?
    ensures HeadTrue(r, values, 0)
  {
    assert r.value.0[..0] == values[..0];
  }

  lemma HonestMountain<T>(m: Hasher<T>, ls: seq<T>, indices: seq<nat>, leaves: seq<Leaf<T>>, c: Coord, t: nat,
                          tail: seq<Item>, more: seq<T>, led: nat)
    requires TrueLeaves(ls, indices, leaves) && indices != [] && t == CountBelow(indices, Shl(c.j + 1, c.h)) <= |leaves|
    requires InForest(|ls|, c) && Shr(|ls|, c.h) == c.j + 1 && c.j % 2 == 0
    requires t > 0 && c.h > 0 ==> Climb(c, 0, indices[..t], [])
    requires t > 0 && c.h == 0 ==> indices[..t] == [c.j]
    requires PlanIn(|ls|, tail) && AllIn(|ls|, PeaksBelow(|ls|, c.h))
    requires HeadTrue(PeakHashes(m, leaves[t..], Positions(PeaksBelow(|ls|, c.h)), ItemValues(m, ls, tail) + more),
                      Values(MmrCombine(m), ls, PeaksBelow(|ls|, c.h)), led)
    ensures PlanIn(|ls|, MountainPlan(indices[..t], c) + tail) && AllIn(|ls|, PeaksBelow(|ls|, c.h + 1))
    ensures HeadTrue(PeakHashes(m, leaves, Positions(PeaksBelow(|ls|, c.h + 1)),
                                ItemValues(m, ls, MountainPlan(indices[..t], c) + tail) + more),
                     Values(MmrCombine(m), ls, PeaksBelow(|ls|, c.h + 1)), led + 1)
  {
    hide Size, Pos, Shl, Shr, Positions, Climb, CountBelow, TrueLeaves, PeaksBelow, MountainPlan, MountainHash, UpTo,
         InForest, ItemValues, PlanIn, Values, MmrCombine, AllIn, Node;
    var n, here := |ls|, MountainPlan(indices[..t], c);
    TrueSplit(ls, indices, leaves, t);
    UpToIsCount(ls, indices, leaves, c);
    MountainPlanIn(n, indices[..t], c);
    ItemValuesAppend(m, ls, here, tail);
    Assoc(ItemValues(m, ls, here), ItemValues(m, ls, tail), more);
    var rest := ItemValues(m, ls, tail) + more;
    MountainVerifies(m, ls, c, indices[..t], leaves[..t], rest);
    OddPeak(n, c);
    PositionsCons(c, PeaksBelow(n, c.h));
    EmptyHere(c, indices, t);
    ItemCounts(m, ls, here);
    var peaks, proof := Positions(PeaksBelow(n, c.h + 1)), ItemValues(m, ls, here + tail) + more;
    assert peaks[0] == Pos(c.h, c.j) && peaks[1..] == Positions(PeaksBelow(n, c.h));
    ValuesHead(MmrCombine(m), ls, c, PeaksBelow(n, c.h), []);
    HeadShift(PeakHashes(m, leaves[t..], peaks[1..], rest), Values(MmrCombine(m), ls, PeaksBelow(n, c.h)), led,
              Node(MmrCombine(m), ls, c.h, c.j));
    assert Values(MmrCombine(m), ls, PeaksBelow(n, c.h)) + [] == Values(MmrCombine(m), ls, PeaksBelow(n, c.h));
    assert Values(MmrCombine(m), ls, [c] + PeaksBelow(n, c.h)) + [] == Values(MmrCombine(m), ls, [c] + PeaksBelow(n, c.h));
  }

  lemma ItemCounts<T>(m: Hasher<T>, ls: seq<T>, plan: seq<Item>)
    requires PlanIn(|ls|, plan)
    ensures |ItemValues(m, ls, plan)| == |plan|
  {
    hide ItemValue, AllIn;
  }

  lemma HeadShift<T>(r: Result<(seq<T>, seq<Leaf<T>>, seq<T>)>, values: seq<T>, led: nat, x: T)
    requires HeadTrue(r, values, led)
    ensures HeadTrue(Ok(([x] + r.value.0, r.value.1, r.value.2)), [x] + values, led + 1)
  {
    assert ([x] + r.value.0)[..led + 1] == [x] + r.value.0[..led];
    assert ([x] + values)[..led + 1] == [x] + values[..led];
  }

  // ----- bagging -----

  /** Equal bags of different length: the shorter one's last entry is the bag of the rest of the longer one. */
  lemma {:induction false} BagPrefix<D>(a: seq<Hash<D>>, b: seq<Hash<D>>)
    requires 0 < |a| <= |b| && Bag(Free<D>(), a) == Bag(Free<D>(), b)
    ensures a[..|a| - 1] == b[..|a| - 1] && a[|a| - 1] == Bag(Free<D>(), b[|a| - 1..])
  {
    hide Free;
    if |a| > 1 {
      FreeMerges(0, Bag(Free<D>(), a[1..]), a[0]);
      FreeMerges(0, Bag(Free<D>(), b[1..]), b[0]);
      BagPrefix(a[1..], b[1..]);
      assert a[..|a| - 1] == [a[0]] + a[1..][..|a| - 2] && b[..|a| - 1] == [b[0]] + b[1..][..|a| - 2];
      assert b[1..][|a| - 2..] == b[|a| - 1..];
    } else {
      assert b[0..] == b;
    }
  }

  /** The number of trailing items decides whether equal bags have equal heads. */
  lemma BagHead<D>(head: seq<Hash<D>>, tail: seq<Hash<D>>, values: seq<Hash<D>>, trailing: nat)
    requires head != [] && |values| == |head| + trailing && |tail| <= trailing + 1
    requires trailing > 0 ==> tail != []
    requires trailing == 0 ==> |tail| != 1
    requires Bag(Free<D>(), head + tail) == Bag(Free<D>(), values)
    ensures head == values[..|head|]
  {
    hide Free;
    var all := head + tail;
    if |all| <= |values| {
      BagPrefix(all, values);
      if tail == [] {
        var last := |head| - 1;
        assert values[last..] == [values[last]];
        assert head == head[..last] + [head[last]] && values[..|head|] == values[..last] + [values[last]];
      } else {
        assert head == all[..|all| - 1][..|head|] && values[..|head|] == values[..|all| - 1][..|head|];
      }
    } else {
      BagPrefix(values, all);
      assert head == all[..|values| - 1][..|head|] && values[..|head|] == values[..|values| - 1][..|head|];
    }
  }

  // ----- binding -----

  /** Leaves claimed at leaf positions are accepted against the root of the forest over ls, at its own size. */
  ghost predicate Accepted<D>(ls: seq<Hash<D>>, leaves: seq<Leaf<Hash<D>>>, proof: seq<Hash<D>>) {
    && ls != [] && leaves != []
    && (forall p :: p in LeafPositions(leaves) ==> LeafPosition(|ls|, p))
    && Verified(Free<D>(), Root(Free<D>(), MmrCombine(Free<D>()), ls), leaves, Size(|ls|), proof) == Ok(true)
  }

  ghost predicate TrueClaim<T>(ls: seq<T>, l: Leaf<T>) {
    Block(l.pos) < |ls| && l.item == ls[Block(l.pos)]
  }

  /** At every position the first claim of the list is true. */
  ghost predicate TrueClaims<T>(ls: seq<T>, leaves: seq<Leaf<T>>) {
    forall i: nat :: FirstAt(leaves, i) ==> TrueClaim(ls, leaves[i])
  }

  lemma TrueSurvivors<T>(ls: seq<T>, leaves: seq<Leaf<T>>)
    ensures TrueClaims(ls, leaves) <==> forall l :: l in Distinct(LeafKey, leaves) ==> TrueClaim(ls, l)
  {
    hide Distinct, FirstAt, TrueClaim;
    AllCounting(leaves, (l: Leaf<T>) => TrueClaim(ls, l));
  }

  /** The number of items of an honest proof. */
  ghost function HonestCount(n: nat, positions: seq<nat>): nat {
    |Plan(n, LeafIndices(positions), BitLength(n))|
  }

  /** One less when peaks trail the last proved leaf, one more when none does. */
  ghost predicate LooseCount(n: nat, positions: seq<nat>, count: nat) {
    if Trailing(n, LeafIndices(positions), BitLength(n)) > 0 then count + 1 == HonestCount(n, positions)
    else count == HonestCount(n, positions) + 1
  }

  /** The case the verifier settles before it looks at the items. */
  ghost predicate Shortcut(n: nat, positions: seq<nat>) {
    n == 1 && |positions| == 1
  }

  /** The true leaves at the claimed positions. */
  ghost function TrueVersion<T>(ls: seq<T>, leaves: seq<Leaf<T>>): seq<Leaf<T>>
    requires ls != []
  {
    seq(|leaves|, i requires 0 <= i < |leaves| => Leaf(leaves[i].pos, TrueItem(ls, leaves[i].pos)))
  }

  ghost function TrueItem<T>(ls: seq<T>, pos: nat): T
    requires ls != []
  {
    if Block(pos) < |ls| then ls[Block(pos)] else ls[0]
  }

  lemma TrueVersionIs<T>(ls: seq<T>, leaves: seq<Leaf<T>>)
    requires ls != [] && forall p :: p in LeafPositions(leaves) ==> LeafPosition(|ls|, p)
    ensures LeafPositions(TrueVersion(ls, leaves)) == LeafPositions(leaves)
    ensures forall l :: l in TrueVersion(ls, leaves) ==>
              LeafPosition(|ls|, l.pos) && Block(l.pos) < |ls| && l.item == ls[Block(l.pos)]
  {
    hide LeafPosition, Block;
    forall i | 0 <= i < |leaves|
      ensures LeafPosition(|ls|, leaves[i].pos) && Block(leaves[i].pos) < |ls|
    {
      ClaimPlace(ls, leaves, i);
    }
  }

  lemma ClaimPlace<T>(ls: seq<T>, leaves: seq<Leaf<T>>, i: nat)
    requires i < |leaves| && forall p :: p in LeafPositions(leaves) ==> LeafPosition(|ls|, p)
    ensures LeafPosition(|ls|, leaves[i].pos) && Block(leaves[i].pos) < |ls|
  {
    hide LeafPosition, Block;
    assert LeafPositions(leaves)[i] == leaves[i].pos;
    LeafIndex(|ls|, leaves[i].pos);
  }

  lemma NoNodesClaimed<D>(ls: seq<Hash<D>>, leaves: seq<Leaf<Hash<D>>>)
    requires forall p :: p in LeafPositions(leaves) ==> LeafPosition(|ls|, p)
    ensures forall i :: 0 <= i < |leaves| ==> Height(leaves[i].pos) == 0
  {
    hide Block;
    forall i | 0 <= i < |leaves|
      ensures Height(leaves[i].pos) == 0
    {
      ClaimPlace(ls, leaves, i);
    }
  }

  /** The verifier past its shortcut. */
  lemma AcceptedRun<D>(ls: seq<Hash<D>>, leaves: seq<Leaf<Hash<D>>>, proof: seq<Hash<D>>)
    requires ls != [] && leaves != [] && (forall p :: p in LeafPositions(leaves) ==> LeafPosition(|ls|, p))
    requires !Shortcut(|ls|, LeafPositions(leaves))
    ensures var r := PeakHashes(Free<D>(), Distinct(LeafKey, leaves), Positions(Peaks(|ls|)), proof);
            Accepted(ls, leaves, proof) <==>
            && r.Ok? && r.value.1 == [] && |r.value.2| <= 1 && r.value.0 + r.value.2 != []
            && Bag(Free<D>(), r.value.0 + r.value.2) == Bag(Free<D>(), PeakValues(MmrCombine(Free<D>()), ls))
  {
    hide Free, PeakHashes, Distinct, Height, Peaks, Positions, Bag, Size, PeakValues, Block, MmrCombine;
    MaxLeavesOfSize(|ls|);
    NoNodesClaimed(ls, leaves);
    SizeOfOne(|ls|);
  }

  lemma SizeOfOne(n: nat)
    requires n > 0
    ensures Size(n) == 1 <==> n == 1
  {
    SizeAboveOne(n);
    assert Size(1) == 1;
  }

  /** Claims at the true places, whatever their values. */
  lemma ClaimsPlaced<T>(ls: seq<T>, leaves: seq<Leaf<T>>)
    requires ls != [] && forall p :: p in LeafPositions(leaves) ==> LeafPosition(|ls|, p)
    ensures var idx := LeafIndices(LeafPositions(leaves));
            && LeavesFrom(|ls|, idx, BitLength(|ls|))
            && Placed(idx, Distinct(LeafKey, leaves))
            && TrueLeaves(ls, idx, Distinct(LeafKey, TrueVersion(ls, leaves)))
            && SamePositions(leaves, TrueVersion(ls, leaves))
            && SamePositions(Distinct(LeafKey, leaves), Distinct(LeafKey, TrueVersion(ls, leaves)))
  {
    hide Size, Block, Distinct, LeafIndices, LeafPosition, TrueLeaves, LeavesFrom, BitLength, TrueVersion, Placed, SamePositions;
    var honest := TrueVersion(ls, leaves);
    TrueVersionIs(ls, leaves);
    SameClaims(leaves, honest);
    IndicesFrom(|ls|, LeafPositions(leaves));
    LeavesForTrue(ls, LeafPositions(leaves), honest);
    DistinctSame(leaves, honest);
    TruePlaced(ls, LeafIndices(LeafPositions(leaves)), Distinct(LeafKey, honest));
    PlacedToo(LeafIndices(LeafPositions(leaves)), Distinct(LeafKey, honest), Distinct(LeafKey, leaves));
  }

  lemma SameClaims<T>(a: seq<Leaf<T>>, b: seq<Leaf<T>>)
    requires LeafPositions(a) == LeafPositions(b)
    ensures SamePositions(a, b)
  {
    assert |LeafPositions(a)| == |a| && |LeafPositions(b)| == |b|;
    forall i | 0 <= i < |a|
      ensures a[i].pos == b[i].pos
    {
      assert LeafPositions(a)[i] == LeafPositions(b)[i];
    }
  }

  lemma PlacedToo<T>(idx: seq<nat>, a: seq<Leaf<T>>, b: seq<Leaf<T>>)
    requires Placed(idx, a) && SamePositions(b, a)
    ensures Placed(idx, b)
  {
    hide Size;
  }

  /** Run on the same items past the head, claims and truth differ in the first hashes only. */
  lemma RunsCompare<D>(ls: seq<Hash<D>>, leaves: seq<Leaf<Hash<D>>>, proof: seq<Hash<D>>)
    requires ls != [] && leaves != [] && (forall p :: p in LeafPositions(leaves) ==> LeafPosition(|ls|, p))
    requires var r := PeakHashes(Free<D>(), Distinct(LeafKey, leaves), Positions(Peaks(|ls|)), proof);
             r.Ok? && r.value.1 == [] && |r.value.2| <= 1
    ensures var n, idx := |ls|, LeafIndices(LeafPositions(leaves));
            var (used, trailing) := (|HeadPlan(n, idx, BitLength(n))|, Trailing(n, idx, BitLength(n)));
            var r := PeakHashes(Free<D>(), Distinct(LeafKey, leaves), Positions(Peaks(n)), proof);
            var values := PeakValues(MmrCombine(Free<D>()), ls);
            && trailing < |Peaks(n)| == |values| && used <= |proof| <= used + trailing + 1
            && var led := |values| - trailing;
            && led <= |r.value.0| && r.value.0 + r.value.2 == r.value.0[..led] + proof[used..]
            && (r.value.0[..led] == values[..led] ==> TrueClaims(ls, leaves))
  {
    hide Free, PeakHashes, Distinct, Height, Peaks, PeaksBelow, Positions, Bag, Size, Block, MmrCombine, LeafIndices,
         LeafPosition, TrueLeaves, LeavesFrom, BitLength, Placed, HeadPlan, HashPlan, Plan, Trailing, Values, ItemValues, PlanIn,
         BoundAll, SamePositions, SplitRun, HeadTrue, TrueVersion;
    var n, idx, k := |ls|, LeafIndices(LeafPositions(leaves)), BitLength(|ls|);
    var da, db := Distinct(LeafKey, leaves), Distinct(LeafKey, TrueVersion(ls, leaves));
    ClaimsPlaced(ls, leaves);
    PeaksFromTop(n);
    IndicesFrom(n, LeafPositions(leaves));
    LeavesFew(n, idx, k);
    RunSplits(Free<D>(), n, idx, da, k, proof);
    var used, trailing := |HeadPlan(n, idx, k)|, Trailing(n, idx, k);
    var r := PeakHashes(Free<D>(), da, Positions(Peaks(n)), proof);
    var led := |Peaks(n)| - trailing;
    SplitFacts(r, proof, used, led, trailing);
    HonestRun(Free<D>(), ls, idx, db, k, proof[used..]);
    TruePlaced(ls, idx, db);
    ItemCounts(Free<D>(), ls, HeadPlan(n, idx, k));
    var items := ItemValues(Free<D>(), ls, HeadPlan(n, idx, k));
    var q := items + proof[used..];
    RunSplits(Free<D>(), n, idx, db, k, q);
    assert |q| == |proof| && q[used..] == proof[used..];
    var s := PeakHashes(Free<D>(), db, Positions(Peaks(n)), q);
    HeadFacts(s, Values(MmrCombine(Free<D>()), ls, PeaksBelow(n, k)), led);
    SplitFacts(s, q, used, led, trailing);
    PeakHashesBinds(da, db, Positions(Peaks(n)), proof, q);
    PeaksAllIn(n);
    ValuesCount(MmrCombine(Free<D>()), ls, Peaks(n));
    if r.value.0[..led] == PeakValues(MmrCombine(Free<D>()), ls)[..led] {
      SameHashes(r, s, proof, q, used, led, trailing);
      BoundLeaves(da, db, proof, q, r, s);
      TrueVersionIs(ls, leaves);
      DistinctPositions(TrueVersion(ls, leaves));
      TrueSurvivors(ls, leaves);
    }
  }

  lemma PeaksFromTop(n: nat)
    ensures PeaksBelow(n, BitLength(n)) == Peaks(n)
  {
  }

  /** A proved leaf leaves at least one peak that does not trail. */
  lemma {:induction false} LeavesFew(n: nat, indices: seq<nat>, k: nat)
    requires LeavesFrom(n, indices, k)
    ensures indices != [] ==> Trailing(n, indices, k) < |PeaksBelow(n, k)|
    decreases k
  {
    hide Shl, Shr, LeavesFrom, CountBelow, Trailing, PeaksBelow, Climb, Row, InForest;
    TrailingUnfold(n, indices, k);
    if indices == [] {
    } else if k == 0 {
      LeavesDone(n, indices);
    } else if Shr(n, k - 1) % 2 == 0 {
      LeavesSkip(n, indices, k);
      PeaksBelowStep(n, k);
      LeavesFew(n, indices, k - 1);
    } else {
      LeavesSplit(n, indices, k);
      PeaksBelowStep(n, k);
      var later := indices[CountBelow(indices, Shl(Shr(n, k - 1) - 1 + 1, k - 1))..];
      LeavesFew(n, later, k - 1);
      TrailingUnfold(n, later, k - 1);
    }
  }

  lemma SplitFacts<T>(r: Result<(seq<T>, seq<Leaf<T>>, seq<T>)>, proof: seq<T>, used: nat, led: nat, trailing: nat)
    requires SplitRun(r, proof, used, led, trailing) && r.Ok? && (r.value.1 == [] || used <= |proof|)
    ensures used <= |proof| && led <= |r.value.0| && r.value.1 == []
    ensures r.value.0 + r.value.2 == r.value.0[..led] + proof[used..]
    ensures |r.value.2| <= 1 ==> |proof| <= used + trailing + 1
    ensures var u := if |proof| - used < trailing then |proof| - used else trailing;
            r.value.0 == r.value.0[..led] + proof[used..][..u]
  {
    var u := if |proof| - used < trailing then |proof| - used else trailing;
    assert proof[used..] == proof[used..used + u] + proof[used + u..];
    assert r.value.0 == r.value.0[..led] + r.value.0[led..];
    assert proof[used..][..u] == proof[used..used + u];
  }

  lemma HeadFacts<T>(r: Result<(seq<T>, seq<Leaf<T>>, seq<T>)>, values: seq<T>, led: nat)
    requires HeadTrue(r, values, led)
    ensures r.Ok? && led <= |r.value.0| && led <= |values| && r.value.0[..led] == values[..led]
  {
  }

  lemma SameHashes<T>(r: Result<(seq<T>, seq<Leaf<T>>, seq<T>)>, s: Result<(seq<T>, seq<Leaf<T>>, seq<T>)>, proof: seq<T>,
                      q: seq<T>, used: nat, led: nat, trailing: nat)
    requires r.Ok? && s.Ok? && used <= |proof| == |q| && proof[used..] == q[used..]
    requires led <= |r.value.0| && led <= |s.value.0| && r.value.0[..led] == s.value.0[..led]
    requires var u := if |proof| - used < trailing then |proof| - used else trailing;
             r.value.0 == r.value.0[..led] + proof[used..][..u] && s.value.0 == s.value.0[..led] + q[used..][..u]
    ensures r.value.0 == s.value.0
  {
  }

  lemma BoundLeaves<D>(a: seq<Leaf<Hash<D>>>, b: seq<Leaf<Hash<D>>>, p: seq<Hash<D>>, q: seq<Hash<D>>,
                       x: Result<(seq<Hash<D>>, seq<Leaf<Hash<D>>>, seq<Hash<D>>)>,
                       y: Result<(seq<Hash<D>>, seq<Leaf<Hash<D>>>, seq<Hash<D>>)>)
    requires BoundAll(a, b, p, q, x, y) && x.Ok? && x.value.1 == [] && x.value.0 == y.value.0
    ensures a == b
  {
    hide SameUse;
    assert a == a[..|a|] && b == b[..|b|];
  }

  /** At every other number of items, and past the shortcut always, only true claims are accepted. */
  lemma AcceptedLeavesAreTrue<D>(ls: seq<Hash<D>>, leaves: seq<Leaf<Hash<D>>>, proof: seq<Hash<D>>)
    requires Accepted(ls, leaves, proof)
    requires Shortcut(|ls|, LeafPositions(leaves)) || !LooseCount(|ls|, LeafPositions(leaves), |proof|)
    ensures TrueClaims(ls, leaves)
  {
    hide Free, PeakHashes, Distinct, Peaks, Positions, Bag, Block, LeafIndices, BitLength, HeadPlan, Plan,
         Trailing, PeakValues, Accepted, TrueClaims, Size, MmrCombine;
    AcceptedClaims(ls, leaves, proof);
    if Shortcut(|ls|, LeafPositions(leaves)) {
      ShortcutBinds(ls, leaves, proof);
    } else {
      AcceptedRun(ls, leaves, proof);
      RunsCompare(ls, leaves, proof);
      var n, idx := |ls|, LeafIndices(LeafPositions(leaves));
      IndicesFrom(n, LeafPositions(leaves));
      HeadOfPlan(n, idx, BitLength(n));
      var used, trailing := |HeadPlan(n, idx, BitLength(n))|, Trailing(n, idx, BitLength(n));
      var r := PeakHashes(Free<D>(), Distinct(LeafKey, leaves), Positions(Peaks(n)), proof);
      var values := PeakValues(MmrCombine(Free<D>()), ls);
      BagHead(r.value.0[..|values| - trailing], proof[used..], values, trailing);
    }
  }

  lemma AcceptedClaims<D>(ls: seq<Hash<D>>, leaves: seq<Leaf<Hash<D>>>, proof: seq<Hash<D>>)
    requires Accepted(ls, leaves, proof)
    ensures ls != [] && leaves != [] && forall p :: p in LeafPositions(leaves) ==> LeafPosition(|ls|, p)
  {
    hide Free, Verified;
  }

  lemma ShortcutBinds<D>(ls: seq<Hash<D>>, leaves: seq<Leaf<Hash<D>>>, proof: seq<Hash<D>>)
    requires Accepted(ls, leaves, proof) && Shortcut(|ls|, LeafPositions(leaves))
    ensures TrueClaims(ls, leaves)
  {
    hide Free, PeakHashes, Height, Block, Peaks, PeaksBelow, Positions, MmrCombine;
    ClaimPlace(ls, leaves, 0);
    LeafIndex(1, leaves[0].pos);
    assert leaves == [leaves[0]] && Distinct(LeafKey, leaves) == leaves;
    assert Size(0) == 0 && Size(1) == 1;
    NoNodesClaimed(ls, leaves);
    OneLeafRoot(Free<D>(), ls);
    TrueSurvivors(ls, leaves);
  }

  lemma OneLeafRoot<T>(m: Hasher<T>, ls: seq<T>)
    requires |ls| == 1
    ensures Root(m, MmrCombine(m), ls) == ls[0]
  {
    hide MmrCombine, PeaksBelow;
    SmallPeaks();
    PeaksAllIn(1);
    LevelZero(1, 0);
  }

  // ----- without the size -----

  /** Below a peak of two leaves, with the left one proved, the right one is asked for. */
  lemma PairPlan()
    ensures |MountainPlan([0], Coord(1, 0))| == 1
  {
    var none: seq<nat> := [];
    assert Rest([0]) == none && none + [0 / 2] == [0];
    SiblingsUnfold(0, [0], none, 1);
    assert Siblings(0, none, [0], 1) == [] by { assert Siblings(1, [0], none, 1) == []; }
  }

  lemma PairIndex(zero: seq<nat>)
    requires zero == [0]
    ensures LeafIndices(zero) == zero
  {
    hide Block, Height;
    FirstLeaves(zero[0]);
    var none: seq<nat> := [];
    assert zero[1..] == none && Distinct<nat>(PosKey, none) == none;
    assert Distinct<nat>(PosKey, zero) == zero;
  }

  lemma PairCount(n: nat, zero: seq<nat>)
    requires n == 2 && zero == [0]
    ensures HonestCount(n, zero) == 1
  {
    hide CountBelow, PeaksBelow, MountainPlan, Plan, HashPlan, LeafIndices, Peaks;
    SizeOfTwo();
    PairPlan();
    PairIndex(zero);
    assert BitLength(n) == 2 && Shr(n, 1) == 1 && Shl(1, 1) == 2;
    assert CountBelow(zero, 2) == 1 && zero[..1] == zero && zero[1..] == [];
    PlanUnfold(n, zero, 2);
    PeaksFromTop(n);
    PlanEnds(n, [], 1);
  }

  /**
   Against the root of three hashed leaves a proof that claims the size of two passes with a false leaf
   and as many items as an honest proof of that size has.
   */
  lemma OtherSizeMovesLeaf<D>(a: Hash<D>, b: Hash<D>, c: Hash<D>)
    requires Hashed([a, b, c]) && a != c
    ensures var ls, less, leaves := [a, b, c], [a, b], [Leaf(0, c)];
            && LeafPosition(|less|, 0) && Block(0) == 0 && HonestCount(|less|, [0]) == 1 && leaves[0].item != ls[0]
            && Verified(Free<D>(), Root(Free<D>(), MmrCombine(Free<D>()), ls), leaves, Size(|less|), [HNode(0, a, b)])
               == Ok(true)
  {
    hide Height, Size, Free, CalculatedRoot, Root, Block, LeafPosition, HonestCount;
    PairPlaces();
    PairCount(2, [0]);
    RootOfThree(a, b, c);
    PairRoot(Free<D>(), c, HNode(0, a, b));
    FreeMerges(0, c, HNode(0, a, b));
  }
}
