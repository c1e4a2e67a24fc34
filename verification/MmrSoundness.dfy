/** What an accepted MMR proof says under a hash without collisions. */
module MmrSoundness {
  import opened Bits
  import opened Forest
  import opened Nodes
  import opened FreeHash
  import opened Bagging
  import opened QueueWalk
  import opened ProofSpec
  import opened Completeness
  import opened FirstClaims
  import opened Wrappers

  // ----- membership: every claimed item is part of the root, on arbitrary input -----

  /** The step of the walk, whatever the queue. */
  lemma PeakWalkStep<T>(m: Hasher<T>, q: seq<Entry<T>>, peakPos: nat, proof: seq<T>)
    returns (sibling: T, parent: Entry<T>, proof': seq<T>)
    requires Below(q, peakPos) && q != [] && q[0].pos != peakPos && PeakWalk(m, q, peakPos, proof).Ok?
    ensures !SiblingQueued(q) ==> proof != []
    ensures sibling == if SiblingQueued(q) then q[1].item else proof[0]
    ensures proof' == if SiblingQueued(q) then proof else proof[1..]
    ensures parent == Entry(ParentPos(q[0]), ParentItem(m, q[0], sibling), q[0].height + 1) && parent.pos <= peakPos
    ensures Below(Behind(q) + [parent], peakPos) && Work(Behind(q) + [parent], peakPos) < Work(q, peakPos)
    ensures PeakWalk(m, q, peakPos, proof) == PeakWalk(m, Behind(q) + [parent], peakPos, proof')
  {
    hide Work, SibPos, IsRight, ParentItem;
    sibling := if SiblingQueued(q) then q[1].item else proof[0];
    parent := Entry(ParentPos(q[0]), ParentItem(m, q[0], sibling), q[0].height + 1);
    proof' := if SiblingQueued(q) then proof else proof[1..];
    WorkFalls(q, parent, peakPos);
  }

  lemma FreeParent<D>(e: Entry<Hash<D>>, sibling: Hash<D>)
    ensures ParentItem(Free<D>(), e, sibling)
            == if IsRight(e) then HNode(0, sibling, e.item) else HNode(0, e.item, sibling)
    ensures Subterm(e.item, ParentItem(Free<D>(), e, sibling)) && Subterm(sibling, ParentItem(Free<D>(), e, sibling))
  {
    FreeMerges(0, sibling, e.item);
    FreeMerges(0, e.item, sibling);
  }

  lemma {:induction false} PeakWalkMembers<D>(q: seq<Entry<Hash<D>>>, peakPos: nat, proof: seq<Hash<D>>)
    requires Below(q, peakPos) && PeakWalk(Free<D>(), q, peakPos, proof).Ok?
    ensures forall i :: 0 <= i < |q| ==> Subterm(q[i].item, PeakWalk(Free<D>(), q, peakPos, proof).value.0)
    decreases Work(q, peakPos)
  {
    hide Work, SibPos, IsRight, ParentItem, ParentPos, Free, Height;
    if q != [] && q[0].pos != peakPos {
      var sibling, parent, proof' := PeakWalkStep(Free<D>(), q, peakPos, proof);
      var q' := Behind(q) + [parent];
      PeakWalkMembers(q', peakPos, proof');
      var x := PeakWalk(Free<D>(), q, peakPos, proof).value.0;
      FreeParent(q[0], sibling);
      assert q'[|q'| - 1] == parent;
      var k := |q| - |Behind(q)|;
      forall i | 0 <= i < |q|
        ensures Subterm(q[i].item, x)
      {
        if i < k {
          assert q[i].item == q[0].item || q[i].item == sibling;
          SubtermTrans(q[i].item, parent.item, x);
        } else {
          assert q'[i - k] == q[i];
        }
      }
    }
  }

  lemma {:induction false} BagMembers<D>(hashes: seq<Hash<D>>)
    requires hashes != []
    ensures forall i :: 0 <= i < |hashes| ==> Subterm(hashes[i], Bag(Free<D>(), hashes))
  {
    hide Free;
    if |hashes| > 1 {
      var rest := hashes[1..];
      BagMembers(rest);
      FreeMerges(0, Bag(Free<D>(), rest), hashes[0]);
      forall i | 0 <= i < |hashes|
        ensures Subterm(hashes[i], Bag(Free<D>(), hashes))
      {
        if i > 0 { assert hashes[i] == rest[i - 1]; }
      }
    }
  }

  /** Each of the leaves is under one of the hashes, unless it is left over. */
  ghost predicate FoundIn<D>(leaves: seq<Leaf<Hash<D>>>, hashes: seq<Hash<D>>, left: seq<Leaf<Hash<D>>>) {
    forall l :: l in leaves ==> l in left || exists i :: 0 <= i < |hashes| && Subterm(l.item, hashes[i])
  }

  lemma FoundMore<D>(here: seq<Leaf<Hash<D>>>, hash: Hash<D>, later: seq<Leaf<Hash<D>>>, hashes: seq<Hash<D>>,
                     left: seq<Leaf<Hash<D>>>)
    requires forall l :: l in here ==> Subterm(l.item, hash)
    requires FoundIn(later, hashes, left)
    ensures FoundIn(here + later, [hash] + hashes, left)
  {
    var all := [hash] + hashes;
    forall l | l in here + later && l !in left
      ensures exists i :: 0 <= i < |all| && Subterm(l.item, all[i])
    {
      if l in here {
        assert Subterm(l.item, all[0]);
      } else {
        var i :| 0 <= i < |hashes| && Subterm(l.item, hashes[i]);
        assert all[i + 1] == hashes[i];
      }
    }
  }

  lemma {:induction false} PeakHashesMembers<D>(leaves: seq<Leaf<Hash<D>>>, peaks: seq<nat>, proof: seq<Hash<D>>)
    requires PeakHashes(Free<D>(), leaves, peaks, proof).Ok?
    ensures var (hashes, left, rest) := PeakHashes(Free<D>(), leaves, peaks, proof).value; FoundIn(leaves, hashes, left)
    decreases |peaks|
  {
    hide Free, PeakWalk, UpTo, MountainHash, FoundIn;
    if peaks == [] {
      AllLeft(leaves);
    } else {
      var k := UpTo(leaves, peaks[0]);
      if k == 0 && proof == [] {
        AllLeft(leaves);
      } else {
        var (hash, proof') := MountainHash(Free<D>(), leaves[..k], peaks[0], proof).value;
        PeakHashesMembers(leaves[k..], peaks[1..], proof');
        MountainMembers(leaves[..k], peaks[0], proof);
        var (hashes, left, rest) := PeakHashes(Free<D>(), leaves[k..], peaks[1..], proof').value;
        FoundMore(leaves[..k], hash, leaves[k..], hashes, left);
        assert leaves == leaves[..k] + leaves[k..];
      }
    }
  }

  lemma AllLeft<D>(leaves: seq<Leaf<Hash<D>>>)
    ensures FoundIn(leaves, [], leaves)
  {
  }

  lemma MountainMembers<D>(here: seq<Leaf<Hash<D>>>, peakPos: nat, proof: seq<Hash<D>>)
    requires forall i :: 0 <= i < |here| ==> here[i].pos <= peakPos
    requires MountainHash(Free<D>(), here, peakPos, proof).Ok?
    ensures forall l :: l in here ==> Subterm(l.item, MountainHash(Free<D>(), here, peakPos, proof).value.0)
  {
    hide Free, PeakWalk;
    if here != [] && !(|here| == 1 && here[0].pos == peakPos) {
      assert Below(Queue(here), peakPos);
      PeakWalkMembers(Queue(here), peakPos, proof);
      forall l | l in here
        ensures Subterm(l.item, MountainHash(Free<D>(), here, peakPos, proof).value.0)
      {
        var i :| 0 <= i < |here| && here[i] == l;
        assert Queue(here)[i].item == l.item;
      }
    }
  }

  lemma RootContainsSurvivors<D>(leaves: seq<Leaf<Hash<D>>>, mmrSize: nat, proof: seq<Hash<D>>)
    requires CalculatedRoot(Free<D>(), leaves, mmrSize, proof).Ok?
    ensures forall l :: l in Distinct(LeafKey, leaves) ==>
              Subterm(l.item, CalculatedRoot(Free<D>(), leaves, mmrSize, proof).value)
  {
    hide Free, PeakHashes, Distinct, Height, Peaks, Positions, MaxLeaves, Bag;
    var hashes := PeaksHashes(Free<D>(), leaves, mmrSize, proof).value;
    BagMembers(hashes);
    if mmrSize == 1 && |leaves| == 1 && leaves[0].pos == 0 {
      DistinctPositions(leaves);
      assert hashes[0] == leaves[0].item;
    } else {
      var peaks := Positions(Peaks(MaxLeaves(mmrSize)));
      PeakHashesMembers(Distinct(LeafKey, leaves), peaks, proof);
      var (found, left, rest) := PeakHashes(Free<D>(), Distinct(LeafKey, leaves), peaks, proof).value;
      forall l | l in Distinct(LeafKey, leaves)
        ensures Subterm(l.item, Bag(Free<D>(), hashes))
      {
        var i :| 0 <= i < |found| && Subterm(l.item, found[i]);
        assert hashes[i] == found[i];
        SubtermTrans(l.item, hashes[i], Bag(Free<D>(), hashes));
      }
    }
  }

  /**
   Whatever the leaves, the size and the items: a root that is computed contains what is claimed first
   for each position.
   */
  lemma RootContainsLeaves<D>(leaves: seq<Leaf<Hash<D>>>, mmrSize: nat, proof: seq<Hash<D>>)
    requires CalculatedRoot(Free<D>(), leaves, mmrSize, proof).Ok?
    ensures forall i: nat :: FirstAt(leaves, i) ==>
              Subterm(leaves[i].item, CalculatedRoot(Free<D>(), leaves, mmrSize, proof).value)
  {
    hide Free, CalculatedRoot, Distinct, FirstAt, Subterm;
    RootContainsSurvivors(leaves, mmrSize, proof);
    var root := CalculatedRoot(Free<D>(), leaves, mmrSize, proof).value;
    AllCounting(leaves, (l: Leaf<Hash<D>>) => Subterm(l.item, root));
  }

  // ----- binding: with the positions and the number of items fixed, the root determines the rest -----

  /** Two queues at the same places. */
  ghost predicate SamePlaces<T>(a: seq<Entry<T>>, b: seq<Entry<T>>) {
    |a| == |b| && forall i :: 0 <= i < |a| ==> a[i].pos == b[i].pos && a[i].height == b[i].height
  }

  ghost predicate SameItems<T>(a: seq<Entry<T>>, b: seq<Entry<T>>) {
    |a| == |b| && forall i :: 0 <= i < |a| ==> a[i].item == b[i].item
  }

  /** Two runs that used up equally many items of equally long proofs, each the same ones. */
  ghost predicate SameUse<T>(p: seq<T>, q: seq<T>, p': seq<T>, q': seq<T>) {
    && |p| == |q| && |p'| == |q'| <= |p|
    && p[..|p| - |p'|] == q[..|p| - |p'|]
    && p' == p[|p| - |p'|..] && q' == q[|p| - |p'|..]
  }

  /** Two runs over equal places and equally many items: alike in outcome, and bound by the value. */
  ghost predicate Bound<D>(a: seq<Entry<Hash<D>>>, b: seq<Entry<Hash<D>>>, p: seq<Hash<D>>, q: seq<Hash<D>>,
                           x: Result<(Hash<D>, seq<Hash<D>>)>, y: Result<(Hash<D>, seq<Hash<D>>)>)
  {
    && |p| == |q|
    && x.Ok? == y.Ok?
    && (x.Err? ==> y == Err(x.error))
    && (x.Ok? ==>
          && |x.value.1| == |y.value.1| <= |p|
          && x.value.1 == p[|p| - |x.value.1|..] && y.value.1 == q[|q| - |y.value.1|..]
          && (x.value.0 == y.value.0 ==> SameItems(a, b) && SameUse(p, q, x.value.1, y.value.1)))
  }

  lemma {:induction false} PeakWalkBinds<D>(a: seq<Entry<Hash<D>>>, b: seq<Entry<Hash<D>>>, peakPos: nat,
                                            p: seq<Hash<D>>, q: seq<Hash<D>>)
    requires Below(a, peakPos) && Below(b, peakPos) && SamePlaces(a, b) && |p| == |q|
    ensures Bound(a, b, p, q, PeakWalk(Free<D>(), a, peakPos, p), PeakWalk(Free<D>(), b, peakPos, q))
    decreases Work(a, peakPos)
  {
    hide Work, ParentItem, Free, Height;
    if a == [] {
    } else if a[0].pos == peakPos {
      assert p[|p| - |p|..] == p && q[|q| - |q|..] == q;
    } else if !SiblingQueued(a) && p == [] {
    } else if ParentPos(a[0]) > peakPos {
    } else {
      SameFront(a, b);
      var sibA := if SiblingQueued(a) then a[1].item else p[0];
      var sibB := if SiblingQueued(b) then b[1].item else q[0];
      var parA := Entry(ParentPos(a[0]), ParentItem(Free<D>(), a[0], sibA), a[0].height + 1);
      var parB := Entry(ParentPos(b[0]), ParentItem(Free<D>(), b[0], sibB), b[0].height + 1);
      var a', b' := Behind(a) + [parA], Behind(b) + [parB];
      var p' := if SiblingQueued(a) then p else p[1..];
      var q' := if SiblingQueued(a) then q else q[1..];
      WorkFalls(a, parA, peakPos);
      WorkFalls(b, parB, peakPos);
      PeakWalkBinds(a', b', peakPos, p', q');
      BoundStep(a, b, p, q, parA, parB, sibA, sibB, PeakWalk(Free<D>(), a', peakPos, p'), PeakWalk(Free<D>(), b', peakPos, q'));
    }
  }

  lemma SameFront<T>(a: seq<Entry<T>>, b: seq<Entry<T>>)
    requires SamePlaces(a, b) && a != []
    ensures ParentPos(a[0]) == ParentPos(b[0]) && (IsRight(a[0]) <==> IsRight(b[0]))
    ensures SiblingQueued(a) <==> SiblingQueued(b)
    ensures |Behind(a)| == |Behind(b)|
    ensures forall x: Entry<T>, y: Entry<T> :: x.pos == y.pos && x.height == y.height ==>
              SamePlaces(Behind(a) + [x], Behind(b) + [y])
  {
    hide Height;
  }

  /** The parent's term gives back the child and its sibling. */
  lemma BoundStep<D>(a: seq<Entry<Hash<D>>>, b: seq<Entry<Hash<D>>>, p: seq<Hash<D>>, q: seq<Hash<D>>,
                     parA: Entry<Hash<D>>, parB: Entry<Hash<D>>, sibA: Hash<D>, sibB: Hash<D>,
                     x: Result<(Hash<D>, seq<Hash<D>>)>, y: Result<(Hash<D>, seq<Hash<D>>)>)
    requires SamePlaces(a, b) && a != [] && |p| == |q| && (SiblingQueued(a) <==> SiblingQueued(b))
    requires IsRight(a[0]) <==> IsRight(b[0])
    requires !SiblingQueued(a) ==> p != []
    requires sibA == if SiblingQueued(a) then a[1].item else p[0]
    requires sibB == if SiblingQueued(b) then b[1].item else q[0]
    requires parA.item == ParentItem(Free<D>(), a[0], sibA) && parB.item == ParentItem(Free<D>(), b[0], sibB)
    requires var p' := if SiblingQueued(a) then p else p[1..];
             var q' := if SiblingQueued(a) then q else q[1..];
             Bound(Behind(a) + [parA], Behind(b) + [parB], p', q', x, y)
    ensures Bound(a, b, p, q, x, y)
  {
    hide ParentItem, Free, Height, SibPos, IsRight;
    FreeParent(a[0], sibA);
    FreeParent(b[0], sibB);
    if x.Ok? && y.Ok? {
      var p' := if SiblingQueued(a) then p else p[1..];
      var q' := if SiblingQueued(a) then q else q[1..];
      var a', b' := Behind(a) + [parA], Behind(b) + [parB];
      UseMore(p, p', x.value.1);
      UseMore(q, q', y.value.1);
      if x.value.0 == y.value.0 {
        assert a'[|a'| - 1].item == b'[|a'| - 1].item;
        ItemsBack(a, b, parA, parB);
        UseBack(p, q, p', q', x.value.1, y.value.1, SiblingQueued(a));
      }
    }
  }

  lemma UseMore<T>(p: seq<T>, p': seq<T>, rest: seq<T>)
    requires p' == p || (p != [] && p' == p[1..])
    requires |rest| <= |p'| && rest == p'[|p'| - |rest|..]
    ensures |rest| <= |p| && rest == p[|p| - |rest|..]
  {
  }

  lemma UseBack<T>(p: seq<T>, q: seq<T>, p': seq<T>, q': seq<T>, x: seq<T>, y: seq<T>, queued: bool)
    requires |p| == |q| && (!queued ==> p != [] && p[0] == q[0])
    requires p' == (if queued then p else p[1..]) && q' == (if queued then q else q[1..])
    requires SameUse(p', q', x, y)
    ensures SameUse(p, q, x, y)
  {
    if !queued {
      var c := |p| - |x|;
      assert p[..c] == [p[0]] + p'[..c - 1] && q[..c] == [q[0]] + q'[..c - 1];
    }
  }

  lemma ItemsBack<D>(a: seq<Entry<Hash<D>>>, b: seq<Entry<Hash<D>>>, parA: Entry<Hash<D>>, parB: Entry<Hash<D>>)
    requires SamePlaces(a, b) && a != [] && (SiblingQueued(a) <==> SiblingQueued(b))
    requires a[0].item == b[0].item && (SiblingQueued(a) ==> a[1].item == b[1].item)
    requires SameItems(Behind(a) + [parA], Behind(b) + [parB])
    ensures SameItems(a, b)
  {
    hide SibPos;
    var k := if SiblingQueued(a) then 2 else 1;
    var a', b' := Behind(a) + [parA], Behind(b) + [parB];
    forall i | 0 <= i < |a|
      ensures a[i].item == b[i].item
    {
      if i >= k {
        assert a'[i - k] == a[i] && b'[i - k] == b[i];
      }
    }
  }

  /** Leaves claimed at the same positions. */
  ghost predicate SamePositions<T>(a: seq<Leaf<T>>, b: seq<Leaf<T>>) {
    |a| == |b| && forall i :: 0 <= i < |a| ==> a[i].pos == b[i].pos
  }

  lemma {:induction false} SameUpTo<T>(a: seq<Leaf<T>>, b: seq<Leaf<T>>, peakPos: nat)
    requires SamePositions(a, b)
    ensures UpTo(a, peakPos) == UpTo(b, peakPos)
  {
    if a != [] { SameUpTo(a[1..], b[1..], peakPos); }
  }

  /** The same for the value of one mountain. */
  ghost predicate BoundHere<D>(a: seq<Leaf<Hash<D>>>, b: seq<Leaf<Hash<D>>>, p: seq<Hash<D>>, q: seq<Hash<D>>,
                               x: Result<(Hash<D>, seq<Hash<D>>)>, y: Result<(Hash<D>, seq<Hash<D>>)>)
  {
    && |p| == |q|
    && x.Ok? == y.Ok?
    && (x.Err? ==> y == Err(x.error))
    && (x.Ok? ==>
          && |x.value.1| == |y.value.1| <= |p|
          && x.value.1 == p[|p| - |x.value.1|..] && y.value.1 == q[|q| - |y.value.1|..]
          && (x.value.0 == y.value.0 ==> a == b && SameUse(p, q, x.value.1, y.value.1)))
  }

  lemma MountainBinds<D>(a: seq<Leaf<Hash<D>>>, b: seq<Leaf<Hash<D>>>, peakPos: nat, p: seq<Hash<D>>, q: seq<Hash<D>>)
    requires SamePositions(a, b) && |p| == |q|
    requires forall i :: 0 <= i < |a| ==> a[i].pos <= peakPos
    requires forall i :: 0 <= i < |b| ==> b[i].pos <= peakPos
    ensures BoundHere(a, b, p, q, MountainHash(Free<D>(), a, peakPos, p), MountainHash(Free<D>(), b, peakPos, q))
  {
    hide Free, PeakWalk, Bound;
    if |a| == 1 && a[0].pos == peakPos {
      assert a == [a[0]] && b == [b[0]];
      UnusedItems(p, q);
    } else if a == [] {
      if p != [] {
        FirstItem(p, q);
      }
    } else {
      QueuesAlike(a, b);
      PeakWalkBinds(Queue(a), Queue(b), peakPos, p, q);
      BoundQueues(a, b, p, q, PeakWalk(Free<D>(), Queue(a), peakPos, p), PeakWalk(Free<D>(), Queue(b), peakPos, q));
    }
  }

  lemma UnusedItems<T>(p: seq<T>, q: seq<T>)
    requires |p| == |q|
    ensures p[|p| - |p|..] == p && q[|q| - |q|..] == q
  {
  }

  lemma FirstItem<T>(p: seq<T>, q: seq<T>)
    requires |p| == |q| && p != []
    ensures p[..1] == [p[0]] && q[..1] == [q[0]]
  {
  }

  lemma QueuesAlike<T>(a: seq<Leaf<T>>, b: seq<Leaf<T>>)
    requires SamePositions(a, b)
    ensures SamePlaces(Queue(a), Queue(b))
  {
  }

  lemma BoundQueues<D>(a: seq<Leaf<Hash<D>>>, b: seq<Leaf<Hash<D>>>, p: seq<Hash<D>>, q: seq<Hash<D>>,
                       x: Result<(Hash<D>, seq<Hash<D>>)>, y: Result<(Hash<D>, seq<Hash<D>>)>)
    requires SamePositions(a, b) && Bound(Queue(a), Queue(b), p, q, x, y)
    ensures BoundHere(a, b, p, q, x, y)
  {
    hide SameUse;
    if SameItems(Queue(a), Queue(b)) {
      forall i | 0 <= i < |a|
        ensures a[i] == b[i]
      {
        assert Queue(a)[i].item == Queue(b)[i].item;
      }
      assert a == b;
    }
  }

  type Found<D> = Result<(seq<Hash<D>>, seq<Leaf<Hash<D>>>, seq<Hash<D>>)>

  /** The same for the loop over the peaks. */
  ghost predicate BoundAll<D>(a: seq<Leaf<Hash<D>>>, b: seq<Leaf<Hash<D>>>, p: seq<Hash<D>>, q: seq<Hash<D>>,
                              x: Found<D>, y: Found<D>)
  {
    && |p| == |q| && |a| == |b|
    && x.Ok? == y.Ok?
    && (x.Ok? ==>
          && |x.value.0| == |y.value.0|
          && |x.value.1| == |y.value.1| <= |a|
          && |x.value.2| == |y.value.2| <= |p|
          && x.value.2 == p[|p| - |x.value.2|..] && y.value.2 == q[|q| - |y.value.2|..]
          && (x.value.0 == y.value.0 ==>
                a[..|a| - |x.value.1|] == b[..|a| - |x.value.1|] && SameUse(p, q, x.value.2, y.value.2)))
  }

  lemma {:induction false} PeakHashesBinds<D>(a: seq<Leaf<Hash<D>>>, b: seq<Leaf<Hash<D>>>, peaks: seq<nat>,
                                              p: seq<Hash<D>>, q: seq<Hash<D>>)
    requires SamePositions(a, b) && |p| == |q|
    ensures BoundAll(a, b, p, q, PeakHashes(Free<D>(), a, peaks, p), PeakHashes(Free<D>(), b, peaks, q))
    decreases |peaks|
  {
    hide Free, MountainHash, UpTo, BoundHere, SameUse, BoundAll;
    if peaks == [] {
      BoundStop(a, b, p, q);
    } else {
      SameUpTo(a, b, peaks[0]);
      var k := UpTo(a, peaks[0]);
      if k == 0 && p == [] {
        BoundStop(a, b, p, q);
      } else {
        var x := MountainHash(Free<D>(), a[..k], peaks[0], p);
        var y := MountainHash(Free<D>(), b[..k], peaks[0], q);
        MountainBinds(a[..k], b[..k], peaks[0], p, q);
        BoundLengths(a[..k], b[..k], p, q, x, y);
        if x.Ok? {
          PeakHashesBinds(a[k..], b[k..], peaks[1..], x.value.1, y.value.1);
          BoundOn(a, b, k, p, q, x, y, PeakHashes(Free<D>(), a[k..], peaks[1..], x.value.1),
                  PeakHashes(Free<D>(), b[k..], peaks[1..], y.value.1));
        } else {
          BoundErr(a, b, p, q, x.error);
        }
      }
    }
  }

  lemma BoundErr<D>(a: seq<Leaf<Hash<D>>>, b: seq<Leaf<Hash<D>>>, p: seq<Hash<D>>, q: seq<Hash<D>>, e: Error)
    requires |a| == |b| && |p| == |q|
    ensures BoundAll(a, b, p, q, Err(e), Err(e))
  {
  }

  lemma BoundStop<D>(a: seq<Leaf<Hash<D>>>, b: seq<Leaf<Hash<D>>>, p: seq<Hash<D>>, q: seq<Hash<D>>)
    requires |a| == |b| && |p| == |q|
    ensures BoundAll(a, b, p, q, Ok(([], a, p)), Ok(([], b, q)))
  {
    assert p[|p| - |p|..] == p && q[|q| - |q|..] == q;
    assert a[..0] == b[..0] && p[..0] == q[..0];
  }

  lemma BoundLengths<D>(a: seq<Leaf<Hash<D>>>, b: seq<Leaf<Hash<D>>>, p: seq<Hash<D>>, q: seq<Hash<D>>,
                        x: Result<(Hash<D>, seq<Hash<D>>)>, y: Result<(Hash<D>, seq<Hash<D>>)>)
    requires BoundHere(a, b, p, q, x, y)
    ensures x.Ok? == y.Ok? && (x.Ok? ==> |x.value.1| == |y.value.1|) && (x.Err? ==> y == Err(x.error))
  {
    hide SameUse;
  }

  lemma BoundOn<D>(a: seq<Leaf<Hash<D>>>, b: seq<Leaf<Hash<D>>>, k: nat, p: seq<Hash<D>>, q: seq<Hash<D>>,
                   x: Result<(Hash<D>, seq<Hash<D>>)>, y: Result<(Hash<D>, seq<Hash<D>>)>, u: Found<D>, v: Found<D>)
    requires |a| == |b| && k <= |a| && x.Ok? && y.Ok?
    requires BoundHere(a[..k], b[..k], p, q, x, y)
    requires BoundAll(a[k..], b[k..], x.value.1, y.value.1, u, v)
    ensures BoundAll(a, b, p, q,
                     if u.Err? then u else Ok(([x.value.0] + u.value.0, u.value.1, u.value.2)),
                     if v.Err? then v else Ok(([y.value.0] + v.value.0, v.value.1, v.value.2)))
  {
    if u.Ok? {
      var ha, hb := [x.value.0] + u.value.0, [y.value.0] + v.value.0;
      var n, c := |p| - |x.value.1|, |p| - |u.value.2|;
      if ha == hb {
        assert ha[0] == hb[0] && ha[1..] == u.value.0 && hb[1..] == v.value.0;
        var t := |a| - |u.value.1|;
        assert a[..t] == a[..k] + a[k..][..t - k] && b[..t] == b[..k] + b[k..][..t - k];
        assert p[..c] == p[..n] + x.value.1[..c - n] && q[..c] == q[..n] + y.value.1[..c - n];
      }
    }
  }

  lemma BagOfTwo<D>(hashes: seq<Hash<D>>)
    requires |hashes| > 1
    ensures Bag(Free<D>(), hashes) == HNode(0, Bag(Free<D>(), hashes[1..]), hashes[0])
  {
    hide Free;
    FreeMerges(0, Bag(Free<D>(), hashes[1..]), hashes[0]);
  }

  lemma {:induction false} BagBinds<D>(a: seq<Hash<D>>, b: seq<Hash<D>>)
    requires a != [] && |a| == |b| && Bag(Free<D>(), a) == Bag(Free<D>(), b)
    ensures a == b
  {
    hide Free;
    if |a| > 1 {
      FreeMerges(0, Bag(Free<D>(), a[1..]), a[0]);
      FreeMerges(0, Bag(Free<D>(), b[1..]), b[0]);
      BagBinds(a[1..], b[1..]);
      assert a == [a[0]] + a[1..] && b == [b[0]] + b[1..];
    } else {
      assert a == [a[0]] && b == [b[0]];
    }
  }

  lemma {:induction false} InsertSame<T>(x: Leaf<T>, y: Leaf<T>, a: seq<Leaf<T>>, b: seq<Leaf<T>>)
    requires x.pos == y.pos && SamePositions(a, b)
    ensures SamePositions(InsertFirst(LeafKey, x, a), InsertFirst(LeafKey, y, b))
  {
    if a != [] { InsertSame(x, y, a[1..], b[1..]); }
  }

  lemma {:induction false} DistinctSame<T>(a: seq<Leaf<T>>, b: seq<Leaf<T>>)
    requires SamePositions(a, b)
    ensures SamePositions(Distinct(LeafKey, a), Distinct(LeafKey, b))
  {
    if a != [] {
      DistinctSame(a[1..], b[1..]);
      InsertSame(a[0], b[0], Distinct(LeafKey, a[1..]), Distinct(LeafKey, b[1..]));
    }
  }

  lemma UsedAndLeft<T>(p: seq<T>, q: seq<T>, x: seq<T>, y: seq<T>)
    requires SameUse(p, q, x, y) && x == y
    ensures p == q
  {
    var used := |p| - |x|;
    assert p == p[..used] + p[used..] && q == q[..used] + q[used..];
  }

  /** With positions, size and number of items fixed, one root has one set of leaves and items behind it. */
  lemma RootBinds<D>(a: seq<Leaf<Hash<D>>>, b: seq<Leaf<Hash<D>>>, mmrSize: nat, p: seq<Hash<D>>, q: seq<Hash<D>>)
    requires SamePositions(a, b) && |p| == |q|
    requires CalculatedRoot(Free<D>(), a, mmrSize, p).Ok?
    requires CalculatedRoot(Free<D>(), a, mmrSize, p) == CalculatedRoot(Free<D>(), b, mmrSize, q)
    ensures Distinct(LeafKey, a) == Distinct(LeafKey, b)
    ensures !(mmrSize == 1 && |a| == 1 && a[0].pos == 0) ==> p == q
  {
    hide Free, PeakHashes, Distinct, Height, Peaks, Positions, MaxLeaves, Bag, SameUse;
    var ha, hb := PeaksHashes(Free<D>(), a, mmrSize, p).value, PeaksHashes(Free<D>(), b, mmrSize, q).value;
    if mmrSize == 1 && |a| == 1 && a[0].pos == 0 {
      BagBinds(ha, hb);
      assert ha[0] == a[0].item && hb[0] == b[0].item;
      assert a == [a[0]] && b == [b[0]];
    } else {
      var peaks := Positions(Peaks(MaxLeaves(mmrSize)));
      DistinctSame(a, b);
      var da, db := Distinct(LeafKey, a), Distinct(LeafKey, b);
      PeakHashesBinds(da, db, peaks, p, q);
      BagBinds(ha, hb);
      var x, y := PeakHashes(Free<D>(), da, peaks, p).value, PeakHashes(Free<D>(), db, peaks, q).value;
      assert x.0 == ha[..|x.0|] && y.0 == hb[..|y.0|];
      assert x.2 == ha[|x.0|..] && y.2 == hb[|y.0|..];
      assert da == da[..|da|] && db == db[..|db|];
      UsedAndLeft(p, q, x.2, y.2);
    }
  }

  // ----- without the number of items -----

  lemma ThreeLeaves(n: nat)
    requires n == 3
    ensures Size(n) == 4 && MaxLeaves(Size(n)) == n && Positions(Peaks(n)) == [2, 3] && LeafPosition(n, 0)
  {
    hide Height, Block, Peaks, MaxLeaves, Size, Pos, PopCount, Shr, PeaksBelow;
    SmallCounts();
    MaxLeavesOfSize(n);
    FirstLeaves(0);
    SmallPeaks();
    SmallPositions();
  }

  lemma FirstLeaves(i: nat)
    requires i < 2
    ensures Height(i) == 0 && (i == 0 ==> Block(i) == 0)
  {
    hide Height, Block, Size;
    SmallCounts();
    LeafPos(i);
  }

  lemma SmallCounts()
    ensures Size(0) == 0 && Size(1) == 1 && Size(3) == 4
  {
    assert PopCount(3) == 2 && PopCount(1) == 1;
  }

  lemma SmallPositions()
    ensures Pos(1, 0) == 2 && Pos(0, 2) == 3
    ensures InForest(3, Coord(1, 0)) && InForest(3, Coord(0, 2))
  {
    assert Shl(2, 1) == 4 && Shl(6, 0) == 6 && PopCount(2) == 1;
  }

  lemma RootOfThree<D>(a: Hash<D>, b: Hash<D>, c: Hash<D>)
    ensures Root(Free<D>(), MmrCombine(Free<D>()), [a, b, c]) == HNode(0, c, HNode(0, a, b))
  {
    hide Pos, Free, PeaksBelow, Peaks, InForest, MmrCombine;
    SmallPeaks();
    SmallPositions();
    PeaksAllIn(3);
    var f, ls := MmrCombine(Free<D>()), [a, b, c];
    NodeFromChildren(Free<D>(), ls, 0, 0);
    FreeMerges(0, a, b);
    assert Node(f, ls, 1, 0) == HNode(0, a, b) && Node(f, ls, 0, 2) == c;
    assert PeakValues(f, ls) == [HNode(0, a, b), c];
    assert [HNode(0, a, b), c][1..] == [c];
    FreeMerges(0, c, HNode(0, a, b));
    assert Bag(Free<D>(), [c]) == c;
    assert Bag(Free<D>(), [HNode(0, a, b), c]) == HNode(0, c, HNode(0, a, b));
  }

  /** One step up from position 0 with an item for the sibling. */
  lemma WalkFromZero<T>(m: Hasher<T>, x: T, y: T)
    ensures Below([Entry(0, x, 0)], 2)
    ensures PeakWalk(m, [Entry(0, x, 0)], 2, [y]) == Ok((m.merge(x, y), []))
  {
    hide Height, Size, MaxLeaves;
    FirstLeaves(1);
    assert Pow2(1) == 2 * Pow2(0);
    var q := [Entry(0, x, 0)];
    assert Behind(q) == [] && [y][1..] == [];
    assert ParentPos(q[0]) == 2;
    var parent := Entry(2, m.merge(x, y), 1);
    assert Behind(q) + [parent] == [parent];
    assert PeakWalk(m, [parent], 2, []) == Ok((parent.item, []));
  }

  /**
   With fewer items than the honest proof the position is not bound: the third leaf passes for the
   first, because mountains and bagged peaks are merged alike.
   */
  lemma FewerItemsMoveLeaf<D>(a: Hash<D>, b: Hash<D>, c: Hash<D>)
    requires a != c
    ensures var ls, leaves := [a, b, c], [Leaf(0, c)];
            && LeafPosition(|ls|, 0) && Block(0) == 0 && leaves[0].item != ls[0]
            && Verified(Free<D>(), Root(Free<D>(), MmrCombine(Free<D>()), ls), leaves, Size(|ls|), [HNode(0, a, b)])
               == Ok(true)
  {
    hide Height, Size, MaxLeaves, Free, PeakWalk, Root, Peaks, Positions, Block;
    ThreeLeaves(3);
    FirstLeaves(0);
    RootOfThree(a, b, c);
    WalkFromZero(Free<D>(), c, HNode(0, a, b));
    FreeMerges(0, c, HNode(0, a, b));
    var leaves, proof := [Leaf(0, c)], [HNode(0, a, b)];
    assert Distinct(LeafKey, leaves) == leaves;
    assert UpTo(leaves, 2) == 1 && leaves[..1] == leaves && leaves[1..] == [];
    assert Queue(leaves) == [Entry(0, c, 0)];
    var peaks := [2, 3];
    assert PeakHashes(Free<D>(), leaves[1..], peaks[1..], []) == Ok(([], [], []));
    assert MountainHash(Free<D>(), leaves, 2, proof) == Ok((HNode(0, c, HNode(0, a, b)), []));
    assert peaks[0] == 2 && UpTo(leaves, peaks[0]) == 1;
    assert MountainHash(Free<D>(), leaves[..1], peaks[0], proof) == Ok((HNode(0, c, HNode(0, a, b)), []));
    assert [HNode(0, c, HNode(0, a, b))] + [] == [HNode(0, c, HNode(0, a, b))];
    assert PeakHashes(Free<D>(), leaves, peaks, proof) == Ok(([HNode(0, c, HNode(0, a, b))], [], []));
  }

  // ----- without the size -----

  lemma SizeOfTwo()
    ensures Size(2) == 3 && Peaks(2) == [Coord(1, 0)]
  {
    assert PopCount(2) == 1 && BitLength(2) == 2;
    assert Shr(2, 1) == 1 && Shr(2, 0) == 2 && PeaksBelow(2, 0) == [];
    assert PeaksBelow(2, 1) == [] + PeaksBelow(2, 0) && PeaksBelow(2, 2) == [Coord(1, 0)] + PeaksBelow(2, 1);
  }

  lemma PairPlaces()
    ensures Size(2) == 3 && MaxLeaves(3) == 2 && Positions(Peaks(2)) == [2] && LeafPosition(2, 0)
    ensures Height(0) == 0 && Block(0) == 0
  {
    hide Height, Block, MaxLeaves, Size, Pos, Shr, PeaksBelow;
    SizeOfTwo();
    MaxLeavesOfSize(2);
    FirstLeaves(0);
    SmallPositions();
  }

  /** The loop over the one peak of two leaves. */
  lemma PairRun<T>(m: Hasher<T>, c: T, low: T)
    ensures PeakHashes(m, [Leaf(0, c)], [2], [low]) == Ok(([m.merge(c, low)], [], []))
  {
    hide Height, Size, MaxLeaves, PeakWalk;
    var leaves := [Leaf(0, c)];
    WalkFromZero(m, c, low);
    assert UpTo(leaves, 2) == 1 && leaves[..1] == leaves && leaves[1..] == [];
    assert Queue(leaves) == [Entry(0, c, 0)];
    PeakHashesStep(m, leaves, 2, [], [low], m.merge(c, low), [], []);
    assert [2] + [] == [2] && [m.merge(c, low)] + [] == [m.merge(c, low)];
  }

  lemma PairRoot<T>(m: Hasher<T>, c: T, low: T)
    ensures CalculatedRoot(m, [Leaf(0, c)], 3, [low]) == Ok(m.merge(c, low))
  {
    hide Height, Size, MaxLeaves, PeakHashes, Peaks, Positions, Block, LeafPosition;
    PairPlaces();
    PairRun(m, c, low);
    var leaves, hashes := [Leaf(0, c)], [m.merge(c, low)];
    assert Distinct(LeafKey, leaves) == leaves && leaves[0].pos == 0;
    assert hashes + [] == hashes;
  }
}
