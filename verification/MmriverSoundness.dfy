/** What an accepted MMRIVER proof says under a hash without collisions. */
module MmriverSoundness {
  import opened Bits
  import opened Forest
  import opened InclusionPath
  import opened Nodes
  import opened FreeHash
  import opened Bagging
  import opened ProofPlan
  import opened MmriverPaths
  import opened MmriverProofs
  import opened Mmriver
  import opened MmriverCompleteness
  import opened Wrappers

  function Bind<D>(): Combine<Hash<D>> {
    MmriverCombine(Free<D>())
  }

  lemma BindMerges<D>(p: nat, l: Hash<D>, r: Hash<D>)
    ensures Bind<D>()(p, l, r) == HNode(p + 1, l, r)
  {
    MmriverMerges(Free<D>(), p, l, r);
    FreeMerges(p + 1, l, r);
  }

  // ----- what a hash gives away -----

  /** A node's hash tells its place, unless it is a leaf. */
  lemma NodeShape<D>(ls: seq<Hash<D>>, h: nat, j: nat)
    requires Hashed(ls) && InForest(|ls|, Coord(h, j))
    ensures h == 0 ==> Node(Bind<D>(), ls, h, j).HLeaf? && j < |ls| && Node(Bind<D>(), ls, h, j) == ls[j]
    ensures h > 0 ==> Node(Bind<D>(), ls, h, j).HNode? && Node(Bind<D>(), ls, h, j).pos == Pos(h, j) + 1
  {
    hide Pos, Shr, Bind;
    LevelZero(|ls|, j);
    if h > 0 {
      ChildrenInForest(|ls|, h - 1, j);
      BindMerges(Pos(h, j), Node(Bind<D>(), ls, h - 1, 2 * j), Node(Bind<D>(), ls, h - 1, 2 * j + 1));
    }
  }

  lemma MergedShape<D>(h: nat, j: nat, hash: Hash<D>, sibling: Hash<D>)
    ensures Merged(Bind<D>(), h, j, hash, sibling)
            == if j % 2 == 1 then HNode(Pos(h + 1, j / 2) + 1, sibling, hash) else HNode(Pos(h + 1, j / 2) + 1, hash, sibling)
  {
    hide Pos, Bind;
    BindMerges(Pos(h + 1, j / 2), sibling, hash);
    BindMerges(Pos(h + 1, j / 2), hash, sibling);
  }

  /** The root of a path of any length tells where the path ends. */
  lemma {:induction false} ClimbedShape<D>(h: nat, j: nat, hash: Hash<D>, path: seq<Hash<D>>)
    ensures path != [] ==>
              var root := Climbed(Bind<D>(), h, j, hash, path);
              root.HNode? && root.pos == Pos(h + |path|, Shr(j, |path|)) + 1
    decreases |path|
  {
    hide Pos, Bind, Merged;
    if path != [] {
      MergedShape(h, j, hash, path[0]);
      ClimbedShape(h + 1, j / 2, Merged(Bind<D>(), h, j, hash, path[0]), path[1..]);
      assert Shr(j / 2, 0) == j / 2;
    }
  }

  /** It also binds the starting hash and every item. */
  lemma {:induction false} ClimbedInjective<D>(h: nat, j: nat, a: Hash<D>, b: Hash<D>, p: seq<Hash<D>>, q: seq<Hash<D>>)
    requires |p| == |q| && Climbed(Bind<D>(), h, j, a, p) == Climbed(Bind<D>(), h, j, b, q)
    ensures a == b && p == q
    decreases |p|
  {
    hide Pos, Bind, Merged;
    if p != [] {
      MergedShape(h, j, a, p[0]);
      MergedShape(h, j, b, q[0]);
      ClimbedInjective(h + 1, j / 2, Merged(Bind<D>(), h, j, a, p[0]), Merged(Bind<D>(), h, j, b, q[0]), p[1..], q[1..]);
      assert p == [p[0]] + p[1..] && q == [q[0]] + q[1..];
    }
  }

  // ----- inclusion -----

  /** A non-empty path that leads into the accumulator ends in the peak it leads to. */
  lemma PathEndsInPeak<D>(ls: seq<Hash<D>>, h: nat, j: nat, hash: Hash<D>, path: seq<Hash<D>>)
    requires Hashed(ls) && path != [] && Climbed(Bind<D>(), h, j, hash, path) in PeakValues(Bind<D>(), ls)
    ensures var top := Coord(h + |path|, Shr(j, |path|));
            && top in Peaks(|ls|) && InForest(|ls|, top) && InForest(|ls|, Coord(h, j))
            && Climbed(Bind<D>(), h, j, hash, path) == Node(Bind<D>(), ls, top.h, top.j)
  {
    hide Pos, Bind, Climbed, Peaks, Shr, Node;
    var n, f := |ls|, Bind<D>();
    var root := Climbed(f, h, j, hash, path);
    PeaksAllIn(n);
    var k :| 0 <= k < |PeakValues(f, ls)| && PeakValues(f, ls)[k] == root;
    var peak, top := Peaks(n)[k], Coord(h + |path|, Shr(j, |path|));
    assert root == Node(f, ls, peak.h, peak.j);
    NodeShape(ls, peak.h, peak.j);
    ClimbedShape(h, j, hash, path);
    PosInjective(peak, top);
    UnderInForest(n, h, j, top.h, top.j);
  }

  /** A path that ends in a peak is as long as the generated one. */
  lemma PathLength(n: nat, h: nat, j: nat, len: nat)
    requires InForest(n, Coord(h, j)) && Coord(h + len, Shr(j, len)) in Peaks(n)
    ensures Size(n) > 0 && len == |Path(Size(n) - 1, h, j)| && Reached(Size(n) - 1, h, j) == Coord(h + len, Shr(j, len))
  {
    hide Size, Path, Reached, Shr, Peaks, IsPeak;
    ReachesPeak(n, h, j);
    PathExtends(Size(n) - 1, Size(n) - 1, h, j);
    var top, peak := Reached(Size(n) - 1, h, j), Coord(h + len, Shr(j, len));
    PeaksMember(n, top);
    PeaksMember(n, peak);
    CoverUnique(n, h, j, top, peak);
  }

  /** So it starts at the true hash and carries the true siblings. */
  lemma PathBinds<D>(ls: seq<Hash<D>>, h: nat, j: nat, hash: Hash<D>, path: seq<Hash<D>>)
    requires Hashed(ls) && path != [] && Climbed(Bind<D>(), h, j, hash, path) in PeakValues(Bind<D>(), ls)
    ensures InForest(|ls|, Coord(h, j)) && Size(|ls|) > 0 && AllIn(|ls|, Path(Size(|ls|) - 1, h, j))
    ensures hash == Node(Bind<D>(), ls, h, j) && path == Values(Bind<D>(), ls, Path(Size(|ls|) - 1, h, j))
  {
    hide Pos, Bind, Climbed, Peaks, Shr, Node, Path, Reached, Size, InForest, Values, PeakValues;
    var f, n := Bind<D>(), |ls|;
    PathEndsInPeak(ls, h, j, hash, path);
    PathLength(n, h, j, |path|);
    ClimbedIsPeak(f, ls, h, j);
    var honest := Values(f, ls, Path(Size(n) - 1, h, j));
    ValuesCount(f, ls, Path(Size(n) - 1, h, j));
    ClimbedInjective(h, j, hash, Node(f, ls, h, j), path, honest);
  }

  /**
   Against the accumulator of a real run, a proof with a non-empty path of any length is accepted
   exactly when it claims the node at its index and carries that node's own path. With an empty path any
   entry is, at any index.
   */
  lemma InclusionSoundness<D>(ls: seq<Hash<D>>, index: nat, hash: Hash<D>, proof: seq<Hash<D>>)
    requires Hashed(ls)
    ensures index < Size(|ls|) ==> AllIn(|ls|, Path(Size(|ls|) - 1, Height(index), Block(index)))
    ensures Included(Free<D>(), index, hash, proof, PeakValues(Bind<D>(), ls)) <==>
            if proof == [] then hash in PeakValues(Bind<D>(), ls)
            else
              && index < Size(|ls|)
              && hash == NodeAt(Bind<D>(), ls, index)
              && proof == Values(Bind<D>(), ls, Path(Size(|ls|) - 1, Height(index), Block(index)))
  {
    hide Size, Pos, Climbed, Path, Height, Block, PeakValues, Node, NodeAt, Peaks, Free, MmriverCombine, InForest, Values, Under;
    var n, h, j := |ls|, Height(index), Block(index);
    PosOfCoord(index);
    InForestPos(n, h, j);
    if index < Size(n) {
      var k := InclusionCompleteness(Free<D>(), ls, index);
      NodeAtPos(Bind<D>(), ls, h, j);
    }
    if proof == [] {
      ClimbedNone(MmriverCombine(Free<D>()), h, j, hash);
    } else if Included(Free<D>(), index, hash, proof, PeakValues(Bind<D>(), ls)) {
      PathBinds(ls, h, j, hash, proof);
    }
  }

  // ----- consistency -----

  lemma {:induction false} DedupKeeps<T>(s: seq<T>, i: nat)
    requires i < |s|
    ensures s[i] in Dedup(s)
    decreases |s|
  {
    var init, x := s[..|s| - 1], s[|s| - 1];
    if i < |init| {
      DedupKeeps(init, i);
      assert init[i] == s[i];
      assert forall y :: y in Dedup(init) ==> y in Dedup(s);
    } else {
      var r := Dedup(s);
      assert r[|r| - 1] == s[i];
    }
  }

  /** Every root an accepted proof proves is an entry of the new accumulator. */
  lemma AcceptedRoots<T>(m: Hasher<T>, n: nat, before: seq<T>, after: seq<T>, paths: seq<seq<T>>, i: nat)
    requires Consistent(m, n, before, after, paths) == Ok(true) && i < |Peaks(n)|
    ensures |before| == |paths| == |Peaks(n)|
    ensures Climbed(MmriverCombine(m), Peaks(n)[i].h, Peaks(n)[i].j, before[i], paths[i]) in after
  {
    hide Climbed, Peaks, MmriverCombine, Dedup, Scanned;
    var roots := ProvenRoots(m, n, before, paths);
    DedupNoRepeats(roots);
    ScanIsRun(Dedup(roots), after, 0);
    DedupKeeps(roots, i);
    if after != [] { assert after[0..] == after && forall x :: x in after[1..] ==> x in after; }
  }

  /** An old peak proved by a non-empty path, or standing for more than one leaf, is a node of the new forest. */
  lemma PeakKept<D>(before: seq<Hash<D>>, after: seq<Hash<D>>, c: Coord, path: seq<Hash<D>>)
    requires Hashed(before) && Hashed(after) && InForest(|before|, c)
    requires Climbed(Bind<D>(), c.h, c.j, Node(Bind<D>(), before, c.h, c.j), path) in PeakValues(Bind<D>(), after)
    ensures path != [] || c.h > 0 ==>
              InForest(|after|, c) && Node(Bind<D>(), before, c.h, c.j) == Node(Bind<D>(), after, c.h, c.j)
    ensures path == [] && c.h == 0 ==>
              |after| % 2 == 1 && c.j < |before| && before[c.j] == after[|after| - 1]
  {
    hide Pos, Bind, Climbed, Peaks, Shr, Node, Path, Reached, Size;
    var n, f := |after|, Bind<D>();
    var v := Node(f, before, c.h, c.j);
    if path != [] {
      PathBinds(after, c.h, c.j, v, path);
    } else {
      assert Climbed(f, c.h, c.j, v, []) == v by { ClimbedNone(f, c.h, c.j, v); }
      PeaksAllIn(n);
      var k :| 0 <= k < |PeakValues(f, after)| && PeakValues(f, after)[k] == v;
      var peak := Peaks(n)[k];
      assert v == Node(f, after, peak.h, peak.j);
      NodeShape(before, c.h, c.j);
      NodeShape(after, peak.h, peak.j);
      if c.h > 0 {
        PosInjective(c, peak);
      } else {
        PeaksMember(n, peak);
        ShrZeroBits(n);
      }
    }
  }

  lemma ClimbedNone<T>(f: Combine<T>, h: nat, j: nat, v: T)
    ensures Climbed(f, h, j, v, []) == v
  {
  }

  /** The last leaf of an odd number stands alone. */
  lemma LonePeak(n: nat, c: Coord, i: nat)
    requires c in Peaks(n) && Under(0, i, c.h, c.j)
    ensures c.h == 0 <==> n % 2 == 1 && i == n - 1
    ensures i < n
  {
    hide Shr, Peaks;
    PeaksMember(n, c);
    PeaksInForest(n, c);
    UnderInForest(n, 0, i, c.h, c.j);
    LevelZero(n, i);
    if c.h == 0 {
      ShrZeroBits(n);
      UnderZero(i, c.j);
    } else if n % 2 == 1 && i == n - 1 {
      ShrZeroBits(n);
      PeaksMember(n, Coord(0, i));
      UnderZero(i, i);
      CoverUnique(n, 0, i, c, Coord(0, i));
    }
  }

  /** The path handed in for the last old peak. */
  ghost predicate LastPathEmpty<T>(paths: seq<seq<T>>) {
    paths != [] && paths[|paths| - 1] == []
  }

  lemma LoneIsLast(n: nat, a: nat)
    requires a < |Peaks(n)| && Peaks(n)[a].h == 0
    ensures a == |Peaks(n)| - 1
  {
    PeaksDescend(n, BitLength(n));
    var last := Peaks(n)[|Peaks(n)| - 1];
  }

  /** One old leaf, from the proof of the peak above it. */
  lemma LeafKept<D(!new)>(before: seq<Hash<D>>, after: seq<Hash<D>>, paths: seq<seq<Hash<D>>>, i: nat)
    requires Hashed(before) && Hashed(after) && i < |before|
    requires Consistent(Free<D>(), |before|, PeakValues(Bind<D>(), before), PeakValues(Bind<D>(), after), paths) == Ok(true)
    ensures if |before| % 2 == 1 && i == |before| - 1 && LastPathEmpty(paths)
            then |after| % 2 == 1 && before[i] == after[|after| - 1]
            else i < |after| && before[i] == after[i]
  {
    hide Pos, Bind, Climbed, Peaks, Shr, Node, Consistent, Under, Free, MmriverCombine;
    var n := |before|;
    var a := LeafInPeak(n, i);
    var c := Peaks(n)[a];
    AcceptedRoots(Free<D>(), n, PeakValues(Bind<D>(), before), PeakValues(Bind<D>(), after), paths, a);
    PeaksAllIn(n);
    assert PeakValues(Bind<D>(), before)[a] == Node(Bind<D>(), before, c.h, c.j);
    BindIs<D>();
    PeakKept(before, after, c, paths[a]);
    LonePeak(n, c, i);
    if c.h == 0 { LoneIsLast(n, a); UnderZero(i, c.j); }
    if paths[a] != [] || c.h > 0 {
      BothInjective<D>();
      NodeBinds(Bind<D>(), before, after, c.h, c.j, i);
    }
  }

  lemma BindIs<D>()
    ensures Bind<D>() == MmriverCombine(Free<D>())
  {
  }

  /**
   An accepted consistency proof, whatever its paths, shows that the new run extends the old one, with
   one exception: a lone last leaf of the old run proved by an empty path may be any lone last leaf of
   the new run. Then the new run extends the old one exactly when it holds that leaf in the old place too.
   */
  lemma LeavesKept<D(!new)>(before: seq<Hash<D>>, after: seq<Hash<D>>, paths: seq<seq<Hash<D>>>)
    requires Hashed(before) && Hashed(after) && before != []
    requires Consistent(Free<D>(), |before|, PeakValues(Bind<D>(), before), PeakValues(Bind<D>(), after), paths) == Ok(true)
    ensures before <= after <==>
            |before| % 2 == 0 || !LastPathEmpty(paths)
            || (|before| <= |after| && after[|before| - 1] == after[|after| - 1])
    ensures before[..|before| - 1] <= after
  {
    hide Bind, Peaks, Consistent, Free, LastPathEmpty, PeakValues;
    var n := |before|;
    forall i | 0 <= i < n
      ensures if n % 2 == 1 && i == n - 1 && LastPathEmpty(paths)
              then |after| % 2 == 1 && before[i] == after[|after| - 1]
              else i < |after| && before[i] == after[i]
    {
      LeafKept(before, after, paths, i);
    }
    var last := before[n - 1];
    if n > 1 { var secondLast := before[n - 2]; }
    assert |before[..n - 1]| <= |after|;
    if before <= after { assert after[n - 1] == last; }
  }

  /** With every path as long as the prescribed one, the exception cannot arise. */
  lemma PrescribedPathsSound<D(!new)>(before: seq<Hash<D>>, after: seq<Hash<D>>, paths: seq<seq<Hash<D>>>)
    requires Hashed(before) && Hashed(after) && 0 < |before| <= |after|
    requires |paths| == |Peaks(|before|)|
    requires forall i :: 0 <= i < |paths| ==>
               |paths[i]| == |Path(Size(|after|) - 1, Peaks(|before|)[i].h, Peaks(|before|)[i].j)|
    requires Consistent(Free<D>(), |before|, PeakValues(Bind<D>(), before), PeakValues(Bind<D>(), after), paths) == Ok(true)
    ensures before <= after
  {
    hide Bind, Peaks, Consistent, Free, PeakValues, Path, Size, Shr;
    LeavesKept(before, after, paths);
    var n := |before|;
    if n % 2 == 1 && LastPathEmpty(paths) {
      var a := LeafInPeak(n, n - 1);
      LonePeak(n, Peaks(n)[a], n - 1);
      LoneIsLast(n, a);
      UnderZero(n - 1, Peaks(n)[a].j);
      LoneStays(n, |after|);
    }
  }

  /** A lone last leaf that is still a peak is still the last leaf. */
  lemma LoneStays(n: nat, n': nat)
    requires n % 2 == 1 && n <= n'
    requires Path(Size(n') - 1, 0, n - 1) == []
    ensures n == n'
  {
    hide Pos, Size;
    LevelZero(n', n - 1);
    LevelZero(n', n);
    ClimbInForest(n', 0, n - 1);
  }

  /** The exception is real: a lone last leaf moves from the first place to the third. */
  lemma EmptyPathMovesLeaf<D>(x: D, y: D, z: D)
    requires x != y
    ensures var before, after := [HLeaf(x)], [HLeaf(y), HLeaf(z), HLeaf(x)];
            && Consistent(Free<D>(), 1, PeakValues(Bind<D>(), before), PeakValues(Bind<D>(), after), [[]]) == Ok(true)
            && !(before <= after)
  {
    hide Bind, Free, Climbed, MmriverCombine, PeakValues;
    var f, before, after := Bind<D>(), [HLeaf(x)], [HLeaf(y), HLeaf(z), HLeaf(x)];
    SmallPeaks();
    OneAndThree(f, HLeaf(x), HLeaf(y), HLeaf(z));
    BindIs<D>();
    ClimbedNone(f, 0, 0, HLeaf(x));
    var roots := ProvenRoots(Free<D>(), 1, PeakValues(f, before), [[]]);
    assert roots == [HLeaf(x)];
    assert Dedup(roots) == [HLeaf(x)] by { assert roots[..0] == []; }
    assert [HLeaf(x)][1..] == [];
    assert Scanned([HLeaf(x)], PeakValues(f, after), 0);
    assert before[0] == HLeaf(x) && after[0] == HLeaf(y);
  }

  lemma OneAndThree<T>(f: Combine<T>, x: T, y: T, z: T)
    ensures PeakValues(f, [x]) == [x]
    ensures |PeakValues(f, [y, z, x])| == 2 && PeakValues(f, [y, z, x])[1] == x
  {
    hide Pos, Shr, PeaksBelow;
    SmallPeaks();
    PeaksAllIn(1);
    PeaksAllIn(3);
    LevelZero(1, 0);
    LevelZero(3, 2);
  }

  // ----- completeness again, without its side condition -----

  /** Peaks of one run all differ. */
  lemma PeaksDiffer<D>(ls: seq<Hash<D>>)
    requires Hashed(ls)
    ensures NoRepeats(PeakValues(Bind<D>(), ls))
  {
    hide Pos, Bind, Node, Shr, Peaks;
    var n, f := |ls|, Bind<D>();
    PeaksAllIn(n);
    forall i | 0 < i < |PeakValues(f, ls)|
      ensures PeakValues(f, ls)[i - 1] != PeakValues(f, ls)[i]
    {
      var a, b := Peaks(n)[i - 1], Peaks(n)[i];
      NodeShape(ls, a.h, a.j);
      NodeShape(ls, b.h, b.j);
      PeakHeights(n, i - 1, i);
      if a.h > 0 && b.h > 0 && Pos(a.h, a.j) == Pos(b.h, b.j) { PosInjective(a, b); }
    }
  }

  lemma HonestConsistency<D>(ls: seq<Hash<D>>, k: nat)
    requires Hashed(ls) && 0 < k <= |ls|
    ensures AllIn(|ls|, Peaks(k))
    ensures Consistent(Free<D>(), k, PeakValues(Bind<D>(), ls[..k]), PeakValues(Bind<D>(), ls), PeakPaths(Bind<D>(), ls, k))
            == Ok(true)
  {
    hide Bind, Free, PeakValues, PeakPaths, Consistent, Peaks, InForest, MmriverCombine;
    BindIs<D>();
    PeaksDiffer(ls);
    ConsistencyAccepted(Free<D>(), ls, k);
  }
}
