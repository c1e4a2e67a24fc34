/**
 When an accepted consistency proof shows that one run extends another, under a hash without
 collisions: the two sizes decide, and whether the last path is empty.
 */
module MmriverBinding {
  import opened Bits
  import opened Forest
  import opened InclusionPath
  import opened Nodes
  import opened FreeHash
  import opened Bagging
  import opened Parting
  import opened ProofPlan
  import opened MmriverPaths
  import opened MmriverProofs
  import opened Mmriver
  import opened MmriverCompleteness
  import opened MmriverSoundness
  import opened Wrappers

  /**
   A lone last leaf of n can pass for the lone last leaf of n': exactly when that is the accumulator
   entry the scan of `verify` comes to next, or the second one when there is nothing before it.
   */
  ghost predicate Misleading(n: nat, n': nat) {
    && n % 2 == 1 && n' % 2 == 1 && n < n'
    && if n == 1 then |Peaks(n')| == 2 else |Peaks(n')| == Holding(n - 1, n') + 1
  }

  /** An odd forest has its last leaf as a peak of its own. */
  lemma {:induction false} LonePeakLast(n: nat, k: nat)
    requires n % 2 == 1 && k > 0
    ensures PeaksBelow(n, k) == PeaksBelow(n - 1, k) + [Coord(0, n - 1)]
    decreases k
  {
    hide Shr, PeaksBelow;
    PeaksBelowStep(n, k);
    PeaksBelowStep(n - 1, k);
    ShrZeroBits(n);
    ShrZeroBits(n - 1);
    if k == 1 {
      NoPeaksBelow(n);
      NoPeaksBelow(n - 1);
    } else {
      HalvesAgree(n, k - 1);
      LonePeakLast(n, k - 1);
    }
  }

  lemma HalvesAgree(n: nat, h: nat)
    requires n % 2 == 1 && h > 0
    ensures Shr(n, h) == Shr(n - 1, h)
  {
    assert (n - 1) / 2 == n / 2;
  }

  lemma OddPeaks(n: nat)
    requires n % 2 == 1
    ensures Peaks(n) == Peaks(n - 1) + [Coord(0, n - 1)]
    ensures forall i :: 0 <= i < |Peaks(n - 1)| ==> Peaks(n)[i] == Peaks(n - 1)[i] && Peaks(n - 1)[i].h > 0
  {
    hide Shr, PeaksBelow, Peaks;
    SameTop(n - 1, n);
    BitLengthBounds(n);
    LonePeakLast(n, BitLength(n));
    var peaks := Peaks(n - 1);
    forall i | 0 <= i < |peaks|
      ensures peaks[i].h > 0
    {
      PeaksMember(n - 1, peaks[i]);
      ShrZeroBits(n - 1);
    }
  }

  lemma OddPeakAt(n: nat, i: nat)
    requires n % 2 == 1 && i < |Peaks(n - 1)|
    ensures i < |Peaks(n)| && Peaks(n)[i] == Peaks(n - 1)[i] && Peaks(n - 1)[i].h > 0
  {
    hide Peaks;
    OddPeaks(n);
  }

  /** So the last entry of its accumulator is the last leaf, after the accumulator without it. */
  lemma OddValues<D>(ls: seq<Hash<D>>)
    requires |ls| % 2 == 1
    ensures PeakValues(Bind<D>(), ls) == PeakValues(Bind<D>(), ls[..|ls| - 1]) + [ls[|ls| - 1]]
  {
    hide Bind, Node, Shr, Peaks, PeaksBelow, InForest;
    var f, n, init := Bind<D>(), |ls|, ls[..|ls| - 1];
    OddPeaks(n);
    PrefixPeaks(f, ls, n - 1);
    PeakValueAt(f, ls, |Peaks(n)| - 1);
    LevelZero(n, n - 1);
    NodeZero(f, ls, n - 1);
    forall i | 0 <= i < |Peaks(n - 1)|
      ensures PeakValues(f, ls)[i] == PeakValues(f, init)[i]
    {
      PeakValueAt(f, ls, i);
    }
  }

  lemma NodeZero<T>(f: Combine<T>, ls: seq<T>, j: nat)
    requires j < |ls|
    ensures InForest(|ls|, Coord(0, j)) && Node(f, ls, 0, j) == ls[j]
  {
    LevelZero(|ls|, j);
  }

  /** Leaves and higher nodes among the peaks. */
  lemma PeakKind<D>(ls: seq<Hash<D>>, k: nat)
    requires Hashed(ls) && k < |Peaks(|ls|)|
    ensures |PeakValues(Bind<D>(), ls)| == |Peaks(|ls|)|
    ensures PeakValues(Bind<D>(), ls)[k].HLeaf? <==> Peaks(|ls|)[k].h == 0
    ensures Peaks(|ls|)[k].h == 0 ==> k == |Peaks(|ls|)| - 1 && |ls| % 2 == 1
  {
    hide Bind, Node, Peaks, Shr, Pos;
    var c := Peaks(|ls|)[k];
    PeakValueAt(Bind<D>(), ls, k);
    NodeShape(ls, c.h, c.j);
    if c.h == 0 {
      LoneIsLast(|ls|, k);
      PeaksMember(|ls|, c);
      ShrZeroBits(|ls|);
    }
  }

  // ----- what the roots are -----

  /** The root of an old peak above the leaves is the new peak that covers it. */
  lemma CoverRoot<D>(before: seq<Hash<D>>, after: seq<Hash<D>>, i: nat, path: seq<Hash<D>>)
    requires Hashed(before) && Hashed(after) && |before| % 2 == 1 && |before| - 1 <= |after| && i < |Peaks(|before| - 1)|
    requires var c := Peaks(|before| - 1)[i];
             && InForest(|before|, c)
             && Climbed(Bind<D>(), c.h, c.j, Node(Bind<D>(), before, c.h, c.j), path) in PeakValues(Bind<D>(), after)
    ensures var (m, n) := (|before| - 1, |after|);
            var (c, e) := (Peaks(m)[i], if i < Shared(m, n) then i else Shared(m, n));
            && e < |PeakValues(Bind<D>(), after)| == |Peaks(n)|
            && Climbed(Bind<D>(), c.h, c.j, Node(Bind<D>(), before, c.h, c.j), path) == PeakValues(Bind<D>(), after)[e]
            && PeakValues(Bind<D>(), after)[e].HNode?
  {
    hide Bind, Climbed, Peaks, Node, Shr, Pos, Under, IsPeak, Shared, InForest, PeakValues;
    var m, n, f := |before| - 1, |after|, Bind<D>();
    var c := Peaks(m)[i];
    OddPeakAt(|before|, i);
    OldPeakUnder(m, n, i);
    var e := if i < Shared(m, n) then i else Shared(m, n);
    var top := TopOf(before, after, c, path);
    PeaksMember(n, Peaks(n)[e]);
    PeaksMember(n, top);
    CoverUnique(n, c.h, c.j, top, Peaks(n)[e]);
    PeakValueAt(f, after, e);
    PeakKind(after, e);
    UnderHigher(c, Peaks(n)[e]);
  }

  lemma UnderHigher(c: Coord, p: Coord)
    requires Under(c.h, c.j, p.h, p.j) && c.h > 0
    ensures p.h > 0
  {
  }

  lemma TopOf<D>(before: seq<Hash<D>>, after: seq<Hash<D>>, c: Coord, path: seq<Hash<D>>) returns (top: Coord)
    requires Hashed(before) && Hashed(after) && InForest(|before|, c) && c.h > 0
    requires Climbed(Bind<D>(), c.h, c.j, Node(Bind<D>(), before, c.h, c.j), path) in PeakValues(Bind<D>(), after)
    ensures top in Peaks(|after|) && InForest(|after|, top) && Under(c.h, c.j, top.h, top.j)
    ensures Climbed(Bind<D>(), c.h, c.j, Node(Bind<D>(), before, c.h, c.j), path) == Node(Bind<D>(), after, top.h, top.j)
  {
    hide Bind, Climbed, Peaks, Node, Shr, Pos, PeakValues, InForest;
    var f := Bind<D>();
    var v := Node(f, before, c.h, c.j);
    if path != [] {
      PathEndsInPeak(after, c.h, c.j, v, path);
      top := Coord(c.h + |path|, Shr(c.j, |path|));
    } else {
      ClimbedNone(f, c.h, c.j, v);
      var k :| 0 <= k < |PeakValues(f, after)| && PeakValues(f, after)[k] == v;
      PeaksAllIn(|after|);
      PeakTotal(f, after);
      PeakValueAt(f, after, k);
      top := Peaks(|after|)[k];
      NodeShape(before, c.h, c.j);
      NodeShape(after, top.h, top.j);
      PosInjective(c, top);
      UnderSelf(c);
    }
  }

  /** De-duplicated roots: the entries that hold the old peaks, then the lone leaf. */
  lemma {:induction false} LoneRoots<D>(after: seq<Hash<D>>, m: nat, roots: seq<Hash<D>>, leaf: Hash<D>)
    requires Hashed(after) && m <= |after| && leaf.HLeaf? && |roots| == |Peaks(m)|
    requires forall i :: 0 <= i < |roots| ==> CoveredBy(roots[i], after, Shared(m, |after|), i)
    ensures m == 0 ==> Dedup(roots + [leaf]) == [leaf]
    ensures m > 0 ==>
              var q := Holding(m, |after|);
              0 < q <= |PeakValues(Bind<D>(), after)|
              && Dedup(roots + [leaf]) == PeakValues(Bind<D>(), after)[..q] + [leaf]
  {
    hide Bind, Peaks, PeakValues, Dedup, Shared, Hashed;
    var acc, c := PeakValues(Bind<D>(), after), Shared(m, |after|);
    PeaksNotEmpty(m);
    DedupUnfold(roots + [leaf]);
    assert (roots + [leaf])[..|roots|] == roots;
    DedupUnfold(roots);
    if m > 0 {
      OldPeakUnder(m, |after|, 0);
      var last := |roots| - 1;
      assert CoveredBy(roots[last], after, c, last);
      DedupCovers(roots, acc, c);
      PeaksDiffer(after);
      var q := Holding(m, |after|);
      NoRepeatsPrefix(acc, q);
      DedupNoRepeats(acc[..q]);
    }
  }

  lemma NoRepeatsPrefix<T>(s: seq<T>, q: nat)
    requires NoRepeats(s) && q <= |s|
    ensures NoRepeats(s[..q])
  {
    forall i | 0 < i < q
      ensures s[..q][i - 1] != s[..q][i]
    {
      assert s[i - 1] != s[i];
    }
  }

  // ----- when the scan accepts them -----

  lemma ScanOne<D>(after: seq<Hash<D>>, leaf: Hash<D>)
    requires Hashed(after) && leaf.HLeaf? && |after| != 1
    ensures Scanned([leaf], PeakValues(Bind<D>(), after), 0) <==>
            |after| % 2 == 1 && |Peaks(|after|)| == 2 && leaf == after[|after| - 1]
  {
    hide Bind, Peaks, PeakValues, Scanned, Hashed;
    var acc, n := PeakValues(Bind<D>(), after), |after|;
    PeakTotal(Bind<D>(), after);
    ScanIsRun([leaf], acc, 0);
    if n % 2 == 1 { LastEntry(after); }
    if |acc| > 0 {
      assert acc[0..] == acc;
      PeakKind(after, 0);
      if |acc| == 1 && n % 2 == 1 { OnePeakOdd(n); }
      if |acc| > 1 {
        PeakKind(after, 1);
        assert acc[1..][0] == acc[1];
      }
    }
  }

  lemma OnePeakOdd(n: nat)
    requires n % 2 == 1 && |Peaks(n)| == 1
    ensures n == 1
  {
    hide Peaks;
    OddPeaks(n);
    PeaksNotEmpty(n - 1);
  }

  lemma LastEntry<D>(ls: seq<Hash<D>>)
    requires |ls| % 2 == 1
    ensures |PeakValues(Bind<D>(), ls)| > 0 && PeakValues(Bind<D>(), ls)[|PeakValues(Bind<D>(), ls)| - 1] == ls[|ls| - 1]
  {
    hide Bind, PeakValues;
    OddValues(ls);
  }

  lemma ScanMore<D>(after: seq<Hash<D>>, q: nat, leaf: Hash<D>)
    requires Hashed(after) && leaf.HLeaf? && 0 < q <= |PeakValues(Bind<D>(), after)|
    requires NoRepeats(PeakValues(Bind<D>(), after)[..q] + [leaf])
    ensures Scanned(PeakValues(Bind<D>(), after)[..q] + [leaf], PeakValues(Bind<D>(), after), 0) <==>
            |after| % 2 == 1 && |Peaks(|after|)| == q + 1 && leaf == after[|after| - 1]
  {
    hide Bind, Peaks, PeakValues, Scanned, Hashed, NoRepeats;
    var acc, n := PeakValues(Bind<D>(), after), |after|;
    var roots := acc[..q] + [leaf];
    PeakTotal(Bind<D>(), after);
    ScanIsRun(roots, acc, 0);
    assert acc[0..] == acc && roots[0] == acc[0] && roots[q] == leaf;
    if n % 2 == 1 { LastEntry(after); }
    if q < |acc| {
      PeakKind(after, q);
      if acc[q] == leaf { assert roots == acc[..q + 1]; }
    }
  }

  // ----- the verdict -----

  /** The roots above the old peaks are the entries that cover them. */
  ghost predicate RootsCover<D>(before: seq<Hash<D>>, after: seq<Hash<D>>, paths: seq<seq<Hash<D>>>)
    requires |before| > 0 && |paths| == |Peaks(|before|)| == |PeakValues(Bind<D>(), before)|
    requires |Peaks(|before| - 1)| <= |Peaks(|before|)|
  {
    var roots := ProvenRoots(Free<D>(), |before|, PeakValues(Bind<D>(), before), paths);
    forall i :: 0 <= i < |Peaks(|before| - 1)| ==> CoveredBy(roots[i], after, Shared(|before| - 1, |after|), i)
  }

  /** The i-th root is the entry of the i-th new peak as long as these are shared, then of the next one. */
  ghost predicate CoveredBy<D>(root: Hash<D>, after: seq<Hash<D>>, shared: nat, i: nat) {
    var e := if i < shared then i else shared;
    e < |PeakValues(Bind<D>(), after)| && root == PeakValues(Bind<D>(), after)[e] && root.HNode?
  }

  lemma OddVerdict<D>(before: seq<Hash<D>>, after: seq<Hash<D>>, paths: seq<seq<Hash<D>>>)
    requires Hashed(before) && Hashed(after) && |before| % 2 == 1 && |before| - 1 <= |after| != |before|
    requires |paths| == |Peaks(|before|)| == |PeakValues(Bind<D>(), before)| && LastPathEmpty(paths)
    requires |Peaks(|before| - 1)| <= |Peaks(|before|)| && RootsCover(before, after, paths)
    ensures Consistent(Free<D>(), |before|, PeakValues(Bind<D>(), before), PeakValues(Bind<D>(), after), paths)
            == Ok(Misleading(|before|, |after|) && before[|before| - 1] == after[|after| - 1])
  {
    hide Bind, Peaks, PeakValues, Scanned, Dedup, Shared, Holding, Free, Climbed, MmriverCombine, Shr, ProvenRoots;
    var n, m := |before|, |before| - 1;
    var leaf := before[m];
    var all := ProvenRoots(Free<D>(), n, PeakValues(Bind<D>(), before), paths);
    LoneRoot(before, paths);
    var roots := all[..|Peaks(m)|];
    assert all == roots + [leaf];
    assert leaf.HLeaf?;
    LoneRoots(after, m, roots, leaf);
    DedupNoRepeats(all);
    if m == 0 {
      ScanOne(after, leaf);
    } else {
      ScanMore(after, Holding(m, |after|), leaf);
    }
  }

  lemma LoneRoot<D>(before: seq<Hash<D>>, paths: seq<seq<Hash<D>>>)
    requires |before| % 2 == 1 && |paths| == |Peaks(|before|)| == |PeakValues(Bind<D>(), before)| && LastPathEmpty(paths)
    ensures |Peaks(|before|)| == |Peaks(|before| - 1)| + 1
    ensures var all := ProvenRoots(Free<D>(), |before|, PeakValues(Bind<D>(), before), paths);
            |all| == |Peaks(|before|)| && all[|all| - 1] == before[|before| - 1]
  {
    hide Bind, Peaks, PeakValues, Free, Climbed, MmriverCombine;
    OddPeaks(|before|);
    LastEntry(before);
    BindIs<D>();
    ClimbedNone(Bind<D>(), 0, |before| - 1, before[|before| - 1]);
  }

  /** Acceptance alone puts every root in its place. */
  lemma AcceptedCover<D(!new)>(before: seq<Hash<D>>, after: seq<Hash<D>>, paths: seq<seq<Hash<D>>>)
    requires Hashed(before) && Hashed(after) && |before| % 2 == 1
    requires Consistent(Free<D>(), |before|, PeakValues(Bind<D>(), before), PeakValues(Bind<D>(), after), paths) == Ok(true)
    ensures |before| - 1 <= |after| && |paths| == |Peaks(|before|)| == |PeakValues(Bind<D>(), before)|
    ensures |Peaks(|before| - 1)| <= |Peaks(|before|)| && RootsCover(before, after, paths)
  {
    hide Bind, Peaks, PeakValues, Free, Climbed, MmriverCombine, Consistent, InForest, Node, Shared, Hashed;
    var n, m := |before|, |before| - 1;
    LeavesKept(before, after, paths);
    assert |before[..m]| <= |after|;
    OddPeaks(n);
    PeakTotal(Bind<D>(), before);
    BindIs<D>();
    AcceptedRoots(Free<D>(), n, PeakValues(Bind<D>(), before), PeakValues(Bind<D>(), after), paths, 0);
    var roots := ProvenRoots(Free<D>(), n, PeakValues(Bind<D>(), before), paths);
    forall i | 0 <= i < |Peaks(m)|
      ensures CoveredBy(roots[i], after, Shared(m, |after|), i)
    {
      AcceptedRoots(Free<D>(), n, PeakValues(Bind<D>(), before), PeakValues(Bind<D>(), after), paths, i);
      PeakValueAt(Bind<D>(), before, i);
      CoverRoot(before, after, i, paths[i]);
    }
  }

  /**
   An accepted consistency proof, whatever its paths, shows that the new run extends the old one, unless
   the last path is empty and the sizes are misleading; even then only the last old leaf is in doubt.
   */
  lemma ConsistencySoundness<D(!new)>(before: seq<Hash<D>>, after: seq<Hash<D>>, paths: seq<seq<Hash<D>>>)
    requires Hashed(before) && Hashed(after) && before != []
    requires Consistent(Free<D>(), |before|, PeakValues(Bind<D>(), before), PeakValues(Bind<D>(), after), paths) == Ok(true)
    ensures !(LastPathEmpty(paths) && Misleading(|before|, |after|)) ==> before <= after
    ensures before[..|before| - 1] <= after
  {
    hide Bind, Peaks, PeakValues, Free, Consistent, RootsCover, LastPathEmpty, Misleading, Hashed;
    LeavesKept(before, after, paths);
    if |before| % 2 == 1 && LastPathEmpty(paths) && |after| != |before| {
      AcceptedCover(before, after, paths);
      OddVerdict(before, after, paths);
    }
  }

  // ----- misleading sizes do mislead -----

  /** An accepted proof between two runs of which neither extends the other. */
  ghost predicate Misled<D>(n: nat, n': nat, before: seq<Hash<D>>, after: seq<Hash<D>>, paths: seq<seq<Hash<D>>>) {
    && |before| == n && |after| == n' && Hashed(before) && Hashed(after) && LastPathEmpty(paths)
    && Consistent(Free<D>(), n, PeakValues(Bind<D>(), before), PeakValues(Bind<D>(), after), paths) == Ok(true)
    && !(before <= after)
  }

  /** The old run is the new one's beginning with the new one's last leaf put behind it. */
  lemma Mislead<D>(n: nat, n': nat, x: D, y: D) returns (before: seq<Hash<D>>, after: seq<Hash<D>>, paths: seq<seq<Hash<D>>>)
    requires Misleading(n, n') && x != y
    ensures Misled(n, n', before, after, paths)
  {
    hide Bind, Peaks, PeakValues, Free, Climbed, MmriverCombine, Consistent, RootsCover, PeakPaths, AllIn;
    var m := n - 1;
    after := seq(n', i requires 0 <= i < n' => if i == n' - 1 then HLeaf(y) else HLeaf(x));
    before := after[..m] + [HLeaf(y)];
    OddPeaks(n);
    PeakTotal(Bind<D>(), before);
    paths := HonestBut(after, m);
    HonestCover(before, after, paths, m);
    OddVerdict(before, after, paths);
    assert before[m] == HLeaf(y) && after[m] == HLeaf(x);
  }

  /** The generated paths for the old peaks above the leaves, and an empty one. */
  lemma HonestBut<D>(after: seq<Hash<D>>, m: nat) returns (paths: seq<seq<Hash<D>>>)
    requires m <= |after|
    ensures AllIn(|after|, Peaks(m)) && |PeakPaths(Bind<D>(), after, m)| == |Peaks(m)|
    ensures paths == PeakPaths(Bind<D>(), after, m) + [[]]
  {
    hide Peaks, Size, Bind, InForest, Node;
    SizeMono(m, |after|);
    OldPeaksIn(m, |after|);
    paths := PeakPaths(Bind<D>(), after, m) + [[]];
  }

  lemma HonestCover<D>(before: seq<Hash<D>>, after: seq<Hash<D>>, paths: seq<seq<Hash<D>>>, m: nat)
    requires Hashed(after) && m <= |after| && m % 2 == 0 && |before| == m + 1 && before[..m] == after[..m]
    requires AllIn(|after|, Peaks(m)) && |PeakPaths(Bind<D>(), after, m)| == |Peaks(m)|
    requires paths == PeakPaths(Bind<D>(), after, m) + [[]]
    requires |paths| == |Peaks(m + 1)| == |PeakValues(Bind<D>(), before)| && |Peaks(m)| <= |Peaks(m + 1)|
    ensures RootsCover(before, after, paths)
  {
    hide Bind, Peaks, PeakValues, Free, Climbed, MmriverCombine, PeakPaths, AllIn, Shared, Node, InForest, Hashed;
    OddPeaks(m + 1);
    OddValues(before);
    BindIs<D>();
    PrefixPeaks(Bind<D>(), after, m);
    var roots := ProvenRoots(Free<D>(), m + 1, PeakValues(Bind<D>(), before), paths);
    forall i | 0 <= i < |Peaks(m)|
      ensures CoveredBy(roots[i], after, Shared(m, |after|), i)
    {
      RootIsCover(Free<D>(), after, m, i);
      OddPeakAt(m + 1, i);
      OldPeakUnder(m, |after|, i);
      var e := if i < Shared(m, |after|) then i else Shared(m, |after|);
      UnderHigher(Peaks(m)[i], Peaks(|after|)[e]);
      PeakKind(after, e);
      SameRoot(before, after, paths, m, i);
    }
  }

  lemma SameRoot<D>(before: seq<Hash<D>>, after: seq<Hash<D>>, paths: seq<seq<Hash<D>>>, m: nat, i: nat)
    requires |Peaks(m)| <= |Peaks(m + 1)| == |PeakValues(Bind<D>(), before)| == |paths| && i < |Peaks(m)| && |before| == m + 1
    requires m <= |after| && AllIn(|after|, Peaks(m)) && |PeakPaths(Bind<D>(), after, m)| == |Peaks(m)|
    requires |PeakValues(Bind<D>(), after[..m])| == |Peaks(m)| && Peaks(m + 1)[i] == Peaks(m)[i]
    requires PeakValues(Bind<D>(), before)[i] == PeakValues(Bind<D>(), after[..m])[i]
    requires paths[i] == PeakPaths(Bind<D>(), after, m)[i]
    ensures ProvenRoots(Free<D>(), m + 1, PeakValues(Bind<D>(), before), paths)[i]
            == ProvenRoots(Free<D>(), m, PeakValues(Bind<D>(), after[..m]), PeakPaths(Bind<D>(), after, m))[i]
  {
    hide Bind, Peaks, PeakValues, Free, Climbed, MmriverCombine, PeakPaths, AllIn;
  }

  // ----- the theorem -----

  /** Whatever is accepted between runs of these lengths, the last path empty or not, extends the old run. */
  ghost predicate SizesBind<D(!new)>(n: nat, n': nat, lastEmpty: bool) {
    forall before: seq<Hash<D>>, after: seq<Hash<D>>, paths: seq<seq<Hash<D>>> ::
      |before| == n && |after| == n' && Hashed(before) && Hashed(after) && LastPathEmpty(paths) == lastEmpty
      && Consistent(Free<D>(), n, PeakValues(Bind<D>(), before), PeakValues(Bind<D>(), after), paths) == Ok(true) ==>
        before <= after
  }

  /** The sizes and the emptiness of the last path decide, over all runs and all paths of any length. */
  lemma SizesDecide<D(!new)>(n: nat, n': nat, lastEmpty: bool, x: D, y: D)
    requires n > 0 && x != y
    ensures SizesBind<D>(n, n', lastEmpty) <==> !(lastEmpty && Misleading(n, n'))
  {
    hide Bind, PeakValues, Free, Consistent, LastPathEmpty, Misleading, Hashed;
    if lastEmpty && Misleading(n, n') {
      var before, after, paths := Mislead(n, n', x, y);
    } else {
      forall before: seq<Hash<D>>, after: seq<Hash<D>>, paths: seq<seq<Hash<D>>> |
        |before| == n && |after| == n' && Hashed(before) && Hashed(after) && LastPathEmpty(paths) == lastEmpty
        && Consistent(Free<D>(), n, PeakValues(Bind<D>(), before), PeakValues(Bind<D>(), after), paths) == Ok(true)
        ensures before <= after
      {
        ConsistencySoundness(before, after, paths);
      }
    }
  }

  // ----- without the starting size -----

  lemma PeaksOfFour(n: nat)
    requires n == 4
    ensures Peaks(n) == [Coord(2, 0)]
  {
    assert BitLength(n) == 3 && Shr(n, 2) == 1 && Shr(n, 1) == 2 && Shr(n, 0) == 4;
    assert PeaksBelow(n, 0) == [];
    assert PeaksBelow(n, 1) == [] + PeaksBelow(n, 0) && PeaksBelow(n, 2) == [] + PeaksBelow(n, 1);
    assert PeaksBelow(n, 3) == [Coord(2, 0)] + PeaksBelow(n, 2);
  }

  /** Leaf 2 of four leads to their root by a path that is not empty. */
  lemma PathOfThird<D>(ls: seq<Hash<D>>) returns (path: seq<Hash<D>>)
    requires |ls| == 4 && Hashed(ls)
    ensures path != [] && PeakValues(Bind<D>(), ls) == [Climbed(Bind<D>(), 0, 2, ls[2], path)]
  {
    hide Bind, Pos, Shr, PeaksBelow, Peaks, Path, Reached, Climbed, Size, Values, Node;
    var f := Bind<D>();
    PeaksOfFour(4);
    LevelZero(4, 2);
    NodeOfLeaf(f, ls, 2);
    ReachesPeak(4, 0, 2);
    ClimbedIsPeak(f, ls, 0, 2);
    PeakValueAt(f, ls, 0);
    NodeShape(ls, 2, 0);
    path := Values(f, ls, Path(Size(4) - 1, 0, 2));
    if path == [] { ClimbedNone(f, 0, 2, ls[2]); }
  }

  /** Roots that repeat an entry of the accumulator. */
  lemma RepeatAccepted<T>(top: T, y: T)
    ensures Dedup([top, top]) == [top] && Scanned([top], [top, y], 0)
  {
    assert [top, top][..1] == [top] && [top][..0] == [] && [top][1..] == [];
    assert Dedup([top]) == [top];
  }

  /**
   Two runs of five leaves that differ in the last one: a proof that claims to start from three leaves
   passes, no path of the last peak being empty.
   */
  lemma OtherStartMovesLeaf<D>(x: D, y: D) returns (before: seq<Hash<D>>, after: seq<Hash<D>>, paths: seq<seq<Hash<D>>>)
    requires x != y
    ensures |before| == |after| == 5 && Hashed(before) && Hashed(after) && !(before <= after)
    ensures !LastPathEmpty(paths)
    ensures Consistent(Free<D>(), 3, PeakValues(Bind<D>(), before), PeakValues(Bind<D>(), after), paths) == Ok(true)
  {
    hide Bind, Free, Climbed, MmriverCombine, PeakValues, Peaks, Dedup, Scanned;
    var a := HLeaf(x);
    var ls := [a, a, a, a];
    before, after := ls + [a], ls + [HLeaf(y)];
    assert before[..4] == ls && after[..4] == ls && before[4] != after[4];
    var path := PathOfThird(ls);
    var top := Climbed(Bind<D>(), 0, 2, a, path);
    paths := [[], path];
    OddValues(before);
    OddValues(after);
    SmallPeaks();
    BindIs<D>();
    ClimbedNone(Bind<D>(), 1, 0, top);
    assert PeakValues(Bind<D>(), before) == [top, a] && PeakValues(Bind<D>(), after) == [top, HLeaf(y)];
    assert ProvenRoots(Free<D>(), 3, PeakValues(Bind<D>(), before), paths) == [top, top];
    RepeatAccepted(top, HLeaf(y));
  }
}
