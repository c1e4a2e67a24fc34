/** Proofs generated by an MMRIVER are accepted. */
module MmriverCompleteness {
  import opened Bits
  import opened Forest
  import opened InclusionPath
  import opened PeakIterators
  import opened Nodes
  import opened Bagging
  import opened MmriverPaths
  import opened MmriverProofs
  import opened Mmriver
  import opened Parting
  import opened Wrappers

  // ----- inclusion -----

  /** The proof of any position leads to the one accumulator entry whose mountain covers it. */
  lemma InclusionCompleteness<T>(m: Hasher<T>, ls: seq<T>, i: nat) returns (k: nat)
    requires i < Size(|ls|)
    ensures AllIn(|ls|, Path(Size(|ls|) - 1, Height(i), Block(i)))
    ensures k < |Peaks(|ls|)| == |PeakValues(MmriverCombine(m), ls)|
    ensures Under(Height(i), Block(i), Peaks(|ls|)[k].h, Peaks(|ls|)[k].j)
    ensures var f := MmriverCombine(m);
            var proof := Values(f, ls, Path(Size(|ls|) - 1, Height(i), Block(i)));
            && Climbed(f, Height(i), Block(i), NodeAt(f, ls, i), proof) == PeakValues(f, ls)[k]
            && Included(m, i, NodeAt(f, ls, i), proof, PeakValues(f, ls))
  {
    hide Size, Pos, InForest, Height, Block, Path, Reached, Peaks, Node, MmriverCombine, Climbed;
    var f, n, h, j := MmriverCombine(m), |ls|, Height(i), Block(i);
    PathInForest(n, i);
    ReachesPeak(n, h, j);
    ClimbedIsPeak(f, ls, h, j);
    k :| 0 <= k < |Peaks(n)| && Peaks(n)[k] == Reached(Size(n) - 1, h, j);
    assert PeakValues(f, ls)[k] == Node(f, ls, Peaks(n)[k].h, Peaks(n)[k].j);
  }

  // ----- mountains -----

  /** Only one peak covers a node. */
  lemma CoverUnique(n: nat, g: nat, i: nat, p: Coord, q: Coord)
    requires IsPeak(n, p) && IsPeak(n, q) && Under(g, i, p.h, p.j) && Under(g, i, q.h, q.j)
    ensures p == q
  {
    CoverAbove(n, g, i, p, q);
    CoverAbove(n, g, i, q, p);
  }

  lemma CoverAbove(n: nat, g: nat, i: nat, p: Coord, q: Coord)
    requires IsPeak(n, p) && IsPeak(n, q) && Under(g, i, p.h, p.j) && Under(g, i, q.h, q.j)
    ensures q.h <= p.h
  {
    hide Pos, Size, Sib;
    if p.h < q.h {
      ShrShr(i, p.h - g, 1);
      ShrShr(i, p.h + 1 - g, q.h - (p.h + 1));
      assert Under(p.h + 1, p.j / 2, q.h, q.j);
      UnderInForest(n, p.h + 1, p.j / 2, q.h, q.j);
      ClimbInForest(n, p.h, p.j);
    }
  }

  // ----- the roots a consistency proof proves -----

  /** The mountains of n that hold the first m leaves: the shared ones, and one more if some are left. */
  function Holding(m: nat, n: nat): (q: nat) {
    var c := Shared(m, n);
    if c < |Peaks(m)| then c + 1 else c
  }

  lemma PrefixPeaks<T>(f: Combine<T>, ls: seq<T>, m: nat)
    requires m <= |ls|
    ensures |PeakValues(f, ls[..m])| == |Peaks(m)| && |PeakValues(f, ls)| == |Peaks(|ls|)|
    ensures forall i :: 0 <= i < |Peaks(m)| ==>
              && InForest(|ls|, Peaks(m)[i])
              && PeakValues(f, ls[..m])[i] == Node(f, ls, Peaks(m)[i].h, Peaks(m)[i].j)
  {
    hide Node, Peaks, Shr;
    PeaksAllIn(m);
    assert ls[..m] + ls[m..] == ls;
    forall i | 0 <= i < |Peaks(m)|
      ensures InForest(|ls|, Peaks(m)[i])
              && PeakValues(f, ls[..m])[i] == Node(f, ls, Peaks(m)[i].h, Peaks(m)[i].j)
    {
      NodePrefix(f, ls[..m], ls[m..], Peaks(m)[i].h, Peaks(m)[i].j);
    }
  }

  /** The root for the i-th old peak is the entry of the new peak that covers it. */
  lemma RootIsCover<T>(m: Hasher<T>, ls: seq<T>, k: nat, i: nat)
    requires 0 < k <= |ls| && AllIn(|ls|, Peaks(k)) && i < |Peaks(k)|
    ensures var f, c := MmriverCombine(m), Shared(k, |ls|);
            && |PeakValues(f, ls[..k])| == |PeakPaths(f, ls, k)| == |Peaks(k)| && c <= |Peaks(k)|
            && var e := if i < c then i else c;
            && e < |PeakValues(f, ls)|
            && ProvenRoots(m, k, PeakValues(f, ls[..k]), PeakPaths(f, ls, k))[i] == PeakValues(f, ls)[e]
  {
    hide Peaks, Node, MmriverCombine, Size, Under, InForest, Path, Reached, Climbed, Shared;
    var f, n, c := MmriverCombine(m), |ls|, Peaks(k)[i];
    PrefixPeaks(f, ls, k);
    CoverOf(k, n, i);
    ClimbedIsPeak(f, ls, c.h, c.j);
    PathOfPeak(n, c);
    assert PeakPaths(f, ls, k)[i] == Values(f, ls, Path(Size(n) - 1, c.h, c.j));
  }

  /** Each old peak is proved to lie in the new peak that covers it. */
  lemma RootsAreCovers<T>(m: Hasher<T>, ls: seq<T>, k: nat)
    requires 0 < k <= |ls|
    ensures AllIn(|ls|, Peaks(k))
    ensures var f, c := MmriverCombine(m), Shared(k, |ls|);
            && |PeakValues(f, ls[..k])| == |PeakPaths(f, ls, k)| == |Peaks(k)|
            && |ProvenRoots(m, k, PeakValues(f, ls[..k]), PeakPaths(f, ls, k))| == |Peaks(k)|
            && c <= |Peaks(k)| && (c < |Peaks(k)| ==> c < |PeakValues(f, ls)|) && (c > 0 ==> c <= |PeakValues(f, ls)|)
            && forall i :: 0 <= i < |Peaks(k)| ==>
                 ProvenRoots(m, k, PeakValues(f, ls[..k]), PeakPaths(f, ls, k))[i]
                 == PeakValues(f, ls)[if i < c then i else c]
  {
    hide Peaks, MmriverCombine, Size, Shared, PeakValues, PeakPaths, ProvenRoots, InForest;
    var c := Shared(k, |ls|);
    SizeMono(k, |ls|);
    OldPeaksIn(k, |ls|);
    PeaksNotEmpty(k);
    RootIsCover(m, ls, k, |Peaks(k)| - 1);
    RootCount(m, k, PeakValues(MmriverCombine(m), ls[..k]), PeakPaths(MmriverCombine(m), ls, k));
    if 0 < c { RootIsCover(m, ls, k, c - 1); }
    forall i | 0 <= i < |Peaks(k)|
      ensures (if i < c then i else c) < |PeakValues(MmriverCombine(m), ls)|
      ensures ProvenRoots(m, k, PeakValues(MmriverCombine(m), ls[..k]), PeakPaths(MmriverCombine(m), ls, k))[i]
              == PeakValues(MmriverCombine(m), ls)[if i < c then i else c]
    {
      RootIsCover(m, ls, k, i);
    }
  }

  lemma RootCount<T>(m: Hasher<T>, n: nat, accumulator: seq<T>, paths: seq<seq<T>>)
    requires |accumulator| == |paths| == |Peaks(n)|
    ensures |ProvenRoots(m, n, accumulator, paths)| == |Peaks(n)|
  {
    hide Climbed, Peaks;
  }

  lemma CoverOf(m: nat, n: nat, i: nat)
    requires m <= n && i < |Peaks(m)| && InForest(n, Peaks(m)[i])
    ensures var (a, c) := (Peaks(m)[i], Shared(m, n));
            && c <= |Peaks(m)| && Size(n) > 0
            && var k := if i < c then i else c;
            k < |Peaks(n)| && Reached(Size(n) - 1, a.h, a.j) == Peaks(n)[k]
  {
    hide Peaks, Size, Path, Reached, Shr, IsPeak, Shared, InForest, Under;
    var a, c := Peaks(m)[i], Shared(m, n);
    OldPeakUnder(m, n, i);
    ReachesPeak(n, a.h, a.j);
    var p, q := Reached(Size(n) - 1, a.h, a.j), Peaks(n)[if i < c then i else c];
    PeaksMember(n, p);
    PeaksMember(n, q);
    CoverUnique(n, a.h, a.j, p, q);
  }

  // ----- the scan -----

  ghost predicate NoRepeats<T>(s: seq<T>) {
    forall i :: 0 < i < |s| ==> s[i - 1] != s[i]
  }

  /** Once two neighbours are equal, all that follow are. */
  ghost predicate Settled<T>(s: seq<T>) {
    forall i :: 1 < i < |s| && s[i - 2] == s[i - 1] ==> s[i - 1] == s[i]
  }

  lemma {:induction false} DedupNoRepeats<T>(s: seq<T>)
    ensures NoRepeats(Dedup(s))
    ensures NoRepeats(s) ==> Dedup(s) == s
  {
    hide NoRepeats, Dedup;
    DedupUnfold(s);
    if s != [] {
      var init, x := s[..|s| - 1], s[|s| - 1];
      DedupNoRepeats(init);
      NoRepeatsSnoc(Dedup(init), x);
      NoRepeatsSnoc(init, x);
      assert s == init + [x];
    } else {
      assert NoRepeats(Dedup(s)) by { NoRepeatsNone<T>(); }
    }
  }

  lemma DedupUnfold<T>(s: seq<T>)
    ensures s == [] ==> Dedup(s) == []
    ensures s != [] ==>
              var r, x := Dedup(s[..|s| - 1]), s[|s| - 1];
              Dedup(s) == if r != [] && r[|r| - 1] == x then r else r + [x]
  {
  }

  lemma NoRepeatsNone<T>()
    ensures NoRepeats<T>([])
  {
  }

  lemma NoRepeatsSnoc<T>(s: seq<T>, x: T)
    ensures NoRepeats(s + [x]) <==> NoRepeats(s) && (s != [] ==> s[|s| - 1] != x)
  {
    var t := s + [x];
    assert forall i :: 0 <= i < |s| ==> t[i] == s[i];
    if NoRepeats(t) {
      assert s != [] ==> t[|s| - 1] != t[|s|];
      forall i | 0 < i < |s| ensures s[i - 1] != s[i] { assert t[i - 1] != t[i]; }
    }
  }

  /** Repeating the last entry changes nothing. */
  lemma {:induction false} DedupRepeats<T>(s: seq<T>, t: seq<T>)
    requires s != [] && forall i :: 0 <= i < |t| ==> t[i] == s[|s| - 1]
    ensures Dedup(s + t) == Dedup(s)
  {
    if t == [] {
      assert s + t == s;
    } else {
      DedupRepeats(s, t[..|t| - 1]);
      assert (s + t)[..|s + t| - 1] == s + t[..|t| - 1];
    }
  }

  /** The scan accepts a list without repeats exactly when it continues the accumulator at idx or just after it. */
  lemma {:induction false} ScanIsRun<T>(roots: seq<T>, accumulator: seq<T>, idx: nat)
    requires NoRepeats(roots)
    ensures Scanned(roots, accumulator, idx) <==>
            roots == []
            || (idx < |accumulator|
                && (if accumulator[idx] == roots[0] then roots <= accumulator[idx..] else roots <= accumulator[idx + 1..]))
  {
    if roots != [] && idx < |accumulator| {
      var rest := roots[1..];
      NoRepeatsTail(roots);
      assert roots == [roots[0]] + rest;
      if accumulator[idx] == roots[0] {
        ScanIsRun(rest, accumulator, idx);
        assert accumulator[idx..] == [accumulator[idx]] + accumulator[idx + 1..];
        if rest != [] { assert roots[0] != roots[1]; }
      } else if idx + 1 < |accumulator| && accumulator[idx + 1] == roots[0] {
        ScanIsRun(rest, accumulator, idx + 1);
        assert accumulator[idx + 1..] == [accumulator[idx + 1]] + accumulator[idx + 2..];
        if rest != [] { assert roots[0] != roots[1]; }
      }
    }
  }

  /** What the scan accepts: nothing, or a stretch of the accumulator from its first or its second entry on. */
  ghost predicate RunOf<T>(roots: seq<T>, accumulator: seq<T>) {
    roots == []
    || (accumulator != [] && if accumulator[0] == roots[0] then roots <= accumulator else roots <= accumulator[1..])
  }

  /** `verify` on arbitrary input: an error exactly for lists of the wrong length, else whether the roots are such a stretch. */
  lemma ConsistencyDecided<T>(m: Hasher<T>, size: nat, oldAccumulator: seq<T>, newAccumulator: seq<T>, paths: seq<seq<T>>)
    ensures var (r, fromPeaks) := (ConsistentAt(m, size, oldAccumulator, newAccumulator, paths), Strides(0, size));
            if |oldAccumulator| != |fromPeaks| || |paths| != |fromPeaks| then r == Err(CorruptedProof)
            else r == Ok(RunOf(Dedup(RootsAt(m, fromPeaks, oldAccumulator, paths)), newAccumulator))
  {
    hide Strides, Dedup, RootsAt, NoRepeats, Scanned;
    var fromPeaks := Strides(0, size);
    if |oldAccumulator| == |paths| == |fromPeaks| {
      var roots := Dedup(RootsAt(m, fromPeaks, oldAccumulator, paths));
      DedupNoRepeats(RootsAt(m, fromPeaks, oldAccumulator, paths));
      ScanIsRun(roots, newAccumulator, 0);
      assert newAccumulator[0..] == newAccumulator;
    }
  }

  lemma NoRepeatsTail<T>(s: seq<T>)
    requires NoRepeats(s) && s != []
    ensures NoRepeats(s[1..])
  {
    forall i | 0 < i < |s[1..]| ensures s[1..][i - 1] != s[1..][i] { assert s[i] != s[i + 1]; }
  }

  /** De-duplication only shortens: what is left is a beginning exactly when the list is settled. */
  lemma {:induction false} DedupIsPrefix<T>(s: seq<T>)
    ensures Dedup(s) <= s <==> Settled(s)
    ensures Settled(s) ==> forall i :: |Dedup(s)| <= i < |s| ==> s[i] == s[|s| - 1]
  {
    hide Dedup;
    DedupUnfold(s);
    if s != [] {
      var init, x := s[..|s| - 1], s[|s| - 1];
      DedupIsPrefix(init);
      SettledInit(s);
      assert forall i :: 0 <= i < |init| ==> init[i] == s[i];
      var r := Dedup(init);
      if Settled(init) {
        if |r| < |init| {
          RepeatsAtEnd(init);
        } else {
          assert r == init;
          DedupNoRepeats(init);
          if |s| > 2 { assert init[|s| - 3] != init[|s| - 2]; }
        }
      }
    }
  }

  lemma SettledInit<T>(s: seq<T>)
    requires s != []
    ensures var init := s[..|s| - 1];
            Settled(s) <==> Settled(init) && (|s| > 2 && s[|s| - 3] == s[|s| - 2] ==> s[|s| - 2] == s[|s| - 1])
  {
    var init := s[..|s| - 1];
    assert forall i :: 0 <= i < |init| ==> init[i] == s[i];
    assert s[|s| - 1] == s[|init|];
  }

  lemma RepeatsAtEnd<T>(s: seq<T>)
    requires s != [] && |Dedup(s)| < |s| && Dedup(s) <= s
    requires forall i :: |Dedup(s)| <= i < |s| ==> s[i] == s[|s| - 1]
    ensures |s| >= 2 && s[|s| - 2] == s[|s| - 1]
  {
    var k := |Dedup(s)|;
    assert s[k] == s[|s| - 1];
    assert Dedup(s)[k - 1] == s[k - 1];
  }

  // ----- the theorem -----

  lemma RootsDedup<T>(m: Hasher<T>, ls: seq<T>, k: nat)
    requires 0 < k <= |ls|
    ensures AllIn(|ls|, Peaks(k))
    ensures var f := MmriverCombine(m);
            && 0 < Holding(k, |ls|) <= |PeakValues(f, ls)|
            && RootsFrom(m, k, PeakValues(f, ls[..k]), PeakPaths(f, ls, k))
               == Ok(Dedup(PeakValues(f, ls)[..Holding(k, |ls|)]))
  {
    hide Peaks, PeakValues, MmriverCombine, PeakPaths, Dedup, InForest, ProvenRoots, Shared, AllIn;
    var f, c, q := MmriverCombine(m), Shared(k, |ls|), Holding(k, |ls|);
    RootsAreCovers(m, ls, k);
    PeaksNotEmpty(k);
    var roots := ProvenRoots(m, k, PeakValues(f, ls[..k]), PeakPaths(f, ls, k));
    var acc := PeakValues(f, ls);
    DedupCovers(roots, acc, c);
  }

  /** Roots that run through the first entries and then stay with one more. */
  lemma DedupCovers<T>(roots: seq<T>, acc: seq<T>, c: nat)
    requires roots != [] && c <= |roots| && (c < |roots| ==> c < |acc|) && c <= |acc|
    requires forall i :: 0 <= i < |roots| ==> roots[i] == acc[if i < c then i else c]
    ensures var q := if c < |roots| then c + 1 else c; Dedup(roots) == Dedup(acc[..q])
  {
    hide Dedup;
    var q := if c < |roots| then c + 1 else c;
    assert roots[..q] == acc[..q];
    forall i | 0 <= i < |roots[q..]|
      ensures roots[q..][i] == acc[..q][q - 1]
    {
      assert roots[q..][i] == roots[q + i];
    }
    DedupRepeats(acc[..q], roots[q..]);
    assert roots == acc[..q] + roots[q..];
  }

  /**
   A generated consistency proof proves the peaks shared with the smaller forest and at most one more,
   which absorbs the rest of it; it is accepted exactly when no two of these neighbours are equal
   before the last.
   */
  lemma ConsistencyCompleteness<T>(m: Hasher<T>, ls: seq<T>, k: nat)
    requires 0 < k <= |ls|
    ensures AllIn(|ls|, Peaks(k))
    ensures var f := MmriverCombine(m);
            var q := Holding(k, |ls|);
            && 0 < q <= |PeakValues(f, ls)|
            && (Consistent(m, k, PeakValues(f, ls[..k]), PeakValues(f, ls), PeakPaths(f, ls, k))
                == Ok(Settled(PeakValues(f, ls)[..q])))
            && (NoRepeats(PeakValues(f, ls)[..q]) ==>
                  RootsFrom(m, k, PeakValues(f, ls[..k]), PeakPaths(f, ls, k)) == Ok(PeakValues(f, ls)[..q])
                  && Settled(PeakValues(f, ls)[..q]))
  {
    hide Peaks, PeakValues, MmriverCombine, PeakPaths, RootsFrom, Dedup, Holding, Scanned, InForest;
    var f, q := MmriverCombine(m), Holding(k, |ls|);
    RootsDedup(m, ls, k);
    var acc := PeakValues(f, ls);
    var roots := Dedup(acc[..q]);
    DedupNoRepeats(acc[..q]);
    DedupIsPrefix(acc[..q]);
    ScanIsRun(roots, acc, 0);
    assert acc[0..] == acc && acc[..q] <= acc && roots[0] == acc[..q][0];
    assert roots <= acc ==> roots == acc[..q][..|roots|];
  }

  /** With every two neighbouring peaks different, as under a hash without collisions, it is accepted. */
  lemma ConsistencyAccepted<T>(m: Hasher<T>, ls: seq<T>, k: nat)
    requires 0 < k <= |ls| && NoRepeats(PeakValues(MmriverCombine(m), ls))
    ensures AllIn(|ls|, Peaks(k))
    ensures var f := MmriverCombine(m);
            Consistent(m, k, PeakValues(f, ls[..k]), PeakValues(f, ls), PeakPaths(f, ls, k)) == Ok(true)
  {
    hide Peaks, PeakValues, MmriverCombine, PeakPaths, Consistent, RootsFrom, Holding, InForest;
    ConsistencyCompleteness(m, ls, k);
    var acc, q := PeakValues(MmriverCombine(m), ls), Holding(k, |ls|);
    assert forall i :: 0 <= i < q ==> acc[..q][i] == acc[i];
  }

  /** A merge that keeps the left child only. */
  function LeftHasher(): Hasher<nat> {
    DefaultHasher((p: nat, l: nat, r: nat) => l)
  }

  /** Peaks that are not settled do arise, and then a run's proof of itself is rejected. */
  lemma UnsettledRejected(ls: seq<nat>)
    requires |ls| == 7 && ls[0] == ls[4] != ls[6]
    ensures PeakValues(MmriverCombine(LeftHasher()), ls) == [ls[0], ls[4], ls[6]]
    ensures AllIn(7, Peaks(7))
    ensures Consistent(LeftHasher(), 7, PeakValues(MmriverCombine(LeftHasher()), ls[..7]),
                       PeakValues(MmriverCombine(LeftHasher()), ls), PeakPaths(MmriverCombine(LeftHasher()), ls, 7)) == Ok(false)
  {
    hide PeakValues, Consistent, PeakPaths, Peaks, Node, Pos, InForest, Shared;
    var f, acc := MmriverCombine(LeftHasher()), PeakValues(MmriverCombine(LeftHasher()), ls);
    SevenPeaks();
    assert PeakValues(f, ls) == [ls[0], ls[4], ls[6]] by { LeftPeaks(ls); }
    ConsistencyCompleteness(LeftHasher(), ls, 7);
    SharedAll(7);
    assert acc[..3][2 - 2] == acc[..3][2 - 1] && acc[..3][2 - 1] != acc[..3][2];
  }

  lemma SevenPeaks()
    ensures Peaks(7) == [Coord(2, 0), Coord(1, 2), Coord(0, 6)]
  {
    assert BitLength(7) == 3;
    assert Shr(7, 2) == 1 && Shr(7, 1) == 3 && Shr(7, 0) == 7;
    assert PeaksBelow(7, 0) == [];
    assert PeaksBelow(7, 1) == [Coord(0, 6)] + [];
    assert PeaksBelow(7, 2) == [Coord(1, 2)] + PeaksBelow(7, 1);
    assert PeaksBelow(7, 3) == [Coord(2, 0)] + PeaksBelow(7, 2);
  }

  lemma SharedAll(n: nat)
    ensures Shared(n, n) == |Peaks(n)|
  {
    hide PeaksBelow, Unchanged;
    UnchangedAll(n, BitLength(n));
  }

  /** Every node is worth its first leaf. */
  lemma {:induction false} LeftNode(ls: seq<nat>, h: nat, j: nat)
    requires InForest(|ls|, Coord(h, j))
    ensures Shl(j, h) < |ls| && Node(MmriverCombine(LeftHasher()), ls, h, j) == ls[Shl(j, h)]
    decreases h
  {
    hide Pos, Shr, Shl;
    LevelZero(|ls|, j);
    ShlStep(j, h);
    if h > 0 {
      ChildrenInForest(|ls|, h - 1, j);
      LeftNode(ls, h - 1, 2 * j);
      ShlHalves(j, h - 1);
    }
  }

  lemma LeftPeaks(ls: seq<nat>)
    requires |ls| == 7
    ensures PeakValues(MmriverCombine(LeftHasher()), ls) == [ls[0], ls[4], ls[6]]
  {
    hide Pos, Shr, Shl, Node, Peaks, InForest;
    SevenPeaks();
    PeaksAllIn(7);
    var peaks := Peaks(7);
    assert InForest(7, peaks[0]) && InForest(7, peaks[1]) && InForest(7, peaks[2]);
    LeftNode(ls, 2, 0);
    LeftNode(ls, 1, 2);
    LeftNode(ls, 0, 6);
    SmallShifts();
  }

  lemma SmallShifts()
    ensures Shl(0, 2) == 0 && Shl(2, 1) == 4 && Shl(6, 0) == 6
  {
  }
}
