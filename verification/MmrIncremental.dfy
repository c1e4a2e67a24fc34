/** `verify_incremental` (`src/mmr.rs`): an old root and new leaves against a new root. */
module MmrIncremental {
  import opened Bits
  import opened Forest
  import opened Nodes
  import opened Bagging
  import opened ProofPlan
  import opened QueueWalk
  import opened ProofSpec
  import opened Completeness
  import opened Incremental
  import opened Parting
  import opened Wrappers

  /** The appended leaves at the positions following a forest of k leaves. */
  ghost function NewLeaves<T>(k: nat, incremental: seq<T>): seq<Leaf<T>>
    requires Size(k + |incremental|) <= SIZE_LIMIT
  {
    seq(|incremental|, i requires 0 <= i < |incremental| =>
      NewPosition(k, |incremental|, i);
      Leaf(Size(k + i), incremental[i]))
  }

  lemma NewPosition(k: nat, m: nat, i: nat)
    requires i < m && Size(k + m) <= SIZE_LIMIT
    ensures Size(k + i) < SIZE_LIMIT && k + i < SIZE_LIMIT
  {
    hide Size;
    SizeMono(k + i, k + m);
  }

  /** The first old peak that lies left of the new peak of the same rank; else the last one. */
  function ReverseIndex(prev: seq<nat>, current: seq<nat>, i: nat): nat
    requires i <= |prev|
    decreases |prev| - i
  {
    if i == |prev| then if |prev| == 0 then 0 else |prev| - 1
    else if i < |current| && prev[i] < current[i] then i
    else ReverseIndex(prev, current, i + 1)
  }

  /** Reading the suffix from i on backwards. */
  function ReverseFrom<A>(s: seq<A>, i: nat): seq<A>
    requires i <= |s|
  {
    s[..i] + Reverse(s[i..])
  }

  /** The old peaks, from the items of the proof of the new leaves. */
  ghost function PrevPeaks<T>(k: nat, n: nat, proof: seq<T>): (peaks: seq<T>)
    requires k > 0 && |Peaks(k)| == |proof|
    ensures peaks != []
  {
    ReverseInRange(k, Positions(Peaks(k)), Positions(Peaks(n)), 0);
    ReverseFrom(proof, ReverseIndex(Positions(Peaks(k)), Positions(Peaks(n)), 0))
  }

  /** `verify_incremental` on arbitrary input. */
  ghost function VerifiedIncremental<T>(m: Hasher<T>, root: T, prevRoot: T, incremental: seq<T>, mmrSize: nat, proof: seq<T>)
    : Result<bool>
    requires mmrSize <= SIZE_LIMIT
  {
    var n := MaxLeaves(mmrSize);
    if n <= |incremental| then Err(CorruptedProof)
    else
      var k := n - |incremental|;
      if |Peaks(k)| != |proof| then Err(CorruptedProof)
      else
        if Bag(m, PrevPeaks(k, n, proof)) != prevRoot then Ok(false)
        else
          var ok := Verified(m, root, NewLeaves(k, incremental), mmrSize, proof);
          if ok.Err? then Err(MergeError(ok.error)) else ok
  }

  lemma {:induction false} ReverseInRange(k: nat, prev: seq<nat>, current: seq<nat>, i: nat)
    requires k > 0 && |prev| == |Peaks(k)| && i <= |prev|
    ensures ReverseIndex(prev, current, i) < |prev| && prev != []
    decreases |prev| - i
  {
    hide Peaks;
    PeaksNotEmpty(k);
    if i < |prev| {
      ReverseInRange(k, prev, current, i + 1);
    }
  }

  lemma PeakOrder(x: nat, a: Coord, c: Coord)
    requires Shr(x, c.h) == c.j && a in PeaksBelow(x, c.h)
    ensures Pos(a.h, a.j) < Pos(c.h, c.j)
  {
    hide Pos, Size, Shr, Shl, PeaksBelow;
    PeaksBelowMember(x, c.h, a);
    InForestPos(x, a.h, a.j);
    InForestPos(x, c.h, c.j);
  }

  /** Old and new peaks agree up to where the forests part, and there the new peak is further right. */
  lemma PeaksPart(k: nat, n: nat)
    requires k < n
    ensures var top := BitLength(n);
            var d, u := Merging(k, n, top), Unchanged(k, n, top);
            && Shr(k, top) == Shr(n, top)
            && d < top && Shr(n, d) % 2 == 1 && Shr(k, d) == Shr(n, d) - 1
            && Peaks(k) == u + PeaksBelow(k, d)
            && Peaks(n) == u + ([Coord(d, Shr(n, d) - 1)] + PeaksBelow(n, d))
  {
    hide Shr, PeaksBelow, Peaks, Merging, Unchanged, Pow2, BitLength;
    var top := BitLength(n);
    BitLengthBounds(n);
    ShrZero(k, top);
    ShrZero(n, top);
    BitLengthBelow(k, top);
    PeaksFrom(k, top);
    PeaksFrom(n, top);
    Part(k, n, top);
  }

  lemma ReverseIndexIs(k: nat, n: nat)
    requires 0 < k < n
    ensures var prev, current := Positions(Peaks(k)), Positions(Peaks(n));
            var u := |Unchanged(k, n, BitLength(n))|;
            && u <= |prev| && u < |current|
            && ReverseIndex(prev, current, 0) == if u < |prev| then u else |prev| - 1
    ensures forall i :: 0 <= i < |Unchanged(k, n, BitLength(n))| ==> Positions(Peaks(k))[i] == Positions(Peaks(n))[i]
    ensures var u := |Unchanged(k, n, BitLength(n))|;
            u < |Peaks(k)| ==> Positions(Peaks(k))[u] < Positions(Peaks(n))[u]
  {
    hide Shr, PeaksBelow, Pos, Unchanged, Merging, Peaks, ReverseIndex;
    var top := BitLength(n);
    var d, us := Merging(k, n, top), Unchanged(k, n, top);
    PeaksPart(k, n);
    PeaksNotEmpty(k);
    var prev, current, u := Positions(Peaks(k)), Positions(Peaks(n)), |us|;
    SharedPositions(us, Peaks(k), PeaksBelow(k, d), Peaks(n), [Coord(d, Shr(n, d) - 1)] + PeaksBelow(n, d));
    assert Peaks(n)[u] == Coord(d, Shr(n, d) - 1);
    if u < |prev| {
      FirstAbsorbed(k, n, d, u);
    }
    FirstIndex(prev, current, u, 0);
  }

  lemma SharedPositions(u: seq<Coord>, a: seq<Coord>, a': seq<Coord>, b: seq<Coord>, b': seq<Coord>)
    requires a == u + a' && b == u + b'
    ensures |u| <= |Positions(a)| && |u| <= |Positions(b)|
    ensures forall i :: 0 <= i < |u| ==> Positions(a)[i] == Positions(b)[i]
  {
    hide Pos;
    forall i | 0 <= i < |u|
      ensures a[i] == b[i]
    {
      assert a[i] == u[i] && b[i] == u[i];
    }
  }

  lemma FirstAbsorbed(k: nat, n: nat, d: nat, u: nat)
    requires u < |Peaks(k)| && Shr(n, d) > 0 && Shr(k, d) == Shr(n, d) - 1
    requires Peaks(k)[u..] == PeaksBelow(k, d)
    ensures Pos(Peaks(k)[u].h, Peaks(k)[u].j) < Pos(d, Shr(n, d) - 1)
  {
    hide Shr, PeaksBelow, Pos, Peaks;
    var c := Peaks(k)[u];
    assert c == PeaksBelow(k, d)[0];
    PeaksBelowMember(k, d, c);
    PeakOrder(k, c, Coord(d, Shr(n, d) - 1));
  }

  lemma {:induction false} FirstIndex(prev: seq<nat>, current: seq<nat>, u: nat, i: nat)
    requires i <= u <= |prev| && u < |current|
    requires forall j :: 0 <= j < u ==> prev[j] == current[j]
    requires u < |prev| ==> prev[u] < current[u]
    ensures ReverseIndex(prev, current, i) == if u < |prev| then u else if |prev| == 0 then 0 else |prev| - 1
    decreases u - i
  {
    if i < u { FirstIndex(prev, current, u, i + 1); }
  }

  // ----- completeness -----

  lemma {:induction false} ReverseIn(n: nat, cs: seq<Coord>)
    requires AllIn(n, cs)
    ensures AllIn(n, Reverse(cs))
  {
    hide InForest;
    if cs != [] {
      assert AllIn(n, cs[1..]);
      ReverseIn(n, cs[1..]);
    }
  }

  lemma {:induction false} ReverseValues<T>(f: Combine<T>, ls: seq<T>, cs: seq<Coord>)
    requires AllIn(|ls|, cs)
    ensures AllIn(|ls|, Reverse(cs)) && Values(f, ls, Reverse(cs)) == Reverse(Values(f, ls, cs))
  {
    hide InForest, Node;
    ReverseIn(|ls|, cs);
    if cs != [] {
      var c, rest := cs[0], cs[1..];
      assert cs == [c] + rest && AllIn(|ls|, rest);
      ReverseValues(f, ls, rest);
      ReverseIn(|ls|, rest);
      ValuesAppend(f, ls, Reverse(rest), [c]);
      ValuesOne(f, ls, c);
      assert Values(f, ls, cs)[1..] == Values(f, ls, rest);
    }
  }

  /** Positions of the leaves from index k on. */
  ghost function NewPositions(k: nat, n: nat): seq<nat>
    requires k <= n
  {
    seq<nat>(n - k, i requires 0 <= i < n - k => Size(k + i))
  }

  lemma LeafPlace(n: nat, i: nat)
    requires i < n
    ensures LeafPosition(n, Size(i)) && Block(Size(i)) == i
  {
    hide Size, Height, Block;
    LeafPos(i);
    SizeMono(i + 1, n);
    SizeMono(i, i + 1);
  }

  lemma NewAscending(k: nat, n: nat)
    requires k <= n
    ensures StrictlyAscending(NewPositions(k, n)) && Distinct<nat>(PosKey, NewPositions(k, n)) == NewPositions(k, n)
  {
    hide Size, Distinct;
    var ps := NewPositions(k, n);
    forall i, j | 0 <= i < j < |ps|
      ensures ps[i] < ps[j]
    {
      SizeMono(k + i, k + j);
    }
    DistinctAscending(ps);
    AscendingUnique(Distinct<nat>(PosKey, ps), ps);
  }

  lemma NewIndices(k: nat, n: nat)
    requires k < n
    ensures forall p :: p in NewPositions(k, n) ==> LeafPosition(n, p)
    ensures LeafIndices(NewPositions(k, n)) == Range(k, n)
  {
    hide Size, Block, Distinct, LeafPosition;
    var ps := NewPositions(k, n);
    NewAscending(k, n);
    RangeAt(k, n);
    forall i | 0 <= i < |ps|
      ensures LeafPosition(n, ps[i]) && Block(ps[i]) == Range(k, n)[i]
    {
      LeafPlace(n, k + i);
    }
  }

  /** A proof of the leaves from k on: the old forest's unchanged peaks, then its absorbed ones bottom-up. */
  lemma IncrementalItems<T>(m: Hasher<T>, ls: seq<T>, k: nat)
    requires 0 < k < |ls|
    ensures forall p :: p in NewPositions(k, |ls|) ==> LeafPosition(|ls|, p)
    ensures var u := |Unchanged(k, |ls|, BitLength(|ls|))|;
            var peaks := PeakValues(MmrCombine(m), ls[..k]);
            && u <= |peaks|
            && ProofItems(m, ls, NewPositions(k, |ls|)) == ReverseFrom(peaks, u)
  {
    hide InForest, Node, MmrCombine, PeaksBelow, Merging, Unchanged, NewPositions, LeafIndices, Plan, Shr, Peaks, Singles,
         ItemValues, LeafPosition;
    var f, n, top := MmrCombine(m), |ls|, BitLength(|ls|);
    var u, absorbed := Unchanged(k, n, top), PeaksBelow(k, Merging(k, n, top));
    NewIndices(k, n);
    PeaksPart(k, n);
    IncrementalPlan(k, n, top);
    PeaksAllIn(k);
    var early := ls[..k];
    assert ls == early + ls[k..];
    ValuesPrefix(f, early, ls[k..], Peaks(k));
    ValuesAppend(f, ls, u, absorbed);
    ReverseValues(f, ls, absorbed);
    InAppend(n, u, Reverse(absorbed));
    ValuesAppend(f, ls, u, Reverse(absorbed));
    SinglesValues(m, ls, u + Reverse(absorbed));
    var peaks := PeakValues(f, early);
    assert peaks == Values(f, ls, u) + Values(f, ls, absorbed);
    assert peaks[..|u|] == Values(f, ls, u) && peaks[|u|..] == Values(f, ls, absorbed);
  }

  lemma InAppend(n: nat, a: seq<Coord>, b: seq<Coord>)
    requires AllIn(n, a) && AllIn(n, b)
    ensures AllIn(n, a + b)
  {
    hide InForest;
  }

  lemma ReverseFromTwice<A>(s: seq<A>, u: nat, i: nat)
    requires u <= |s| && i == (if u < |s| then u else |s| - 1) && s != []
    ensures ReverseFrom(ReverseFrom(s, u), i) == s
  {
    if u < |s| {
      var r := ReverseFrom(s, u);
      assert r[..u] == s[..u] && r[u..] == Reverse(s[u..]);
      ReverseTwice(s[u..]);
    } else {
      assert s[u..] == [] && s[..u] == s;
      assert ReverseFrom(s, u) == s;
      assert s[i..] == [s[i]];
      ReverseSingle(s[i..]);
    }
  }

  /** Reading the items back gives the old peaks. */
  lemma PrevPeaksOfItems<T>(m: Hasher<T>, ls: seq<T>, k: nat)
    requires 0 < k < |ls|
    ensures forall p :: p in NewPositions(k, |ls|) ==> LeafPosition(|ls|, p)
    ensures var items := ProofItems(m, ls, NewPositions(k, |ls|));
            |Peaks(k)| == |items| && PrevPeaks(k, |ls|, items) == PeakValues(MmrCombine(m), ls[..k])
  {
    hide Size, Bag, PeakValues, MmrCombine, Unchanged, ReverseIndex, Peaks, ProofItems, ReverseFrom, NewPositions, Positions,
         LeafPosition, BitLength;
    var n := |ls|;
    IncrementalItems(m, ls, k);
    var peaks, u := PeakValues(MmrCombine(m), ls[..k]), |Unchanged(k, n, BitLength(n))|;
    PeakCount(MmrCombine(m), ls[..k], peaks, u);
    ReverseIndexIs(k, n);
    ReverseFromTwice(peaks, u, ReverseIndex(Positions(Peaks(k)), Positions(Peaks(n)), 0));
  }

  /** Pushing new leaves and proving them all convinces a holder of the old root of the new one. */
  lemma IncrementalCompleteness<T>(m: Hasher<T>, ls: seq<T>, k: nat)
    requires 0 < k < |ls| && Size(|ls|) <= SIZE_LIMIT
    ensures forall p :: p in NewPositions(k, |ls|) ==> LeafPosition(|ls|, p)
    ensures VerifiedIncremental(m, Root(m, MmrCombine(m), ls), Root(m, MmrCombine(m), ls[..k]), ls[k..], Size(|ls|),
                                ProofItems(m, ls, NewPositions(k, |ls|)))
            == Ok(true)
  {
    hide Size, Bag, PeakValues, MmrCombine, Peaks, PrevPeaks, ProofItems, Verified, NewPositions, LeavesFor, LeafPosition,
         NewLeaves, MaxLeaves;
    MaxLeavesOfSize(|ls|);
    PrevPeaksOfItems(m, ls, k);
    NewLeavesFor(ls, k);
    MultiLeafCompleteness(m, ls, NewPositions(k, |ls|), NewLeaves(k, ls[k..]));
  }

  lemma PeakCount<T>(f: Combine<T>, ls: seq<T>, peaks: seq<T>, u: nat)
    requires peaks == PeakValues(f, ls) && ls != [] && u <= |peaks|
    ensures |peaks| == |Peaks(|ls|)| == |Positions(Peaks(|ls|))| && peaks != []
    ensures |ReverseFrom(peaks, u)| == |peaks|
  {
    hide Peaks, Pos, Node, Shr;
  }

  lemma NewLeavesFor<T>(ls: seq<T>, k: nat)
    requires k < |ls| && Size(|ls|) <= SIZE_LIMIT
    ensures k + |ls[k..]| == |ls| && LeavesFor(ls, NewPositions(k, |ls|), NewLeaves(k, ls[k..]))
    ensures NewPositions(k, |ls|) != []
  {
    hide Size, Height, Block;
    var ps, leaves := NewPositions(k, |ls|), NewLeaves(k, ls[k..]);
    NewIndices(k, |ls|);
    forall i | 0 <= i < |leaves|
      ensures LeafPosition(|ls|, leaves[i].pos) && Block(leaves[i].pos) == k + i && leaves[i].item == ls[k + i]
    {
      assert ps[i] in ps;
      LeafPos(k + i);
    }
    assert LeafPositions(leaves) == ps;
  }
}
