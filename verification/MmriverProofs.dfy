/** The proof objects of `src/mmriver.rs` and their verifying methods, on arbitrary input. */
module MmriverProofs {
  import opened Bits
  import opened Forest
  import opened Helper
  import opened PeakIterators
  import opened Nodes
  import opened MmriverPaths
  import opened Wrappers

  lemma MmriverMerges<T>(m: Hasher<T>, p: nat, l: T, r: T)
    ensures MmriverCombine(m)(p, l, r) == m.mergePos(p + 1, l, r)
  {
  }

  /** Where the climb is after g - h levels, bounded so that no step overflows. */
  ghost predicate AtLevel(i: nat, current: int, g: nat, j: nat) {
    current == Pos(g, j) && current <= i + Pow2(g + 1) - 2
  }

  lemma LevelStart(i: nat)
    ensures AtLevel(i, i, Height(i), Block(i))
  {
    PosOfCoord(i);
  }

  lemma LevelStep<T>(m: Hasher<T>, i: u64, current: int, g: nat, j: nat, hash: T, sibling: T)
    requires i < SIZE_LIMIT && g < 62 && AtLevel(i, current, g, j)
    ensures 0 <= current < 2 * SIZE_LIMIT - 2 && Shl(2, g) <= SIZE_LIMIT
    ensures Height(current + 1) > g ==>
              && AtLevel(i, current + 1, g + 1, j / 2)
              && Merged(MmriverCombine(m), g, j, hash, sibling) == m.mergePos(current + 2, sibling, hash)
    ensures Height(current + 1) <= g ==>
              && AtLevel(i, current + Shl(2, g), g + 1, j / 2)
              && Merged(MmriverCombine(m), g, j, hash, sibling) == m.mergePos(current + Shl(2, g) + 1, hash, sibling)
  {
    hide Pos, Pow2, Shl, Height, MmriverCombine;
    Pow2Limit(g + 1);
    Pow2Succ(g + 1);
    ShlTwo(g);
    FamilyOf(g, j);
    NextHeight(g, j);
    MmriverMerges(m, Pos(g + 1, j / 2), sibling, hash);
    MmriverMerges(m, Pos(g + 1, j / 2), hash, sibling);
  }

  /** From a node's hash and the siblings above it to the root of its mountain. */
  method IncludedRoot<T>(m: Hasher<T>, i: u64, nodehash: T, proof: seq<T>) returns (root: T)
    requires i < SIZE_LIMIT && Height(i) + |proof| <= 62
    ensures root == Climbed(MmriverCombine(m), Height(i), Block(i), nodehash, proof)
  {
    hide AtLevel, Height, Block, Shl, MmriverCombine, Merged;
    ghost var f, h, j := MmriverCombine(m), Height(i), Block(i);
    root := nodehash;
    var currentI := i;
    var g := IndexHeightMmriver(i);
    LevelStart(i);
    assert proof[0..] == proof;
    for k := 0 to |proof|
      invariant g == h + k && AtLevel(i, currentI, g, j)
      invariant Climbed(f, h, Block(i), nodehash, proof) == Climbed(f, g, j, root, proof[k..])
    {
      var sibling := proof[k];
      assert proof[k..][1..] == proof[k + 1..];
      LevelStep(m, i, currentI, g, j, root, sibling);
      var nextHeight := IndexHeightMmriver(currentI + 1);
      if nextHeight > g {
        currentI := currentI + 1;
        root := m.mergePos(currentI + 1, sibling, root);
      } else {
        currentI := currentI + Shl(2, g);
        root := m.mergePos(currentI + 1, root, sibling);
      }
      j := j / 2;
      g := g + 1;
    }
  }

  // ----- inclusion -----

  /** The root the proof leads to is an entry of the accumulator. */
  ghost predicate Included<T>(m: Hasher<T>, index: nat, nodehash: T, proof: seq<T>, accumulator: seq<T>) {
    Climbed(MmriverCombine(m), Height(index), Block(index), nodehash, proof) in accumulator
  }

  datatype InclusionProof<T(==)> = InclusionProof(index: u64, proof: seq<T>) {

    method Verify(m: Hasher<T>, nodehash: T, accumulator: seq<T>) returns (ok: Result<bool>)
      requires index < SIZE_LIMIT && Height(index) + |proof| <= 62
      ensures ok == Ok(Included(m, index, nodehash, proof, accumulator))
    {
      hide Climbed, Height, Block, MmriverCombine;
      var root := IncludedRoot(m, index, nodehash, proof);
      if PopCount(index + 1) == 0 {
        return Ok(false);
      }
      for i := 0 to |accumulator|
        invariant root !in accumulator[..i]
      {
        if accumulator[i] == root {
          return Ok(true);
        }
      }
      return Ok(false);
    }
  }

  // ----- consistency -----

  /** A root for each old peak, in order. */
  ghost function ProvenRoots<T>(m: Hasher<T>, n: nat, accumulator: seq<T>, paths: seq<seq<T>>): (roots: seq<T>)
    requires |accumulator| == |paths| == |Peaks(n)|
  {
    seq(|Peaks(n)|, i requires 0 <= i < |Peaks(n)| =>
      Climbed(MmriverCombine(m), Peaks(n)[i].h, Peaks(n)[i].j, accumulator[i], paths[i]))
  }

  /** Dropping each entry that repeats the one before it. */
  function Dedup<T(==)>(s: seq<T>): (r: seq<T>)
    ensures |r| <= |s|
    ensures s != [] ==> r != [] && r[|r| - 1] == s[|s| - 1] && r[0] == s[0]
  {
    if s == [] then []
    else
      var r, x := Dedup(s[..|s| - 1]), s[|s| - 1];
      if r != [] && r[|r| - 1] == x then r else r + [x]
  }

  /** `consistent_roots` against the accumulator of n leaves. */
  ghost function RootsFrom<T>(m: Hasher<T>, n: nat, accumulator: seq<T>, paths: seq<seq<T>>): Result<seq<T>> {
    if |Peaks(n)| != |accumulator| || |Peaks(n)| != |paths| then Err(CorruptedProof)
    else Ok(Dedup(ProvenRoots(m, n, accumulator, paths)))
  }

  /** The scan of `verify`: every root is the current entry or the one after it. */
  function Scanned<T(==)>(roots: seq<T>, accumulator: seq<T>, idx: nat): bool
    decreases |roots|
  {
    if roots == [] then true
    else if idx >= |accumulator| then false
    else if accumulator[idx] == roots[0] then Scanned(roots[1..], accumulator, idx)
    else if idx + 1 >= |accumulator| || accumulator[idx + 1] != roots[0] then false
    else Scanned(roots[1..], accumulator, idx + 1)
  }

  /** `ConsistencyProof::verify` */
  ghost function Consistent<T>(m: Hasher<T>, n: nat, oldAccumulator: seq<T>, newAccumulator: seq<T>,
                               paths: seq<seq<T>>): Result<bool>
  {
    match RootsFrom(m, n, oldAccumulator, paths)
    case Err(e) => Err(e)
    case Ok(roots) => Ok(Scanned(roots, newAccumulator, 0))
  }

  /** No path is so long that climbing it overflows. */
  ghost predicate PathsFit<T>(positions: seq<nat>, paths: seq<seq<T>>) {
    forall i :: 0 <= i < |paths| && i < |positions| ==> Height(positions[i]) + |paths[i]| <= 62
  }

  lemma DedupNext<T>(s: seq<T>, k: nat)
    requires k < |s|
    ensures var r := Dedup(s[..k]);
            Dedup(s[..k + 1]) == if r != [] && r[|r| - 1] == s[k] then r else r + [s[k]]
  {
    assert s[..k + 1][..k] == s[..k];
  }

  lemma PeakAt(n: nat, peaks: seq<nat>, i: nat)
    requires peaks == Positions(Peaks(n)) && i < |peaks|
    ensures |peaks| == |Peaks(n)| && peaks[i] < Size(n)
    ensures Height(peaks[i]) == Peaks(n)[i].h && Block(peaks[i]) == Peaks(n)[i].j
  {
    hide Pos, Size, Height, Block, Peaks;
    var c := Peaks(n)[i];
    PeaksInForest(n, c);
    InForestPos(n, c.h, c.j);
    CoordOfPos(c.h, c.j);
  }

  /** The same at any positions, as the iterator yields them when the size is not complete. */
  ghost function RootsAt<T>(m: Hasher<T>, positions: seq<nat>, accumulator: seq<T>, paths: seq<seq<T>>): (roots: seq<T>)
    requires |accumulator| == |paths| == |positions|
  {
    seq(|positions|, i requires 0 <= i < |positions| =>
      Climbed(MmriverCombine(m), Height(positions[i]), Block(positions[i]), accumulator[i], paths[i]))
  }

  /** `consistent_roots` on arbitrary input. */
  ghost function RootsOf<T>(m: Hasher<T>, size: nat, accumulator: seq<T>, paths: seq<seq<T>>): Result<seq<T>> {
    var fromPeaks := Strides(0, size);
    if |fromPeaks| != |accumulator| || |fromPeaks| != |paths| then Err(CorruptedProof)
    else Ok(Dedup(RootsAt(m, fromPeaks, accumulator, paths)))
  }

  /** `ConsistencyProof::verify` on arbitrary input. */
  ghost function ConsistentAt<T>(m: Hasher<T>, size: nat, oldAccumulator: seq<T>, newAccumulator: seq<T>,
                                 paths: seq<seq<T>>): Result<bool>
  {
    match RootsOf(m, size, oldAccumulator, paths)
    case Err(e) => Err(e)
    case Ok(roots) => Ok(Scanned(roots, newAccumulator, 0))
  }

  /** On complete sizes these are the roots of the peaks. */
  lemma CompleteSizes<T>(m: Hasher<T>, n: nat, oldAccumulator: seq<T>, newAccumulator: seq<T>, paths: seq<seq<T>>)
    ensures RootsOf(m, Size(n), oldAccumulator, paths) == RootsFrom(m, n, oldAccumulator, paths)
    ensures ConsistentAt(m, Size(n), oldAccumulator, newAccumulator, paths)
            == Consistent(m, n, oldAccumulator, newAccumulator, paths)
  {
    hide Size, Peaks, Positions, Strides, Climbed, MmriverCombine, Height, Block, Dedup, Scanned;
    StridesArePeaks(n);
    var fromPeaks := Strides(0, Size(n));
    PeakCount(n, fromPeaks);
    if |fromPeaks| == |oldAccumulator| == |paths| {
      forall i | 0 <= i < |fromPeaks|
        ensures RootsAt(m, fromPeaks, oldAccumulator, paths)[i] == ProvenRoots(m, n, oldAccumulator, paths)[i]
      {
        PeakAt(n, fromPeaks, i);
      }
      assert RootsAt(m, fromPeaks, oldAccumulator, paths) == ProvenRoots(m, n, oldAccumulator, paths);
    }
  }

  lemma PeakCount(n: nat, peaks: seq<nat>)
    requires peaks == Positions(Peaks(n))
    ensures |peaks| == |Peaks(n)|
  {
  }

  datatype ConsistencyProof<T(==)> = ConsistencyProof(mmrSizeFrom: u64, mmrSizeTo: u64, proofPaths: seq<seq<T>>) {

    method ConsistentRoots(m: Hasher<T>, oldAccumulator: seq<T>) returns (result: Result<seq<T>>)
      requires 0 < mmrSizeFrom <= SIZE_LIMIT && PathsFit(Strides(0, mmrSizeFrom), proofPaths)
      ensures result == RootsOf(m, mmrSizeFrom, oldAccumulator, proofPaths)
    {
      hide Climbed, MmriverCombine, Height, Block, Strides;
      var fromPeaks := CollectMmriverPeaks(mmrSizeFrom - 1);
      StridesBelow(0, mmrSizeFrom);
      if |fromPeaks| != |oldAccumulator| || |fromPeaks| != |proofPaths| {
        return Err(CorruptedProof);
      }
      ghost var all := RootsAt(m, fromPeaks, oldAccumulator, proofPaths);
      var roots: seq<T> := [];
      for i := 0 to |fromPeaks|
        invariant roots == Dedup(all[..i])
      {
        var root := IncludedRoot(m, fromPeaks[i], oldAccumulator[i], proofPaths[i]);
        assert root == all[i];
        DedupNext(all, i);
        if |roots| > 0 && roots[|roots| - 1] == root {
          continue;
        }
        roots := roots + [root];
      }
      assert all[..|all|] == all;
      result := Ok(roots);
    }

    /** The size it leads to plays no part. */
    method Verify(m: Hasher<T>, oldAccumulator: seq<T>, newAccumulator: seq<T>) returns (ok: Result<bool>)
      requires 0 < mmrSizeFrom <= SIZE_LIMIT && PathsFit(Strides(0, mmrSizeFrom), proofPaths)
      ensures ok == ConsistentAt(m, mmrSizeFrom, oldAccumulator, newAccumulator, proofPaths)
    {
      hide RootsOf, PathsFit, Strides;
      var proven := ConsistentRoots(m, oldAccumulator);
      if proven.Err? {
        return Err(proven.error);
      }
      var roots := proven.value;
      var idx := 0;
      assert roots[0..] == roots;
      for i := 0 to |roots|
        invariant 0 <= idx
        invariant Scanned(roots, newAccumulator, 0) == Scanned(roots[i..], newAccumulator, idx)
      {
        assert roots[i..][1..] == roots[i + 1..];
        if idx >= |newAccumulator| {
          return Ok(false);
        }
        if newAccumulator[idx] == roots[i] {
          continue;
        }
        idx := idx + 1;
        if idx >= |newAccumulator| || newAccumulator[idx] != roots[i] {
          return Ok(false);
        }
      }
      return Ok(true);
    }
  }
}
