/** The structure of `src/mmriver.rs`: appending leaves, the accumulator, and generating proofs. */
module Mmriver {
  import opened Bits
  import opened Forest
  import opened Helper
  import opened PeakIterators
  import opened InclusionPath
  import opened Nodes
  import opened Store
  import opened Bagging
  import opened Reading
  import opened MmriverPaths
  import opened MmriverProofs
  import opened Wrappers

  class MMRIVER<D, T(==)> {
    var mmrSize: u64
    const batch: MMRBatch<T>
    const leafHash: D -> T
    const hasher: Hasher<T>
    ghost var leaves: seq<T>  // the leaf hashes pushed so far

    ghost predicate Valid()
      reads this, batch, batch.store
    {
      && mmrSize == Size(|leaves|)
      && mmrSize <= SIZE_LIMIT
      && Ascending(batch.memoryBatch, mmrSize)
      && Holds(batch.Contents(), MmriverCombine(hasher), leaves)
    }

    /** `MMRIVER::new`, on a store that already holds the nodes of some leaves, possibly none. */
    constructor (mmrSize: u64, store: MemStore<T>, leafHash: D -> T, hasher: Hasher<T>, ghost stored: seq<T>)
      requires mmrSize == Size(|stored|) <= SIZE_LIMIT
      requires Holds(store.elems, MmriverCombine(hasher), stored)
      ensures Valid() && leaves == stored && fresh(batch) && batch.memoryBatch == []
      ensures this.hasher == hasher && this.leafHash == leafHash && batch.store == store
    {
      this.mmrSize := mmrSize;
      batch := new MMRBatch<T>(store);
      this.leafHash := leafHash;
      this.hasher := hasher;
      leaves := stored;
    }

    method FindElem(pos: u64, hashes: seq<T>) returns (elem: Result<T>)
      requires Valid()
      ensures mmrSize <= pos < mmrSize + |hashes| ==> elem == Ok(hashes[pos - mmrSize])
      ensures pos < mmrSize ==> elem == Ok(NodeAt(MmriverCombine(hasher), leaves, pos))
    {
      hide Size, NodeAt;
      if mmrSize <= pos && pos - mmrSize < |hashes| {
        return Ok(hashes[pos - mmrSize]);
      }
      var found := batch.GetElem(pos);
      elem := match found case None => Err(InconsistentStore) case Some(x) => Ok(x);
    }

    /** Appends the leaf, and parents for as long as the next position is higher. */
    method Push(data: D) returns (pos: Result<u64>)
      requires Valid() && Size(|leaves| + 1) <= SIZE_LIMIT
      modifies this, batch
      ensures Valid() && leaves == old(leaves) + [leafHash(data)]
      ensures pos == Ok(old(mmrSize)) && old(mmrSize) == LeafIndexToPos(|old(leaves)|)
      ensures batch.memoryBatch
              == old(batch.memoryBatch)
                 + [Segment(old(mmrSize), NewNodes(MmriverCombine(hasher), old(leaves), leafHash(data)))]
    {
      hide Size, Pos, NodeAt, NewNodes, TrailingZeros, Shr, Shl, Pow2, MmriverCombine, Node, Holds, Ascending,
           Write, View, MaxLeaves, Height, PopCount;
      ghost var f, ls, x, n := MmriverCombine(hasher), leaves, leafHash(data), |leaves|;
      ghost var t, all := TrailingZeros(n + 1), NewNodes(f, ls, x);
      NewNodesStart(f, ls, x);
      var elemPos := mmrSize;
      var elems := [leafHash(data)];
      var i: u64 := mmrSize + 1;
      var g: u8 := 0;
      ClimbGuard(n, 0);
      var height := IndexHeightMmriver(i);
      while height > g
        invariant g <= t && i == mmrSize + 1 + g && height == Height(i)
        invariant elems == all[..g + 1]
        decreases t - g
        modifies {}
      {
        ClimbGuard(n, g);
        ghost var left := PushStep(hasher, ls, x, g);
        var leftPos: u64 := i - Shl(2, g);
        var rightPos: u64 := i - 1;
        var leftElem := FindElem(leftPos, elems);
        var rightElem := FindElem(rightPos, elems);
        if leftElem.Err? || rightElem.Err? {
          return Err(InconsistentStore);
        }
        var parentElem := hasher.mergePos(i + 1, leftElem.value, rightElem.value);
        elems := elems + [parentElem];
        i := i + 1;
        g := g + 1;
        height := IndexHeightMmriver(i);
      }
      ClimbGuard(n, g);
      assert elems == all;
      AscendingAppend(batch.memoryBatch, mmrSize, Segment(elemPos, elems));
      HoldsAfterWrite(batch.Contents(), f, ls, x, elemPos);
      batch.Append(elemPos, elems);
      mmrSize := i;
      leaves := leaves + [x];
      pos := Ok(elemPos);
    }

    /** The peaks, left to right. */
    method GetAccumulator() returns (peaks: Result<seq<T>>)
      requires Valid()
      ensures peaks == if leaves == [] then Err(GetRootOnEmpty) else Ok(PeakValues(MmriverCombine(hasher), leaves))
    {
      hide Size, Holds, MmriverCombine, PeakValues, Positions, Peaks, Ascending, View, Strides;
      SmallSizes(|leaves|);
      if mmrSize == 0 {
        return Err(GetRootOnEmpty);
      }
      var positions := CollectMmriverPeaks(mmrSize - 1);
      StridesArePeaks(|leaves|);
      var elems := batch.GetElems(positions);
      PeaksRead(batch.Contents(), MmriverCombine(hasher), leaves, positions);
      peaks := Unwrapped(elems);
      assert peaks.value == PeakValues(MmriverCombine(hasher), leaves);
    }

    /** The accumulator bagged right to left. */
    method GetRoot() returns (root: Result<T>)
      requires Valid()
      ensures root == if leaves == [] then Err(GetRootOnEmpty) else Ok(Root(hasher, MmriverCombine(hasher), leaves))
    {
      hide Size, Holds, MmriverCombine, PeakValues, Bag, Ascending, View;
      var peaks := GetAccumulator();
      if peaks.Err? {
        return Err(peaks.error);
      }
      var bagged := BagRhsPeaks(hasher, peaks.value);
      root := match bagged case None => Err(InconsistentStore) case Some(x) => Ok(x);
    }

    /** The siblings above any position, leaf or interior. */
    method GenInclusionProof(i: u64) returns (result: Result<InclusionProof<T>>)
      requires Valid()
      ensures i >= mmrSize ==> result == Err(GenProofForInvalidLeaves)
      ensures i < mmrSize ==>
                && AllIn(|leaves|, Path(mmrSize - 1, Height(i), Block(i)))
                && result == Ok(InclusionProof(i, Values(MmriverCombine(hasher), leaves, Path(mmrSize - 1, Height(i), Block(i)))))
                && Height(i) + |result.value.proof| <= 62
    {
      hide Size, Holds, MmriverCombine, Values, Positions, Path, Height, Block, Ascending, View, AllIn;
      if i >= mmrSize {
        return Err(GenProofForInvalidLeaves);
      }
      var c: u64 := mmrSize - 1;
      var pathIndices := InclusionProofPath(i, c);
      PathInForest(|leaves|, i);
      ghost var cs := Path(c, Height(i), Block(i));
      HeightLimit(i);
      PathFits(c, Height(i), Block(i));
      var elems := batch.GetElems(pathIndices);
      ValuesRead(batch.Contents(), MmriverCombine(hasher), leaves, cs, pathIndices);
      var pathValues := Unwrapped(elems);
      assert pathValues.value == Values(MmriverCombine(hasher), leaves, cs);
      result := Ok(InclusionProof(i, pathValues.value));
    }

    /** For each position the iterator yields at the smaller size, its path in this forest. */
    method GenConsistencyProof(mmrSizeFrom: u64) returns (result: Result<ConsistencyProof<T>>)
      requires Valid()
      ensures mmrSizeFrom == 0 || mmrSizeFrom > mmrSize ==> result == Err(GenProofForInvalidLeaves)
      ensures 0 < mmrSizeFrom <= mmrSize ==>
                && Within(Strides(0, mmrSizeFrom), Size(|leaves|))
                && result == Ok(ConsistencyProof(mmrSizeFrom, mmrSize,
                                                 PathsFrom(MmriverCombine(hasher), leaves, Strides(0, mmrSizeFrom))))
                && PathsFit(Strides(0, mmrSizeFrom), result.value.proofPaths)
    {
      hide Size, Pos, Holds, MmriverCombine, Values, Positions, Path, Strides, Height, Block, Ascending, View,
           InForest, Flat;
      if mmrSizeFrom == 0 || mmrSizeFrom > mmrSize {
        return Err(GenProofForInvalidLeaves);
      }
      ghost var f, n, view := MmriverCombine(hasher), |leaves|, batch.Contents();
      var ifrom: u64 := mmrSizeFrom - 1;
      var ito: u64 := mmrSize - 1;
      var fromPeaks := CollectMmriverPeaks(ifrom);
      StridesBelow(0, mmrSizeFrom);
      var proofIndices: seq<seq<u64>> := [];
      for k := 0 to |fromPeaks|
        invariant |proofIndices| == k
        invariant forall a :: 0 <= a < k ==>
                    proofIndices[a] == Positions(Path(Size(n) - 1, Height(fromPeaks[a]), Block(fromPeaks[a])))
      {
        var path := InclusionProofPath(fromPeaks[k], ito);
        proofIndices := proofIndices + [path];
      }
      var allElems := batch.GetElems(Flat(proofIndices));
      var proofPaths: seq<seq<T>> := [];
      var offset := 0;
      assert proofIndices[..0] == [];
      FlatNone<u64>();
      for k := 0 to |proofIndices|
        invariant offset == |Flat(proofIndices[..k])|
        invariant proofPaths == PathsFrom(f, leaves, fromPeaks)[..k]
      {
        FlatSlice(proofIndices, k);
        PathInForest(n, fromPeaks[k]);
        ghost var cs := Path(Size(n) - 1, Height(fromPeaks[k]), Block(fromPeaks[k]));
        ValuesRead(view, f, leaves, cs, proofIndices[k]);
        var slice := allElems[offset..offset + |proofIndices[k]|];
        forall a | 0 <= a < |slice|
          ensures slice[a] == Some(Values(f, leaves, cs)[a])
        {
          assert slice[a] == allElems[offset + a];
        }
        var pathValues := Unwrapped(slice);
        assert pathValues.value == Values(f, leaves, cs);
        proofPaths := proofPaths + [pathValues.value];
        offset := offset + |proofIndices[k]|;
      }
      assert proofPaths == PathsFrom(f, leaves, fromPeaks);
      PathsFromFit(f, leaves, fromPeaks);
      result := Ok(ConsistencyProof(mmrSizeFrom, mmrSize, proofPaths));
    }

    /** Writes the batch through; nothing that is read changes. */
    method Commit()
      requires Valid()
      modifies batch, batch.store
      ensures Valid()
      ensures batch.memoryBatch == [] && batch.store.elems == batch.Contents() == old(batch.Contents())
    {
      batch.Commit();
    }
  }

  // ----- pushing -----

  lemma NewNodesStart<T>(f: Combine<T>, ls: seq<T>, x: T)
    ensures NewNodes(f, ls, x)[..1] == [x]
    ensures Size(|ls| + 1) == Size(|ls|) + |NewNodes(f, ls, x)|
  {
    SizeSucc(|ls|);
    assert NewNodes(f, ls, x)[0] == (ls + [x])[|ls|];
  }

  /** The height test holds exactly along the carry chain. */
  lemma ClimbGuard(n: nat, g: nat)
    requires g <= TrailingZeros(n + 1)
    ensures Height(Size(n) + 1 + g) > g <==> g < TrailingZeros(n + 1)
    ensures Size(n) + 1 + g <= Size(n + 1)
  {
    hide Height, Pos, Size, Shr, TrailingZeros;
    NewNodeInForest(n, g);
    NextHeight(g, Shr(n, g));
    TrailingOnes(n, g);
    SizeSucc(n);
  }

  /** One link of the climb: where both children are, and what their parent is worth. */
  lemma PushStep<T>(m: Hasher<T>, ls: seq<T>, x: T, g: nat) returns (left: nat)
    requires g < TrailingZeros(|ls| + 1) && Size(|ls| + 1) <= SIZE_LIMIT
    ensures left + Shl(2, g) == Size(|ls|) + g + 1 && left < Size(|ls|) && Size(|ls|) + g + 2 <= Size(|ls| + 1) && g < 62
    ensures var all := NewNodes(MmriverCombine(m), ls, x);
            && all[g + 1] == m.mergePos(Size(|ls|) + g + 2, NodeAt(MmriverCombine(m), ls, left), all[g])
            && all[..g + 2] == all[..g + 1] + [all[g + 1]]
  {
    hide Pos, NodeAt, Size, TrailingZeros, NewNodes, Pow2, Shl, MmriverCombine;
    left := NewNodeLink(MmriverCombine(m), ls, x, g);
    SizeSucc(|ls|);
    ShlTwo(g);
    Pow2Values();
    if g >= 62 { Pow2Mono(63, g + 1); }
    OneMore(NewNodes(MmriverCombine(m), ls, x), g + 1);
    MmriverMerges(m, Size(|ls|) + g + 1, NodeAt(MmriverCombine(m), ls, left), NewNodes(MmriverCombine(m), ls, x)[g]);
  }

  // ----- paths -----

  lemma PathInForest(n: nat, i: nat)
    requires i < Size(n)
    ensures InForest(n, Coord(Height(i), Block(i)))
    ensures AllIn(n, Path(Size(n) - 1, Height(i), Block(i)))
  {
    hide Size, Pos, InForest, Height, Block, Path, Reached, Peaks;
    PosOfCoord(i);
    InForestPos(n, Height(i), Block(i));
    ReachesPeak(n, Height(i), Block(i));
  }

  /** The path of node c in the forest of n leaves. */
  ghost function PathAt(n: nat, c: Coord): seq<Coord>
    requires Size(n) > 0
  {
    Path(Size(n) - 1, c.h, c.j)
  }

  lemma PathOfPeak(n: nat, c: Coord)
    requires InForest(n, c)
    ensures Size(n) > 0 && PathAt(n, c) == Path(Size(n) - 1, c.h, c.j) && AllIn(n, PathAt(n, c))
    ensures Pos(c.h, c.j) < Size(n)
  {
    hide Size, Pos, InForest, Path, Reached, Peaks;
    ReachesPeak(n, c.h, c.j);
    InForestPos(n, c.h, c.j);
  }

  /** The peaks of a smaller forest are nodes of the larger one. */
  lemma OldPeaksIn(m: nat, n: nat)
    requires Size(m) <= Size(n)
    ensures m <= n && AllIn(n, Peaks(m))
  {
    hide Size, Peaks, Shr;
    if n < m { SizeMono(n, m); }
    PeaksAllIn(m);
    forall i | 0 <= i < |Peaks(m)|
      ensures InForest(n, Peaks(m)[i])
    {
      ShrMono(m, n, Peaks(m)[i].h);
    }
  }

  /** What a consistency proof from m leaves carries. */
  ghost function PeakPaths<T>(f: Combine<T>, ls: seq<T>, m: nat): (paths: seq<seq<T>>)
    requires AllIn(|ls|, Peaks(m))
  {
    seq(|Peaks(m)|, k requires 0 <= k < |Peaks(m)| =>
      PathOfPeak(|ls|, Peaks(m)[k]);
      Values(f, ls, PathAt(|ls|, Peaks(m)[k])))
  }

  /** A path is never longer than the bits of a position. */
  lemma {:induction false} PathFits(c: nat, h: nat, j: nat)
    requires c < SIZE_LIMIT && h <= 62
    ensures h + |Path(c, h, j)| <= 62
    decreases 62 - h
  {
    hide Pos, Sib;
    if Pos(h, Sib(j)) <= c {
      PathRoom(c, h, j);
      PathFits(c, h + 1, j / 2);
    }
  }

  ghost predicate Within(positions: seq<nat>, bound: nat) {
    forall i :: 0 <= i < |positions| ==> positions[i] < bound
  }

  /** The paths of any positions of the forest. */
  ghost function PathsFrom<T>(f: Combine<T>, ls: seq<T>, positions: seq<nat>): (paths: seq<seq<T>>)
    requires Within(positions, Size(|ls|))
  {
    seq(|positions|, k requires 0 <= k < |positions| =>
      PathInForest(|ls|, positions[k]);
      Values(f, ls, Path(Size(|ls|) - 1, Height(positions[k]), Block(positions[k]))))
  }

  lemma PathsFromFit<T>(f: Combine<T>, ls: seq<T>, positions: seq<nat>)
    requires Within(positions, Size(|ls|)) && Size(|ls|) <= SIZE_LIMIT
    ensures PathsFit(positions, PathsFrom(f, ls, positions))
  {
    hide Size, Pos, Node, Path, Height, Block, InForest;
    forall i | 0 <= i < |positions|
      ensures Height(positions[i]) + |PathsFrom(f, ls, positions)[i]| <= 62
    {
      HeightLimit(positions[i]);
      PathInForest(|ls|, positions[i]);
      PathFits(Size(|ls|) - 1, Height(positions[i]), Block(positions[i]));
    }
  }

  /** At a complete size the generated paths are those of the old peaks. */
  lemma CompletePaths<T>(f: Combine<T>, ls: seq<T>, m: nat)
    requires m <= |ls|
    ensures AllIn(|ls|, Peaks(m)) && Within(Strides(0, Size(m)), Size(|ls|))
    ensures PathsFrom(f, ls, Strides(0, Size(m))) == PeakPaths(f, ls, m)
  {
    hide Size, Pos, Node, Path, Height, Block, InForest, Peaks, Strides, Values;
    SizeMono(m, |ls|);
    OldPeaksIn(m, |ls|);
    StridesArePeaks(m);
    StridesBelow(0, Size(m));
    var positions := Strides(0, Size(m));
    PeakCount(m, positions);
    forall i | 0 <= i < |positions|
      ensures PathsFrom(f, ls, positions)[i] == PeakPaths(f, ls, m)[i]
    {
      PeakAt(m, positions, i);
      PathOfPeak(|ls|, Peaks(m)[i]);
    }
  }

  // ----- the flattened fetch -----

  function Flat<A>(ss: seq<seq<A>>): seq<A> {
    if ss == [] then [] else Flat(ss[..|ss| - 1]) + ss[|ss| - 1]
  }

  lemma FlatNone<A>()
    ensures Flat<A>([]) == []
  {
  }

  /** Each part lies where the parts before it end. */
  lemma {:induction false} FlatSlice<A>(ss: seq<seq<A>>, k: nat)
    requires k < |ss|
    ensures var (from, end) := (|Flat(ss[..k])|, |Flat(ss[..k])| + |ss[k]|);
            && end == |Flat(ss[..k + 1])| && end <= |Flat(ss)| && Flat(ss)[from..end] == ss[k]
    decreases |ss|
  {
    var init := ss[..|ss| - 1];
    assert ss[..k + 1][..k] == ss[..k];
    if k + 1 < |ss| {
      FlatSlice(init, k);
      assert init[..k] == ss[..k] && init[..k + 1] == ss[..k + 1];
    } else {
      assert ss[..k + 1] == ss;
    }
  }
}
