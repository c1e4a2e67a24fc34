/** Whole runs: any interleaving of pushes and commits from an empty store, in both structures. */
module Replay {
  import opened Bits
  import opened Forest
  import opened Helper
  import opened Nodes
  import opened Store
  import opened Mmr
  import opened Mmriver

  datatype Op<D> = Push(data: D) | Commit

  /** The leaf hashes a run pushes, in order. */
  function Pushed<D, T>(leafHash: D -> T, ops: seq<Op<D>>): seq<T> {
    if ops == [] then []
    else
      var op := ops[|ops| - 1];
      Pushed(leafHash, ops[..|ops| - 1]) + if op.Push? then [leafHash(op.data)] else []
  }

  /** Nothing but the forest: every position below its size, and no other. */
  ghost function Stored<T>(f: Combine<T>, ls: seq<T>): map<nat, T> {
    map p: nat | p < Size(|ls|) :: NodeAt(f, ls, p)
  }

  lemma StoredNone<T>(f: Combine<T>)
    ensures Stored(f, []) == map[]
  {
    hide NodeAt;
    assert Size(0) == 0;
  }

  lemma StoredPush<T>(f: Combine<T>, ls: seq<T>, x: T, size: u64)
    requires size == Size(|ls|)
    ensures Write(Stored(f, ls), Segment(size, NewNodes(f, ls, x))) == Stored(f, ls + [x])
  {
    hide NodeAt, NewNodes, Size, TrailingZeros;
    var s := Segment(size, NewNodes(f, ls, x));
    var view := Write(Stored(f, ls), s);
    HoldsAfterWrite(Stored(f, ls), f, ls, x, size);
    forall p: nat
      ensures p in view <==> p < Size(|ls + [x]|)
    {
      assert s.Covers(p) <==> size <= p < size + |NewNodes(f, ls, x)|;
    }
  }

  lemma {:induction false} PushedPrefix<D, T>(leafHash: D -> T, ops: seq<Op<D>>, k: nat)
    requires k < |ops|
    ensures Pushed(leafHash, ops[..k + 1])
            == Pushed(leafHash, ops[..k]) + if ops[k].Push? then [leafHash(ops[k].data)] else []
    ensures |Pushed(leafHash, ops[..k + 1])| <= |Pushed(leafHash, ops)|
    decreases |ops|
  {
    assert ops[..k + 1][..k] == ops[..k];
    if k + 1 < |ops| {
      var init := ops[..|ops| - 1];
      PushedPrefix(leafHash, init, k);
      assert init[..k + 1] == ops[..k + 1];
    } else {
      assert ops[..k + 1] == ops;
    }
  }

  /** One more push fits because the whole run does. */
  lemma PushFits(done: nat, total: nat)
    requires done + 1 <= total && Size(total) <= SIZE_LIMIT
    ensures Size(done + 1) <= SIZE_LIMIT
  {
    SizeMono(done + 1, total);
  }

  /** What a push adds to the batch turns its view into the next forest. */
  lemma ViewPush<T>(m: map<nat, T>, segs: seq<Segment<T>>, f: Combine<T>, ls: seq<T>, x: T, size: u64)
    requires View(m, segs) == Stored(f, ls) && size == Size(|ls|)
    ensures View(m, segs + [Segment(size, NewNodes(f, ls, x))]) == Stored(f, ls + [x])
  {
    hide NewNodes, Size, Stored;
    var s := Segment(size, NewNodes(f, ls, x));
    StoredPush(f, ls, x, size);
    assert (segs + [s])[..|segs|] == segs;
  }

  /** However a run commits, it ends with the forest over its pushes, and each push returned its leaf's place. */
  method ReplayMmr<D, T(==)>(ops: seq<Op<D>>, leafHash: D -> T, hasher: Hasher<T>)
    returns (mmr: MMR<D, T>, positions: seq<u64>)
    requires Size(|Pushed(leafHash, ops)|) <= SIZE_LIMIT
    ensures fresh(mmr) && mmr.Valid() && mmr.hasher == hasher && mmr.leaves == Pushed(leafHash, ops)
    ensures mmr.batch.Contents() == Stored(MmrCombine(hasher), Pushed(leafHash, ops))
    ensures |positions| == |Pushed(leafHash, ops)|
    ensures forall i :: 0 <= i < |positions| ==> positions[i] == Size(i) == LeafIndexToPos(i)
    ensures ops != [] && ops[|ops| - 1].Commit? ==> mmr.batch.store.elems == mmr.batch.Contents()
  {
    hide Size, Stored, Holds, Ascending, View, NewNodes, MmrCombine, Pushed, NodeAt, PopCount, TrailingZeros;
    var store := new MemStore<T>();
    ghost var f := MmrCombine(hasher);
    StoredNone(f);
    NoLeaves<T>(f);
    PushedNone(leafHash, ops);
    mmr := new MMR<D, T>(0, store, leafHash, hasher, []);
    ViewNone(store.elems, mmr.batch.memoryBatch);
    positions := [];
    for k := 0 to |ops|
      invariant fresh(mmr) && fresh(mmr.batch) && fresh(mmr.batch.store)
      invariant mmr.Valid() && mmr.hasher == hasher && mmr.leafHash == leafHash
      invariant mmr.leaves == Pushed(leafHash, ops[..k])
      invariant mmr.batch.Contents() == Stored(f, mmr.leaves)
      invariant |positions| == |mmr.leaves|
      invariant forall i :: 0 <= i < |positions| ==> positions[i] == Size(i)
      invariant k > 0 && ops[k - 1].Commit? ==> mmr.batch.store.elems == mmr.batch.Contents()
    {
      PushedPrefix(leafHash, ops, k);
      match ops[k] {
        case Push(data) =>
          PushFits(|mmr.leaves|, |Pushed(leafHash, ops)|);
          ViewPush(mmr.batch.store.elems, mmr.batch.memoryBatch, f, mmr.leaves, leafHash(data), mmr.mmrSize);
          var pos := mmr.Push(data);
          positions := positions + [pos.value];
        case Commit =>
          mmr.Commit();
      }
    }
    assert ops[..|ops|] == ops;
    Places(positions);
  }

  method ReplayMmriver<D, T(==)>(ops: seq<Op<D>>, leafHash: D -> T, hasher: Hasher<T>)
    returns (mmr: MMRIVER<D, T>, positions: seq<u64>)
    requires Size(|Pushed(leafHash, ops)|) <= SIZE_LIMIT
    ensures fresh(mmr) && mmr.Valid() && mmr.hasher == hasher && mmr.leaves == Pushed(leafHash, ops)
    ensures mmr.batch.Contents() == Stored(MmriverCombine(hasher), Pushed(leafHash, ops))
    ensures |positions| == |Pushed(leafHash, ops)|
    ensures forall i :: 0 <= i < |positions| ==> positions[i] == Size(i) == LeafIndexToPos(i)
    ensures ops != [] && ops[|ops| - 1].Commit? ==> mmr.batch.store.elems == mmr.batch.Contents()
  {
    hide Size, Stored, Holds, Ascending, View, NewNodes, MmriverCombine, Pushed, NodeAt, PopCount, TrailingZeros;
    var store := new MemStore<T>();
    ghost var f := MmriverCombine(hasher);
    StoredNone(f);
    NoLeaves<T>(f);
    PushedNone(leafHash, ops);
    mmr := new MMRIVER<D, T>(0, store, leafHash, hasher, []);
    ViewNone(store.elems, mmr.batch.memoryBatch);
    positions := [];
    for k := 0 to |ops|
      invariant fresh(mmr) && fresh(mmr.batch) && fresh(mmr.batch.store)
      invariant mmr.Valid() && mmr.hasher == hasher && mmr.leafHash == leafHash
      invariant mmr.leaves == Pushed(leafHash, ops[..k])
      invariant mmr.batch.Contents() == Stored(f, mmr.leaves)
      invariant |positions| == |mmr.leaves|
      invariant forall i :: 0 <= i < |positions| ==> positions[i] == Size(i)
      invariant k > 0 && ops[k - 1].Commit? ==> mmr.batch.store.elems == mmr.batch.Contents()
    {
      PushedPrefix(leafHash, ops, k);
      match ops[k] {
        case Push(data) =>
          PushFits(|mmr.leaves|, |Pushed(leafHash, ops)|);
          ViewPush(mmr.batch.store.elems, mmr.batch.memoryBatch, f, mmr.leaves, leafHash(data), mmr.mmrSize);
          var pos := mmr.Push(data);
          positions := positions + [pos.value];
        case Commit =>
          mmr.Commit();
      }
    }
    assert ops[..|ops|] == ops;
    Places(positions);
  }

  lemma Places(positions: seq<u64>)
    requires forall i :: 0 <= i < |positions| ==> positions[i] == Size(i)
    requires |positions| <= SIZE_LIMIT
    ensures forall i :: 0 <= i < |positions| ==> positions[i] == LeafIndexToPos(i)
  {
    hide Size;
  }

  lemma NoLeaves<T>(f: Combine<T>)
    ensures Size(0) == 0 && Holds(map[], f, [])
  {
  }

  lemma ViewNone<T>(m: map<nat, T>, segs: seq<Segment<T>>)
    requires segs == []
    ensures View(m, segs) == m
  {
  }

  lemma PushedNone<D, T>(leafHash: D -> T, ops: seq<Op<D>>)
    ensures Pushed(leafHash, ops[..0]) == []
  {
  }
}
