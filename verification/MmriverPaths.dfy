/**
 What an MMRIVER inclusion path proves: where it ends, which hash it leads to, and how a path grows
 with the forest.
 */
module MmriverPaths {
  import opened Bits
  import opened Forest
  import opened InclusionPath
  import opened Nodes
  import opened QueueWalk

  /** Where the climb of `Path` stops. */
  ghost function Reached(c: nat, h: nat, j: nat): Coord
    decreases if h <= c then c - h + 1 else 0
  {
    if Pos(h, Sib(j)) > c then Coord(h, j) else Reached(c, h + 1, j / 2)
  }

  /** `included_root`: the hash of (h, j) merged with the siblings along its path. */
  ghost function Climbed<T>(f: Combine<T>, h: nat, j: nat, hash: T, path: seq<T>): T
    decreases |path|
  {
    if path == [] then hash
    else Climbed(f, h + 1, j / 2, Merged(f, h, j, hash, path[0]), path[1..])
  }

  /** The parent of (h, j), from its own hash and its sibling's. */
  ghost function Merged<T>(f: Combine<T>, h: nat, j: nat, hash: T, sibling: T): T {
    if j % 2 == 1 then f(Pos(h + 1, j / 2), sibling, hash) else f(Pos(h + 1, j / 2), hash, sibling)
  }

  /** In a complete forest a node either is a peak or has its sibling and its parent beside it. */
  lemma ClimbInForest(n: nat, h: nat, j: nat)
    requires InForest(n, Coord(h, j))
    ensures Size(n) > 0
    ensures Pos(h, Sib(j)) <= Size(n) - 1 <==> InForest(n, Coord(h, Sib(j)))
    ensures Pos(h, Sib(j)) <= Size(n) - 1 <==> InForest(n, Coord(h + 1, j / 2))
    ensures Pos(h, Sib(j)) > Size(n) - 1 <==> IsPeak(n, Coord(h, j))
  {
    hide Pos, Shr, Size;
    InForestPos(n, h, j);
    InForestPos(n, h, Sib(j));
    ShrStep(n, h);
  }

  /** The path ends in the peak of the mountain it starts in, and asks only for nodes of the forest. */
  lemma {:induction false} ReachesPeak(n: nat, h: nat, j: nat)
    requires InForest(n, Coord(h, j))
    ensures Size(n) > 0
    ensures var top := Reached(Size(n) - 1, h, j); top in Peaks(n) && Under(h, j, top.h, top.j)
    ensures AllIn(n, Path(Size(n) - 1, h, j))
    decreases Size(n) - h
  {
    hide Pos, Size, InForest, IsPeak, Peaks, Sib;
    ClimbInForest(n, h, j);
    var c := Size(n) - 1;
    if Pos(h, Sib(j)) > c {
      PeaksMember(n, Coord(h, j));
    } else {
      assert Pos(h, Sib(j)) >= h;
      ReachesPeak(n, h + 1, j / 2);
      assert AllIn(n, [Coord(h, Sib(j))]);
      var rest := Path(c, h + 1, j / 2);
      forall k | 0 <= k < |Path(c, h, j)|
        ensures InForest(n, Path(c, h, j)[k])
      {
        if k > 0 { assert Path(c, h, j)[k] == rest[k - 1]; }
      }
    }
  }

  lemma MergedNode<T>(f: Combine<T>, ls: seq<T>, h: nat, j: nat)
    requires InForest(|ls|, Coord(h + 1, j / 2))
    ensures InForest(|ls|, Coord(h, j)) && InForest(|ls|, Coord(h, Sib(j)))
    ensures Merged(f, h, j, Node(f, ls, h, j), Node(f, ls, h, Sib(j))) == Node(f, ls, h + 1, j / 2)
  {
    hide InForest, Pos;
    ChildrenInForest(|ls|, h, j / 2);
    assert j == 2 * (j / 2) || j == 2 * (j / 2) + 1;
  }

  /** Every node, leaf or interior: its path leads to the peak above it. */
  lemma {:induction false} ClimbedIsPeak<T>(f: Combine<T>, ls: seq<T>, h: nat, j: nat)
    requires InForest(|ls|, Coord(h, j))
    ensures AllIn(|ls|, Path(Size(|ls|) - 1, h, j))
    ensures var top := Reached(Size(|ls|) - 1, h, j);
            && InForest(|ls|, top)
            && Climbed(f, h, j, Node(f, ls, h, j), Values(f, ls, Path(Size(|ls|) - 1, h, j))) == Node(f, ls, top.h, top.j)
    decreases Size(|ls|) - h
  {
    hide Pos, Size, InForest, IsPeak, Peaks, Sib, Node, Merged, Values;
    var n := |ls|;
    ClimbInForest(n, h, j);
    ReachesPeak(n, h, j);
    var c := Size(n) - 1;
    if Pos(h, Sib(j)) > c {
      ValuesNone(f, ls);
    } else {
      assert Pos(h, Sib(j)) >= h;
      MergedNode(f, ls, h, j);
      ClimbedIsPeak(f, ls, h + 1, j / 2);
      var rest := Path(c, h + 1, j / 2);
      ValuesHead(f, ls, Coord(h, Sib(j)), rest, []);
      var vs := Values(f, ls, Path(c, h, j));
      assert vs == [Node(f, ls, h, Sib(j))] + Values(f, ls, rest) by {
        assert Values(f, ls, rest) + [] == Values(f, ls, rest);
        assert vs + [] == vs;
      }
      assert vs[1..] == Values(f, ls, rest);
    }
  }

  // ----- growing -----

  /** Climbing a path in two parts. */
  lemma {:induction false} ClimbedSplit<T>(f: Combine<T>, h: nat, j: nat, hash: T, p: seq<T>, q: seq<T>)
    ensures Climbed(f, h, j, hash, p + q)
            == Climbed(f, h + |p|, Shr(j, |p|), Climbed(f, h, j, hash, p), q)
    decreases |p|
  {
    hide Merged;
    if p == [] {
      assert [] + q == q;
    } else {
      assert (p + q)[1..] == p[1..] + q;
      ClimbedSplit(f, h + 1, j / 2, Merged(f, h, j, hash, p[0]), p[1..], q);
    }
  }

  /** A later path is the earlier one followed by the path of the node the earlier one reached. */
  lemma {:induction false} PathExtends(c: nat, c': nat, h: nat, j: nat)
    requires c <= c'
    ensures var top := Reached(c, h, j);
            && top == Coord(h + |Path(c, h, j)|, Shr(j, |Path(c, h, j)|))
            && Path(c', h, j) == Path(c, h, j) + Path(c', top.h, top.j)
            && Reached(c', h, j) == Reached(c', top.h, top.j)
    decreases if h <= c then c - h + 1 else 0
  {
    hide Pos, Sib;
    if Pos(h, Sib(j)) > c {
      assert [] + Path(c', h, j) == Path(c', h, j);
    } else {
      assert Pos(h, Sib(j)) >= h;
      PathExtends(c, c', h + 1, j / 2);
      var top := Reached(c, h, j);
      var first, mid, last := [Coord(h, Sib(j))], Path(c, h + 1, j / 2), Path(c', top.h, top.j);
      assert first + (mid + last) == (first + mid) + last;
    }
  }

  /**
   An old inclusion proof followed by the consistency path of the peak it reached is the proof in the
   grown forest: same node, and the root it leads to is the new peak.
   */
  lemma ProofExtends<T>(f: Combine<T>, ls: seq<T>, more: seq<T>, h: nat, j: nat)
    requires InForest(|ls|, Coord(h, j))
    ensures InForest(|ls + more|, Coord(h, j))
    ensures var (m, n) := (|ls|, |ls + more|);
            var top := Reached(Size(m) - 1, h, j);
            && AllIn(m, Path(Size(m) - 1, h, j))
            && InForest(n, top) && AllIn(n, Path(Size(n) - 1, top.h, top.j)) && AllIn(n, Path(Size(n) - 1, h, j))
            && Values(f, ls + more, Path(Size(n) - 1, h, j))
               == Values(f, ls, Path(Size(m) - 1, h, j)) + Values(f, ls + more, Path(Size(n) - 1, top.h, top.j))
    ensures forall hash: T, p: seq<T>, q: seq<T> :: |p| == |Path(Size(|ls|) - 1, h, j)| ==>
              var top := Reached(Size(|ls|) - 1, h, j);
              Climbed(f, h, j, hash, p + q) == Climbed(f, top.h, top.j, Climbed(f, h, j, hash, p), q)
  {
    hide Pos, Size, InForest, Node, Path, Reached, Values, Climbed, Peaks;
    var m, n := |ls|, |ls + more|;
    ReachesPeak(m, h, j);
    SizeMono(m, n);
    var top := Reached(Size(m) - 1, h, j);
    var before, after := Path(Size(m) - 1, h, j), Path(Size(n) - 1, top.h, top.j);
    PathExtends(Size(m) - 1, Size(n) - 1, h, j);
    NodePrefix(f, ls, more, h, j);
    ReachesPeak(n, h, j);
    PeaksInForest(m, top);
    NodePrefix(f, ls, more, top.h, top.j);
    ReachesPeak(n, top.h, top.j);
    ValuesAppend(f, ls + more, before, after);
    ValuesPrefix(f, ls, more, before);
    forall hash: T, p: seq<T>, q: seq<T> | |p| == |before|
      ensures Climbed(f, h, j, hash, p + q) == Climbed(f, top.h, top.j, Climbed(f, h, j, hash, p), q)
    {
      ClimbedSplit(f, h, j, hash, p, q);
    }
  }
}
