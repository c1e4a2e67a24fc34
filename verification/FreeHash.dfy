/** A hash without collisions: terms. Soundness results are stated for it. */
module FreeHash {
  import opened Bits
  import opened Forest
  import opened Nodes

  datatype Hash<D> = HLeaf(data: D) | HNode(pos: nat, left: Hash<D>, right: Hash<D>)

  function Join<D>(pos: nat, left: Hash<D>, right: Hash<D>): Hash<D> {
    HNode(pos, left, right)
  }

  function Free<D>(): Hasher<Hash<D>> {
    DefaultHasher((pos: nat, l: Hash<D>, r: Hash<D>) => Join(pos, l, r))
  }

  lemma FreeMerges<D>(pos: nat, l: Hash<D>, r: Hash<D>)
    ensures Free<D>().mergePos(pos, l, r) == HNode(pos, l, r)
    ensures Free<D>().merge(l, r) == HNode(0, l, r) && Free<D>().mergePeaks(l, r) == HNode(0, l, r)
  {
  }

  /** A real run stores leaf hashes at the bottom, and the hasher keeps them apart from merges. */
  ghost predicate Hashed<D>(ls: seq<Hash<D>>) {
    forall i :: 0 <= i < |ls| ==> ls[i].HLeaf?
  }

  predicate Subterm<D(==)>(a: Hash<D>, b: Hash<D>) {
    a == b || (b.HNode? && (Subterm(a, b.left) || Subterm(a, b.right)))
  }

  lemma {:induction false} SubtermTrans<D>(a: Hash<D>, b: Hash<D>, c: Hash<D>)
    requires Subterm(a, b) && Subterm(b, c)
    ensures Subterm(a, c)
  {
    if b != c {
      if Subterm(b, c.left) { SubtermTrans(a, b, c.left); } else { SubtermTrans(a, b, c.right); }
    }
  }

  /** Parents tell their children apart. */
  ghost predicate Injective<T(!new)>(f: Combine<T>) {
    forall p: nat, a: T, b: T, c: T, d: T :: f(p, a, b) == f(p, c, d) ==> a == c && b == d
  }

  lemma BothInjective<D(!new)>()
    ensures Injective(MmrCombine(Free<D>())) && Injective(MmriverCombine(Free<D>()))
  {
  }

  /** Then the value of a node binds every leaf below it. */
  lemma {:induction false} NodeBinds<T(!new)>(f: Combine<T>, a: seq<T>, b: seq<T>, h: nat, j: nat, i: nat)
    requires Injective(f) && InForest(|a|, Coord(h, j)) && InForest(|b|, Coord(h, j)) && Under(0, i, h, j)
    requires Node(f, a, h, j) == Node(f, b, h, j)
    ensures i < |a| && i < |b| && a[i] == b[i]
    decreases h
  {
    hide Pos, Shr;
    if h == 0 {
      LevelZero(|a|, j);
      LevelZero(|b|, j);
      UnderZero(i, j);
    } else {
      ChildrenInForest(|a|, h - 1, j);
      ChildrenInForest(|b|, h - 1, j);
      ShrStep(i, h - 1);
      NodeBinds(f, a, b, h - 1, Shr(i, h - 1), i);
    }
  }

  lemma UnderZero(i: nat, j: nat)
    ensures Under(0, i, 0, j) <==> i == j
  {
  }
}
