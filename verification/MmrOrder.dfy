/**
 Merging keeps the order of the leaves: with an associative product, the root is the product of all
 leaf hashes in push order and every proof item the product of a contiguous run of them.
 */
module MmrOrder {
  import opened Bits
  import opened Forest
  import opened Nodes
  import opened Bagging
  import opened ProofPlan
  import opened ProofSpec
  import opened Completeness

  ghost predicate Associative<T(!new)>(op: (T, T) -> T) {
    forall a: T, b: T, c: T :: op(op(a, b), c) == op(a, op(b, c))
  }

  /** The product in order; peaks are handed over right before left. */
  ghost predicate Ordered<T(!new)>(m: Hasher<T>, op: (T, T) -> T) {
    && Associative(op)
    && (forall l: T, r: T :: m.merge(l, r) == op(l, r))
    && (forall l: T, r: T :: m.mergePeaks(r, l) == op(l, r))
  }

  function Product<T>(op: (T, T) -> T, s: seq<T>): T
    requires s != []
  {
    if |s| == 1 then s[0] else op(s[0], Product(op, s[1..]))
  }

  lemma {:induction false} ProductSplit<T(!new)>(op: (T, T) -> T, a: seq<T>, b: seq<T>)
    requires Associative(op) && a != [] && b != []
    ensures Product(op, a + b) == op(Product(op, a), Product(op, b))
  {
    assert (a + b)[1..] == a[1..] + b;
    if |a| > 1 {
      ProductSplit(op, a[1..], b);
    } else {
      assert a[1..] + b == b;
    }
  }

  /** The leaves under a node. */
  ghost function LeavesUnder<T>(ls: seq<T>, c: Coord): (s: seq<T>)
    requires InForest(|ls|, c)
    ensures s != []
  {
    LeafRange(|ls|, c);
    ls[Shl(c.j, c.h)..Shl(c.j + 1, c.h)]
  }

  lemma LeafRange(n: nat, c: Coord)
    requires InForest(n, c)
    ensures Shl(c.j, c.h) < Shl(c.j + 1, c.h) <= n
  {
    ShlOne(c.j, c.h);
    ShlShr(c.j + 1, n, c.h);
  }

  lemma {:induction false} NodeIsProduct<T(!new)>(m: Hasher<T>, op: (T, T) -> T, ls: seq<T>, h: nat, j: nat)
    requires Ordered(m, op) && InForest(|ls|, Coord(h, j))
    ensures Node(MmrCombine(m), ls, h, j) == Product(op, LeavesUnder(ls, Coord(h, j)))
    decreases h
  {
    hide Pos, Shr, Shl, Product, Associative;
    LeafRange(|ls|, Coord(h, j));
    if h == 0 {
      LevelZero(|ls|, j);
      LeafAlone(op, ls, j);
    } else {
      ChildrenInForest(|ls|, h - 1, j);
      NodeIsProduct(m, op, ls, h - 1, 2 * j);
      NodeIsProduct(m, op, ls, h - 1, 2 * j + 1);
      ShlHalves(j, h - 1);
      LeafRange(|ls|, Coord(h - 1, 2 * j));
      LeafRange(|ls|, Coord(h - 1, 2 * j + 1));
      var l, r := LeavesUnder(ls, Coord(h - 1, 2 * j)), LeavesUnder(ls, Coord(h - 1, 2 * j + 1));
      ProductSplit(op, l, r);
      assert LeavesUnder(ls, Coord(h, j)) == l + r;
    }
  }

  lemma LeafAlone<T>(op: (T, T) -> T, ls: seq<T>, j: nat)
    requires j < |ls| && InForest(|ls|, Coord(0, j))
    ensures Product(op, LeavesUnder(ls, Coord(0, j))) == ls[j]
  {
    assert ls[j..j + 1] == [ls[j]];
  }

  /** The peaks below height k, bagged, are the product of the leaves they cover. */
  lemma {:induction false} PeaksProduct<T(!new)>(m: Hasher<T>, op: (T, T) -> T, ls: seq<T>, k: nat)
    requires Ordered(m, op) && PeaksBelow(|ls|, k) != []
    ensures AllIn(|ls|, PeaksBelow(|ls|, k)) && Shl(Shr(|ls|, k), k) < |ls|
    ensures Bag(m, Values(MmrCombine(m), ls, PeaksBelow(|ls|, k))) == Product(op, ls[Shl(Shr(|ls|, k), k)..])
    decreases k
  {
    hide Pos, Shr, Shl, Product, Associative, Ordered, Node, Values, PeaksBelow, InForest;
    var n, f := |ls|, MmrCombine(m);
    PeaksBelowIn(n, k);
    SomeBits(n, k);
    DecidedStep(n, k);
    PeaksBelowStep(n, k);
    var x := Shr(n, k - 1);
    if x % 2 == 0 {
      PeaksProduct(m, op, ls, k - 1);
    } else {
      var c := Coord(k - 1, x - 1);
      var rest := PeaksBelow(n, k - 1);
      PeaksBelowIn(n, k - 1);
      assert InForest(n, c) by { assert PeaksBelow(n, k)[0] == c; }
      LeafRange(n, c);
      NodeIsProduct(m, op, ls, c.h, c.j);
      OneMore(m, f, ls, c, rest);
      if rest == [] {
        NoneLeft(n, k - 1);
        assert ls[Shl(c.j, c.h)..] == LeavesUnder(ls, c);
      } else {
        PeaksProduct(m, op, ls, k - 1);
        var l, r := LeavesUnder(ls, c), ls[Shl(x, k - 1)..];
        MergesInOrder(m, op, Product(op, l), Product(op, r));
        OrderedAssociates(m, op);
        ProductSplit(op, l, r);
        assert ls[Shl(c.j, c.h)..] == l + r;
      }
    }
  }

  lemma OrderedAssociates<T(!new)>(m: Hasher<T>, op: (T, T) -> T)
    requires Ordered(m, op)
    ensures Associative(op)
  {
    hide Associative;
  }

  lemma MergesInOrder<T(!new)>(m: Hasher<T>, op: (T, T) -> T, l: T, r: T)
    requires Ordered(m, op)
    ensures m.mergePeaks(r, l) == op(l, r)
  {
    hide Associative;
  }

  lemma SomeBits(n: nat, k: nat)
    requires PeaksBelow(n, k) != []
    ensures k > 0
  {
  }

  lemma OneMore<T>(m: Hasher<T>, f: Combine<T>, ls: seq<T>, c: Coord, rest: seq<Coord>)
    requires InForest(|ls|, c) && AllIn(|ls|, rest)
    ensures AllIn(|ls|, [c] + rest)
    ensures Bag(m, Values(f, ls, [c] + rest))
            == if rest == [] then Node(f, ls, c.h, c.j) else m.mergePeaks(Bag(m, Values(f, ls, rest)), Node(f, ls, c.h, c.j))
  {
    hide InForest, Node;
    var vs := Values(f, ls, [c] + rest);
    assert vs == [Node(f, ls, c.h, c.j)] + Values(f, ls, rest);
  }

  /** The root is the product of all leaves, in the order they were pushed. */
  lemma RootIsProduct<T(!new)>(m: Hasher<T>, op: (T, T) -> T, ls: seq<T>)
    requires Ordered(m, op) && ls != []
    ensures Root(m, MmrCombine(m), ls) == Product(op, ls)
  {
    hide Shr, Shl, Product, Ordered, PeaksBelow, Values, MmrCombine;
    PeaksNotEmpty(|ls|);
    var k := BitLength(|ls|);
    BitLengthBounds(|ls|);
    PeaksProduct(m, op, ls, k);
    ShrZero(|ls|, k);
    ShlLinear(0, 0, k);
    assert ls[0..] == ls;
  }

  /** An item covers the leaves [a, b). */
  ghost predicate Covers<T>(m: Hasher<T>, op: (T, T) -> T, ls: seq<T>, v: T, a: nat, b: nat) {
    a < b <= |ls| && v == Product(op, ls[a..b])
  }

  lemma ItemCovers<T(!new)>(m: Hasher<T>, op: (T, T) -> T, ls: seq<T>, item: Item, k: nat)
    requires Ordered(m, op) && AllIn(|ls|, item) && (|item| == 1 || item == PeaksBelow(|ls|, k))
    ensures exists a: nat, b: nat :: Covers(m, op, ls, ItemValue(m, ls, item), a, b)
  {
    hide Shr, Shl, Product, Ordered, PeaksBelow, Node, MmrCombine, InForest;
    if |item| == 1 {
      var c := item[0];
      LeafRange(|ls|, c);
      NodeIsProduct(m, op, ls, c.h, c.j);
      assert Covers(m, op, ls, ItemValue(m, ls, item), Shl(c.j, c.h), Shl(c.j + 1, c.h));
    } else {
      PeaksProduct(m, op, ls, k);
      var a := Shl(Shr(|ls|, k), k);
      assert ls[a..] == ls[a..|ls|];
      assert Covers(m, op, ls, ItemValue(m, ls, item), a, |ls|);
    }
  }

  /** Items are single nodes, except for the bagged peaks at the end. */
  ghost predicate Shaped(n: nat, item: Item) {
    |item| == 1 || exists k: nat :: item == PeaksBelow(n, k)
  }

  lemma {:induction false} PlanShape(n: nat, leaves: seq<nat>, k: nat)
    ensures forall i :: 0 <= i < |Plan(n, leaves, k)| ==> Shaped(n, Plan(n, leaves, k)[i])
    decreases k
  {
    hide Shr, Shl, PeaksBelow, Siblings, CountBelow, MountainPlan;
    if leaves == [] {
      assert PeaksBelow(n, k) != [] ==> Shaped(n, PeaksBelow(n, k));
    } else if k > 0 {
      if Shr(n, k - 1) % 2 == 0 {
        PlanShape(n, leaves, k - 1);
      } else {
        var c := Coord(k - 1, Shr(n, k - 1) - 1);
        var t := CountBelow(leaves, Shl(c.j + 1, c.h));
        PlanShape(n, leaves[t..], k - 1);
        MountainShape(leaves[..t], c);
      }
    }
  }

  lemma MountainShape(here: seq<nat>, c: Coord)
    ensures forall i :: 0 <= i < |MountainPlan(here, c)| ==> |MountainPlan(here, c)[i]| == 1
  {
    hide Siblings;
  }

  /** Every item of a generated proof is the product of one contiguous run of leaves. */
  lemma ItemsAreRanges<T(!new)>(m: Hasher<T>, op: (T, T) -> T, ls: seq<T>, positions: seq<nat>)
    requires Ordered(m, op) && forall p :: p in positions ==> LeafPosition(|ls|, p)
    ensures forall v :: v in ProofItems(m, ls, positions) ==> exists a: nat, b: nat :: Covers(m, op, ls, v, a, b)
  {
    hide Ordered, PeaksBelow, MmrCombine, InForest, LeafPosition, LeafIndices, Plan, Covers, ItemValue;
    var n, k := |ls|, BitLength(|ls|);
    IndicesFrom(n, positions);
    PlanInForest(n, LeafIndices(positions), k);
    PlanShape(n, LeafIndices(positions), k);
    var plan := Plan(n, LeafIndices(positions), k);
    forall i | 0 <= i < |plan|
      ensures exists a: nat, b: nat :: Covers(m, op, ls, ItemValue(m, ls, plan[i]), a, b)
    {
      assert AllIn(n, plan[i]);
      assert Shaped(n, plan[i]);
      var g: nat :| |plan[i]| == 1 || plan[i] == PeaksBelow(n, g);
      ItemCovers(m, op, ls, plan[i], g);
    }
  }

  // ----- the number ranges of the sequence test -----

  datatype NumberRange = NumberRange(from: nat, to: nat)

  function Joined(l: NumberRange, r: NumberRange): NumberRange {
    NumberRange(l.from, r.to)
  }

  function RangeHasher(): Hasher<NumberRange> {
    Hasher((p: nat, l: NumberRange, r: NumberRange) => Joined(l, r), (l: NumberRange, r: NumberRange) => Joined(l, r),
           (l: NumberRange, r: NumberRange) => Joined(r, l))
  }

  lemma {:induction false} RangeProduct(s: seq<NumberRange>)
    requires s != []
    ensures Product(Joined, s) == NumberRange(s[0].from, s[|s| - 1].to)
  {
    if |s| > 1 {
      RangeProduct(s[1..]);
    }
  }

  /** Pushing the numbers 0 to n - 1: the root spans them all and no proof item runs backwards. */
  lemma RangesStayNormal(ls: seq<NumberRange>, positions: seq<nat>)
    requires ls != [] && forall i :: 0 <= i < |ls| ==> ls[i] == NumberRange(i, i)
    requires forall p :: p in positions ==> LeafPosition(|ls|, p)
    ensures Root(RangeHasher(), MmrCombine(RangeHasher()), ls) == NumberRange(0, |ls| - 1)
    ensures forall v :: v in ProofItems(RangeHasher(), ls, positions) ==> v.from <= v.to
  {
    hide MmrCombine, LeafPosition, ProofItems, Root, Product;
    assert Ordered(RangeHasher(), Joined);
    RootIsProduct(RangeHasher(), Joined, ls);
    RangeProduct(ls);
    ItemsAreRanges(RangeHasher(), Joined, ls, positions);
    forall v | v in ProofItems(RangeHasher(), ls, positions)
      ensures v.from <= v.to
    {
      var a: nat, b: nat :| Covers(RangeHasher(), Joined, ls, v, a, b);
      RangeProduct(ls[a..b]);
    }
  }
}
