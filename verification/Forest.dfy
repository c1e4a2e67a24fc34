/**
 The forest behind the flat array, written once and shared by both structures.

 The node of height h over the leaves [j * 2^h, (j + 1) * 2^h) has coordinates (h, j); `Pos`
 places it in the post-order array. A forest of n leaves holds exactly the nodes with
 j < n / 2^h, and its size is 2n minus the number of set bits of n.
 */
module Forest {
  import opened Bits

  datatype Coord = Coord(h: nat, j: nat)

  /** Positions taken by a forest of n leaves. */
  function Size(n: nat): (s: nat)
    ensures n <= s <= 2 * n
    ensures n > 0 ==> s > 0
  {
    2 * n - PopCount(n)
  }

  function Pos(h: nat, j: nat): (p: nat)
    ensures p >= h
  {
    assert PopCount(j) <= j;
    PosRoom(h, j);
    Shl(2 * (j + 1), h) - PopCount(j) - 2
  }

  lemma {:induction false} PosRoom(h: nat, j: nat)
    ensures Shl(2 * (j + 1), h) >= 2 * (j + 1) + h
  {
    if h > 0 {
      PosRoom(h - 1, j);
    }
  }

  /** The other child of the same parent. */
  function Sib(j: nat): (s: nat)
    ensures s / 2 == j / 2 && s != j && (s == j + 1 || s == j - 1)
  {
    if j % 2 == 0 then j + 1 else j - 1
  }

  ghost predicate InForest(n: nat, c: Coord) {
    c.j < Shr(n, c.h)
  }

  /** The leaf whose push creates the node (h, j). */
  function LastLeaf(h: nat, j: nat): nat {
    Shl(j + 1, h) - 1
  }

  lemma SizeSucc(n: nat)
    ensures Size(n + 1) == Size(n) + 1 + TrailingZeros(n + 1)
  {
    PopCountSucc(n);
  }

  lemma {:induction false} SizeMono(a: nat, b: nat)
    requires a <= b
    ensures Size(a) + (b - a) <= Size(b)
    decreases b - a
  {
    if a < b {
      SizeMono(a, b - 1);
      SizeSucc(b - 1);
    }
  }

  lemma {:induction false} SizeShl(x: nat, k: nat)
    ensures Size(Shl(x, k)) == Shl(2 * x, k) - PopCount(x)
  {
    PopCountShl(x, k);
    ShlLinear(x, 0, k);
  }

  /** A perfect tree alone. */
  lemma SizePow2(k: nat)
    ensures Size(Pow2(k)) == Pow2(k + 1) - 1
  {
    SizeShl(1, k);
    ShlShl(1, 1, k);
    ShlShl(1, k, 1);
  }

  // ----- the leaf count of a size -----

  ghost predicate FitsExactly(n: nat, s: nat) {
    Size(n) <= s < Size(n + 1)
  }

  lemma {:induction false} MaxLeavesExists(s: nat)
    ensures exists n: nat :: FitsExactly(n, s)
  {
    hide Size;
    if s == 0 {
      SizeSucc(0);
      assert FitsExactly(0, s);
    } else {
      MaxLeavesExists(s - 1);
      var n: nat :| FitsExactly(n, s - 1);
      SizeSucc(n + 1);
      assert FitsExactly(n, s) || FitsExactly(n + 1, s);
    }
  }

  /** The largest n whose forest fits in s positions. */
  ghost function MaxLeaves(s: nat): (n: nat)
    ensures Size(n) <= s < Size(n + 1)
  {
    MaxLeavesExists(s);
    var n: nat :| FitsExactly(n, s);
    n
  }

  lemma MaxLeavesUnique(s: nat, n: nat)
    requires Size(n) <= s < Size(n + 1)
    ensures MaxLeaves(s) == n
  {
    hide Size;
    var m := MaxLeaves(s);
    if m < n { SizeMono(m + 1, n); }
    if n < m { SizeMono(n + 1, m); }
  }

  lemma MaxLeavesOfSize(n: nat)
    ensures MaxLeaves(Size(n)) == n
  {
    SizeMono(n, n + 1);
    MaxLeavesUnique(Size(n), n);
  }

  // ----- positions and coordinates -----

  /** The height of a position: how far it lies beyond the last complete size. */
  ghost function Height(p: nat): nat {
    p - Size(MaxLeaves(p))
  }

  ghost function Block(p: nat): nat {
    Shr(MaxLeaves(p), Height(p))
  }

  ghost function CoordAt(p: nat): Coord {
    Coord(Height(p), Block(p))
  }

  lemma PopCountLastLeaf(h: nat, j: nat)
    ensures PopCount(LastLeaf(h, j)) == PopCount(j) + h
    ensures TrailingZeros(LastLeaf(h, j) + 1) == h + TrailingZeros(j + 1)
  {
    hide PopCount, TrailingZeros;
    PopCountSucc(LastLeaf(h, j));
    PopCountShl(j + 1, h);
    TrailingZerosShl(j + 1, h);
    PopCountSucc(j);
  }

  lemma PosFromLastLeaf(h: nat, j: nat)
    ensures Pos(h, j) == Size(LastLeaf(h, j)) + h
    ensures Size(LastLeaf(h, j) + 1) == Pos(h, j) + 1 + TrailingZeros(j + 1)
  {
    hide PopCount, TrailingZeros, Shl;
    PopCountLastLeaf(h, j);
    ShlLinear(j + 1, 0, h);
    SizeSucc(LastLeaf(h, j));
  }

  /** Every node sits at its own position, and the position tells which node it is. */
  lemma CoordOfPos(h: nat, j: nat)
    ensures MaxLeaves(Pos(h, j)) == LastLeaf(h, j)
    ensures Height(Pos(h, j)) == h && Block(Pos(h, j)) == j
  {
    hide Size, Pos, Shl, Shr, MaxLeaves, TrailingZeros;
    var l := LastLeaf(h, j);
    PosFromLastLeaf(h, j);
    MaxLeavesUnique(Pos(h, j), l);
    ShlShr(j + 1, l, h);
    ShlShr(j, l, h);
    ShlLinear(j, 1, h);
  }

  lemma LastLeafShr(n: nat, h: nat)
    requires h <= TrailingZeros(n + 1)
    ensures LastLeaf(h, Shr(n, h)) == n
  {
    hide Shl, Shr, TrailingZeros;
    var x := Shr(n + 1, h);
    TrailingZerosMultiple(n + 1, h);
    ShlLinear(0, 0, h);
    assert x > 0;
    ShlLinear(x - 1, 1, h);
    ShlShr(x - 1, n, h);
    ShlShr(x, n, h);
  }

  /** Every position holds a node. */
  lemma PosOfCoord(p: nat)
    ensures Pos(Height(p), Block(p)) == p
    ensures LastLeaf(Height(p), Block(p)) == MaxLeaves(p)
  {
    hide Size, Pos, LastLeaf, Shr;
    var n, h, j := MaxLeaves(p), Height(p), Block(p);
    SizeSucc(n);
    LastLeafShr(n, h);
    assert Pos(h, j) == Size(n) + h by { PosFromLastLeaf(h, j); }
  }

  lemma PosInjective(a: Coord, b: Coord)
    requires Pos(a.h, a.j) == Pos(b.h, b.j)
    ensures a == b
  {
    CoordOfPos(a.h, a.j);
    CoordOfPos(b.h, b.j);
  }

  /** A forest of n leaves holds exactly the nodes placed below its size. */
  lemma InForestPos(n: nat, h: nat, j: nat)
    ensures Pos(h, j) < Size(n) <==> InForest(n, Coord(h, j))
  {
    hide Size, Pos, Shl, Shr;
    var l := LastLeaf(h, j);
    PosFromLastLeaf(h, j);
    ShlShr(j + 1, n, h);
    if l < n { SizeMono(l + 1, n); } else { SizeMono(n, l); }
  }

  lemma PopCountChildren(j: nat)
    ensures PopCount(2 * j) == PopCount(j) && PopCount(2 * j + 1) == PopCount(j) + 1
  {
    assert (2 * j) / 2 == j && (2 * j + 1) / 2 == j;
  }

  lemma ShlChildren(h: nat, j: nat)
    ensures Shl(2 * (2 * j + 1 + 1), h) == 2 * Shl(2 * (j + 1), h)
    ensures Shl(2 * (2 * j + 1), h) == 2 * Shl(2 * (j + 1), h) - Pow2(h + 1)
  {
    var a, b := 2 * (j + 1), 2 * (2 * j + 1);
    ShlLinear(a, 0, h);
    assert 2 * (2 * j + 1 + 1) == 2 * a == b + 2;
    ShlLinear(b, 2, h);
    ShlLinear(1, 1, h);
  }

  /** The parent of a right child is the next position; the distances of the left child. */
  lemma Family(h: nat, j: nat)
    ensures Pos(h, 2 * j + 1) == Pos(h, 2 * j) + Pow2(h + 1) - 1
    ensures Pos(h + 1, j) == Pos(h, 2 * j) + Pow2(h + 1)
    ensures Pos(h + 1, j) == Pos(h, 2 * j + 1) + 1
  {
    PopCountChildren(j);
    ShlChildren(h, j);
    assert Shl(2 * (j + 1), h + 1) == 2 * Shl(2 * (j + 1), h);
  }

  /** The same for an arbitrary child, with the offsets the source uses. */
  lemma FamilyOf(h: nat, j: nat)
    ensures j % 2 == 1 ==> Pos(h, Sib(j)) == Pos(h, j) - (Pow2(h + 1) - 1) && Pos(h + 1, j / 2) == Pos(h, j) + 1
    ensures j % 2 == 0 ==> Pos(h, Sib(j)) == Pos(h, j) + (Pow2(h + 1) - 1)
                           && Pos(h + 1, j / 2) == Pos(h, j) + Pow2(h + 1)
    ensures Pos(h, j) < Pos(h + 1, j / 2)
  {
    hide Pos, Pow2;
    Family(h, j / 2);
  }

  lemma LeafPos(i: nat)
    ensures Pos(0, i) == Size(i) && Height(Size(i)) == 0 && Block(Size(i)) == i
  {
    hide PopCount;
    CoordOfPos(0, i);
  }

  lemma AfterLeftChild(h: nat, j: nat)
    requires TrailingZeros(j + 1) == 0
    ensures Height(Pos(h, j) + 1) == 0
  {
    var l, p := LastLeaf(h, j) + 1, Pos(h, j) + 1;
    assert p == Size(l) by { PosFromLastLeaf(h, j); }
    LeafPos(l);
  }

  /** The test both structures climb by: the next position is higher exactly after a right child. */
  lemma NextHeight(h: nat, j: nat)
    ensures Height(Pos(h, j) + 1) > h <==> j % 2 == 1
    ensures j % 2 == 1 ==> Height(Pos(h, j) + 1) == h + 1
    ensures j % 2 == 0 ==> Height(Pos(h, j) + 1) == 0
  {
    hide Height, Pos, TrailingZeros, Block, MaxLeaves, Pow2, LastLeaf;
    if j % 2 == 1 {
      FamilyOf(h, j);
      CoordOfPos(h + 1, j / 2);
    } else {
      OddTrails(j + 1);
      AfterLeftChild(h, j);
    }
  }

  lemma OddTrails(x: nat)
    requires x % 2 == 1
    ensures TrailingZeros(x) == 0
  {
  }

  lemma PosUnfolded(h: nat, j: nat)
    ensures Pos(h, j) == Shl(2 * j + 2, h) - PopCount(j) - 2
  {
    hide Shl, PopCount;
    assert 2 * (j + 1) == 2 * j + 2;
  }

  /** A mountain ends at its own position. */
  lemma PosFromFirstLeaf(h: nat, j: nat)
    ensures Pos(h, j) == Size(Shl(j, h)) + Pow2(h + 1) - 2
  {
    hide *;
    PosUnfolded(h, j);
    SizeShl(j, h);
    ShlLinear(2 * j, 2, h);
    ShlTwo(h);
  }

  lemma PosRowMono(h: nat, a: nat, b: nat)
    requires a < b
    ensures Pos(h, a) < Pos(h, b)
  {
    hide Size, Pos, Shl;
    PosFromLastLeaf(h, a);
    PosFromLastLeaf(h, b);
    ShlMono(a + 1, b, h);
    ShlLinear(b, 1, h);
    SizeMono(LastLeaf(h, a), LastLeaf(h, b));
  }

  /** (g, i) lies in the subtree of (h, j). */
  ghost predicate Under(g: nat, i: nat, h: nat, j: nat) {
    g <= h && Shr(i, h - g) == j
  }

  lemma {:induction false} UnderPos(g: nat, i: nat, h: nat, j: nat)
    requires Under(g, i, h, j)
    ensures Pos(g, i) <= Pos(h, j)
    ensures Pos(g, i) == Pos(h, j) <==> g == h
    decreases h - g
  {
    hide Pos;
    if g < h {
      UnderPos(g + 1, i / 2, h, j);
      FamilyOf(g, i);
    }
  }

  lemma UnderInForest(n: nat, g: nat, i: nat, h: nat, j: nat)
    requires Under(g, i, h, j) && InForest(n, Coord(h, j))
    ensures InForest(n, Coord(g, i))
  {
    ShrShr(n, g, h - g);
    ShrLess(i, Shr(n, g), h - g);
  }

  lemma ChildrenInForest(n: nat, h: nat, j: nat)
    requires InForest(n, Coord(h + 1, j))
    ensures InForest(n, Coord(h, 2 * j)) && InForest(n, Coord(h, 2 * j + 1))
  {
    ShrStep(n, h);
  }

  // ----- peaks -----

  /** The peaks of an n-leaf forest of height below k, left to right. */
  function PeaksBelow(n: nat, k: nat): seq<Coord> {
    if k == 0 then []
    else (if Shr(n, k - 1) % 2 == 1 then [Coord(k - 1, Shr(n, k - 1) - 1)] else []) + PeaksBelow(n, k - 1)
  }

  function Peaks(n: nat): seq<Coord> {
    PeaksBelow(n, BitLength(n))
  }

  lemma {:induction false} PeaksFrom(n: nat, k: nat)
    requires BitLength(n) <= k
    ensures PeaksBelow(n, k) == Peaks(n)
  {
    if BitLength(n) < k {
      PeaksFrom(n, k - 1);
      if n > 0 {
        BitLengthBounds(n);
        Pow2Mono(BitLength(n), k - 1);
      }
      ShrZero(n, k - 1);
      assert Pow2(k - 1) >= 1;
    }
  }

  ghost predicate IsPeak(n: nat, c: Coord) {
    Shr(n, c.h) % 2 == 1 && c.j == Shr(n, c.h) - 1
  }

  lemma {:induction false} PeaksBelowMember(n: nat, k: nat, c: Coord)
    ensures c in PeaksBelow(n, k) <==> IsPeak(n, c) && c.h < k
  {
    if k > 0 {
      PeaksBelowMember(n, k - 1, c);
      PeaksBelowStep(n, k);
    }
  }

  lemma PeaksMember(n: nat, c: Coord)
    ensures c in Peaks(n) <==> IsPeak(n, c)
  {
    if IsPeak(n, c) {
      PeaksFrom(n, BitLength(n) + c.h + 1);
      PeaksBelowMember(n, BitLength(n) + c.h + 1, c);
    }
    PeaksBelowMember(n, BitLength(n), c);
  }

  lemma PeaksInForest(n: nat, c: Coord)
    requires c in Peaks(n)
    ensures InForest(n, c)
  {
    PeaksMember(n, c);
  }

  /** The highest bit below k decides whether another peak comes first. */
  lemma PeaksBelowStep(n: nat, k: nat)
    requires k > 0
    ensures Shr(n, k - 1) % 2 == 1 ==> PeaksBelow(n, k) == [Coord(k - 1, Shr(n, k - 1) - 1)] + PeaksBelow(n, k - 1)
    ensures Shr(n, k - 1) % 2 == 0 ==> PeaksBelow(n, k) == PeaksBelow(n, k - 1)
  {
    hide Shr;
    assert [] + PeaksBelow(n, k - 1) == PeaksBelow(n, k - 1);
  }

  /** Heights fall from node to node, from below k on. */
  ghost predicate Descending(cs: seq<Coord>, k: nat) {
    && (forall a, b :: 0 <= a < b < |cs| ==> cs[a].h > cs[b].h)
    && (forall a :: 0 <= a < |cs| ==> cs[a].h < k)
  }

  lemma DescendingCons(c: Coord, cs: seq<Coord>)
    requires Descending(cs, c.h)
    ensures Descending(cs, c.h + 1) && Descending([c] + cs, c.h + 1)
  {
    forall a, b | 0 <= a < b < |[c] + cs|
      ensures ([c] + cs)[a].h > ([c] + cs)[b].h
    {
      assert ([c] + cs)[b] == cs[b - 1];
      if a > 0 { assert ([c] + cs)[a] == cs[a - 1]; }
    }
  }

  lemma {:induction false} PeaksDescend(n: nat, k: nat)
    ensures Descending(PeaksBelow(n, k), k)
  {
    hide Shr, PeaksBelow, Descending;
    if k > 0 {
      PeaksDescend(n, k - 1);
      PeaksBelowStep(n, k);
      DescendingCons(Coord(k - 1, if Shr(n, k - 1) > 0 then Shr(n, k - 1) - 1 else 0), PeaksBelow(n, k - 1));
    } else {
      NoPeaksBelow(n);
    }
  }

  lemma NoPeaksBelow(n: nat)
    ensures PeaksBelow(n, 0) == [] && Descending(PeaksBelow(n, 0), 0)
  {
  }

  lemma PeakHeights(n: nat, a: nat, b: nat)
    requires a < b < |Peaks(n)|
    ensures Peaks(n)[a].h > Peaks(n)[b].h
  {
    PeaksDescend(n, BitLength(n));
  }

  /** A lower mountain begins where the higher ones have ended. */
  lemma LowerStartsLater(n: nat, h: nat, g: nat)
    requires g < h && Shr(n, g) % 2 == 1
    ensures Shl(Shr(n, h), h) <= Shl(Shr(n, g) - 1, g)
  {
    hide Shl, Shr;
    var x := Shr(n, g) - 1;
    ShrShr(n, g, 1);
    ShrShr(n, g + 1, h - g - 1);
    ShrShr(x, 1, h - g - 1);
    HalfOfOdd(Shr(n, g));
    ShlShr(Shr(n, h), x, h - g);
    ShlShl(Shr(n, h), h - g, g);
    ShlMono(Shl(Shr(n, h), h - g), x, g);
  }

  lemma HalfOfOdd(x: nat)
    requires x % 2 == 1
    ensures Shr(x, 1) == x / 2 && Shr(x - 1, 1) == x / 2
  {
  }

  lemma SmallPeaks()
    ensures Peaks(1) == [Coord(0, 0)] && BitLength(1) == 1
    ensures Peaks(3) == [Coord(1, 0), Coord(0, 2)]
  {
    assert BitLength(1) == 1 && BitLength(3) == 2;
    assert Shr(3, 1) == 1 && Shr(3, 0) == 3 && Shr(1, 0) == 1;
    assert PeaksBelow(1, 0) == [] && PeaksBelow(3, 0) == [];
    assert PeaksBelow(3, 1) == [Coord(0, 2)] + [];
    assert PeaksBelow(3, 2) == [Coord(1, 0)] + PeaksBelow(3, 1);
  }

  function Positions(cs: seq<Coord>): seq<nat> {
    seq(|cs|, i requires 0 <= i < |cs| => Pos(cs[i].h, cs[i].j))
  }

  lemma PositionsAppend(a: seq<Coord>, b: seq<Coord>)
    ensures Positions(a + b) == Positions(a) + Positions(b)
  {
    hide Pos;
  }

  lemma SizeAboveOne(n: nat)
    ensures n > 1 ==> Size(n) > 2
  {
    hide Size;
    SizeOne();
    if n > 1 { SizeMono(2, n); }
  }

  lemma SizeOne()
    ensures Peaks(1) == [Coord(0, 0)] && Size(2) == 3
  {
    assert PeaksBelow(1, 0) == [];
  }
}
