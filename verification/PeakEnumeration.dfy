/** The order both peak iterators give: mountains from left to right, from high to low. */
module PeakEnumeration {
  import opened Bits
  import opened Forest
  import opened Helper
  import opened MmriverPaths
  import opened MmriverCompleteness

  /** The first position of the mountain of c. */
  function First(c: Coord): nat {
    Size(Shl(c.j, c.h))
  }

  /** A subtree takes up the positions from its first leaf to its root, and those only. */
  lemma {:induction false} SubtreeInterval(g: nat, i: nat, h: nat, j: nat)
    ensures Under(g, i, h, j) <==> Pos(h, j) + 2 - Pow2(h + 1) <= Pos(g, i) <= Pos(h, j)
    decreases h
  {
    hide Pos, Pow2, Shr;
    if h == 0 {
      LeafInterval(g, i, j);
    } else {
      SubtreeInterval(g, i, h - 1, 2 * j);
      SubtreeInterval(g, i, h - 1, 2 * j + 1);
      Family(h - 1, j);
      Pow2Succ(h);
      UnderChildren(g, i, h, j);
      if Pos(g, i) == Pos(h, j) { PosInjective(Coord(g, i), Coord(h, j)); }
    }
  }

  lemma LeafInterval(g: nat, i: nat, j: nat)
    ensures Pow2(1) == 2
    ensures Under(g, i, 0, j) <==> Pos(g, i) == Pos(0, j)
  {
    hide Pos;
    assert Pow2(1) == 2 * Pow2(0);
    if Pos(g, i) == Pos(0, j) { PosInjective(Coord(g, i), Coord(0, j)); }
  }

  lemma UnderChildren(g: nat, i: nat, h: nat, j: nat)
    requires h > 0
    ensures Under(g, i, h, j) <==>
            (g == h && i == j) || Under(g, i, h - 1, 2 * j) || Under(g, i, h - 1, 2 * j + 1)
  {
    if g < h { ShrStep(i, h - 1 - g); }
  }

  /** The next mountain begins where the one before it ends. */
  ghost predicate Tiled(cs: seq<Coord>, start: nat, end: nat) {
    && (cs == [] ==> start == end)
    && (cs != [] ==> First(cs[0]) == start && Pos(cs[|cs| - 1].h, cs[|cs| - 1].j) + 1 == end)
    && forall a :: 0 < a < |cs| ==> First(cs[a]) == Pos(cs[a - 1].h, cs[a - 1].j) + 1
  }

  lemma TiledCons(c: Coord, cs: seq<Coord>, start: nat, end: nat)
    requires Tiled(cs, Pos(c.h, c.j) + 1, end) && First(c) == start
    ensures Tiled([c] + cs, start, end)
  {
    hide Pos, First;
    var all := [c] + cs;
    assert cs == [] ==> all == [c];
    forall a | 0 < a < |all|
      ensures First(all[a]) == Pos(all[a - 1].h, all[a - 1].j) + 1
    {
      assert all[a] == cs[a - 1];
      if a > 1 { assert all[a - 1] == cs[a - 2] && First(cs[a - 1]) == Pos(cs[a - 2].h, cs[a - 2].j) + 1; }
    }
  }

  /** A peak and its mountain's end. */
  lemma MountainEnd(h: nat, j: nat)
    requires j % 2 == 0
    ensures Pos(h, j) + 1 == Size(Shl(j + 1, h))
    ensures Pos(h, j) + 2 - Pow2(h + 1) == First(Coord(h, j))
  {
    hide Size, Pos, Shl, Pow2;
    PosFromFirstLeaf(h, j);
    SizeOddRow(j / 2, h);
    assert 2 * (j / 2) == j;
  }

  lemma {:induction false} PeaksTile(n: nat, k: nat)
    ensures Tiled(PeaksBelow(n, k), Size(Shl(Shr(n, k), k)), Size(n))
    decreases k
  {
    hide Size, Pos, Shl, Shr, PeaksBelow, Tiled, Pow2;
    if k == 0 {
      NoTiles(n);
    } else {
      PeaksTile(n, k - 1);
      PeaksBelowStep(n, k);
      var x := Shr(n, k - 1);
      ShrStep(n, k - 1);
      ShlHalves(Shr(n, k), k - 1);
      if x % 2 == 1 {
        MountainEnd(k - 1, x - 1);
        TiledCons(Coord(k - 1, x - 1), PeaksBelow(n, k - 1), Size(Shl(x - 1, k - 1)), Size(n));
      }
    }
  }

  lemma NoTiles(n: nat)
    ensures Tiled(PeaksBelow(n, 0), Size(Shl(Shr(n, 0), 0)), Size(n))
  {
    hide Size;
  }

  /**
   The peaks of n leaves: one for each set bit of n, heights falling, positions rising, mountains side
   by side from position 0 to the last.
   */
  lemma PeakOrder(n: nat)
    ensures forall h: nat :: Shr(n, h) % 2 == 1 <==> exists a :: 0 <= a < |Peaks(n)| && Peaks(n)[a].h == h
    ensures forall a, b :: 0 <= a < b < |Peaks(n)| ==> Peaks(n)[a].h > Peaks(n)[b].h
    ensures forall a, b :: 0 <= a < b < |Positions(Peaks(n))| ==> Positions(Peaks(n))[a] < Positions(Peaks(n))[b]
    ensures Tiled(Peaks(n), 0, Size(n))
  {
    hide Size, Pos, Shr, Shl, PeaksBelow, Tiled;
    PeaksDescend(n, BitLength(n));
    PeaksTile(n, BitLength(n));
    if n > 0 { BitLengthBounds(n); }
    BitLengthBelow(0, 0);
    ShrZero(n, BitLength(n));
    ZeroStart(BitLength(n));
    forall h: nat
      ensures Shr(n, h) % 2 == 1 <==> exists a :: 0 <= a < |Peaks(n)| && Peaks(n)[a].h == h
    {
      BitIsPeak(n, h);
    }
    forall a, b | 0 <= a < b < |Peaks(n)|
      ensures Pos(Peaks(n)[a].h, Peaks(n)[a].j) < Pos(Peaks(n)[b].h, Peaks(n)[b].j)
    {
      PeaksRise(n, a, b);
    }
  }

  lemma ZeroStart(k: nat)
    ensures Shl(0, k) == 0 && Size(0) == 0
  {
    ShlLinear(0, 0, k);
  }

  lemma BitIsPeak(n: nat, h: nat)
    ensures Shr(n, h) % 2 == 1 <==> exists a :: 0 <= a < |Peaks(n)| && Peaks(n)[a].h == h
  {
    hide Peaks, Shr;
    if Shr(n, h) % 2 == 1 {
      PeaksMember(n, Coord(h, Shr(n, h) - 1));
    }
    forall a | 0 <= a < |Peaks(n)| && Peaks(n)[a].h == h
      ensures Shr(n, h) % 2 == 1
    {
      PeaksMember(n, Peaks(n)[a]);
    }
  }

  /** A higher peak lies left of a lower one. */
  lemma PeaksRise(n: nat, a: nat, b: nat)
    requires a < b < |Peaks(n)|
    ensures Pos(Peaks(n)[a].h, Peaks(n)[a].j) < Pos(Peaks(n)[b].h, Peaks(n)[b].j)
  {
    hide Size, Pos, Shr, Shl, PeaksBelow, Peaks;
    var c, d := Peaks(n)[a], Peaks(n)[b];
    PeakHeights(n, a, b);
    PeaksMember(n, c);
    PeaksMember(n, d);
    MountainEnd(c.h, c.j);
    PosFromFirstLeaf(d.h, d.j);
    PowerRoom(d.h);
    LowerStartsLater(n, c.h, d.h);
    SizeMono(Shl(c.j + 1, c.h), Shl(d.j, d.h));
  }

  lemma PowerRoom(h: nat)
    ensures Pow2(h + 1) >= 2
  {
  }

  /** Every position lies in exactly one mountain: the one whose stretch of positions holds it. */
  lemma MountainOf(n: nat, p: nat) returns (a: nat)
    requires p < Size(n)
    ensures a < |Peaks(n)| && Under(Height(p), Block(p), Peaks(n)[a].h, Peaks(n)[a].j)
    ensures First(Peaks(n)[a]) <= p <= Pos(Peaks(n)[a].h, Peaks(n)[a].j)
    ensures forall b :: 0 <= b < |Peaks(n)| && b != a ==>
              && !Under(Height(p), Block(p), Peaks(n)[b].h, Peaks(n)[b].j)
              && !(First(Peaks(n)[b]) <= p <= Pos(Peaks(n)[b].h, Peaks(n)[b].j))
  {
    hide Size, Pos, Shr, Shl, Peaks, Height, Block, Reached, Under, IsPeak, First, Pow2;
    var h, j := Height(p), Block(p);
    PosOfCoord(p);
    InForestPos(n, h, j);
    ReachesPeak(n, h, j);
    var top := Reached(Size(n) - 1, h, j);
    a :| 0 <= a < |Peaks(n)| && Peaks(n)[a] == top;
    MountainInterval(n, h, j, a);
    forall b | 0 <= b < |Peaks(n)| && b != a
      ensures !Under(h, j, Peaks(n)[b].h, Peaks(n)[b].j)
              && !(First(Peaks(n)[b]) <= p <= Pos(Peaks(n)[b].h, Peaks(n)[b].j))
    {
      MountainInterval(n, h, j, b);
      if Under(h, j, Peaks(n)[b].h, Peaks(n)[b].j) {
        PeaksMember(n, Peaks(n)[a]);
        PeaksMember(n, Peaks(n)[b]);
        CoverUnique(n, h, j, Peaks(n)[a], Peaks(n)[b]);
        if a < b { PeakHeights(n, a, b); } else { PeakHeights(n, b, a); }
      }
    }
  }

  lemma MountainInterval(n: nat, g: nat, i: nat, b: nat)
    requires b < |Peaks(n)|
    ensures var c := Peaks(n)[b];
            Under(g, i, c.h, c.j) <==> First(c) <= Pos(g, i) <= Pos(c.h, c.j)
  {
    hide Size, Pos, Shr, Shl, Peaks, Under, First, Pow2;
    var c := Peaks(n)[b];
    PeaksMember(n, c);
    MountainEnd(c.h, c.j);
    SubtreeInterval(g, i, c.h, c.j);
  }

  // ----- the array, told without any arithmetic -----

  /** A perfect tree in post order. */
  function PostOrder(h: nat, j: nat): seq<Coord> {
    if h == 0 then [Coord(0, j)] else PostOrder(h - 1, 2 * j) + PostOrder(h - 1, 2 * j + 1) + [Coord(h, j)]
  }

  /** The mountains one after the other. */
  function Layout(peaks: seq<Coord>): seq<Coord> {
    if peaks == [] then [] else PostOrder(peaks[0].h, peaks[0].j) + Layout(peaks[1..])
  }

  /** These nodes fill the positions from `start` on, in this order. */
  ghost predicate Fills(cs: seq<Coord>, start: nat) {
    forall k :: 0 <= k < |cs| ==> Pos(cs[k].h, cs[k].j) == start + k
  }

  lemma FillsAppend(a: seq<Coord>, b: seq<Coord>, start: nat)
    requires Fills(a, start) && Fills(b, start + |a|)
    ensures Fills(a + b, start)
  {
    hide Pos;
    forall k | 0 <= k < |a + b|
      ensures Pos((a + b)[k].h, (a + b)[k].j) == start + k
    {
      if k >= |a| { assert (a + b)[k] == b[k - |a|]; }
    }
  }

  lemma {:induction false} PostOrderFills(h: nat, j: nat)
    ensures Pos(h, j) + 2 >= Pow2(h + 1) && |PostOrder(h, j)| == Pow2(h + 1) - 1
    ensures Fills(PostOrder(h, j), Pos(h, j) + 2 - Pow2(h + 1))
    decreases h
  {
    hide Pos, Pow2, Fills;
    if h == 0 {
      OneFills(j);
    } else {
      PostOrderFills(h - 1, 2 * j);
      PostOrderFills(h - 1, 2 * j + 1);
      Family(h - 1, j);
      Pow2Succ(h);
      RootFills(h, j);
      var start := Pos(h, j) + 2 - Pow2(h + 1);
      FillsAppend(PostOrder(h - 1, 2 * j), PostOrder(h - 1, 2 * j + 1), start);
      FillsAppend(PostOrder(h - 1, 2 * j) + PostOrder(h - 1, 2 * j + 1), [Coord(h, j)], start);
    }
  }

  lemma OneFills(j: nat)
    ensures Pow2(1) == 2 && Fills(PostOrder(0, j), Pos(0, j)) && |PostOrder(0, j)| == 1
  {
    hide Pos;
    assert Pow2(1) == 2 * Pow2(0);
  }

  lemma RootFills(h: nat, j: nat)
    ensures Fills([Coord(h, j)], Pos(h, j))
  {
    hide Pos;
  }

  lemma {:induction false} LayoutFills(peaks: seq<Coord>, start: nat, end: nat)
    requires Tiled(peaks, start, end)
    requires forall a :: 0 <= a < |peaks| ==> peaks[a].j % 2 == 0
    ensures |Layout(peaks)| == end - start && Fills(Layout(peaks), start)
  {
    hide Pos, Pow2, PostOrder, Size, Shl;
    if peaks != [] {
      var c, rest := peaks[0], peaks[1..];
      PostOrderFills(c.h, c.j);
      MountainEnd(c.h, c.j);
      TiledTail(peaks, start, end);
      LayoutFills(rest, Pos(c.h, c.j) + 1, end);
      hide Fills;
      FillsAppend(PostOrder(c.h, c.j), Layout(rest), start);
    }
  }

  lemma TiledTail(cs: seq<Coord>, start: nat, end: nat)
    requires Tiled(cs, start, end) && cs != []
    ensures Tiled(cs[1..], Pos(cs[0].h, cs[0].j) + 1, end)
  {
    hide Pos, First;
    var rest := cs[1..];
    if rest != [] { assert First(cs[1]) == Pos(cs[0].h, cs[0].j) + 1; }
    forall a | 0 < a < |rest|
      ensures First(rest[a]) == Pos(rest[a - 1].h, rest[a - 1].j) + 1
    {
      assert First(cs[a + 1]) == Pos(cs[a].h, cs[a].j) + 1;
    }
  }

  /** The array is the forest's mountains in post order, so positions, heights and blocks are what they say. */
  lemma ArrayIsPostOrder(n: nat)
    ensures |Layout(Peaks(n))| == Size(n)
    ensures forall p :: 0 <= p < Size(n) ==> CoordAt(p) == Layout(Peaks(n))[p]
  {
    hide Pos, Size, Peaks, Layout, Tiled, Height, Block, Shr;
    PeakOrder(n);
    forall a | 0 <= a < |Peaks(n)|
      ensures Peaks(n)[a].j % 2 == 0
    {
      PeaksMember(n, Peaks(n)[a]);
    }
    LayoutFills(Peaks(n), 0, Size(n));
    forall p | 0 <= p < Size(n)
      ensures CoordAt(p) == Layout(Peaks(n))[p]
    {
      var c := Layout(Peaks(n))[p];
      assert Pos(c.h, c.j) == 0 + p;
      CoordOfPos(c.h, c.j);
    }
  }

  /** The closed forms count positions of that array: all of it, and those before a leaf. */
  lemma SizeCountsArray(index: u64)
    requires index < 0x7FFF_FFFF_FFFF_FFFF
    ensures |Layout(Peaks(index + 1))| == LeafIndexToMmrSize(index)
    ensures |Layout(Peaks(index))| == LeafIndexToPos(index) < LeafIndexToMmrSize(index)
    ensures Layout(Peaks(index + 1))[LeafIndexToPos(index)] == Coord(0, index)
  {
    hide Layout, Peaks, Size, Height, Block, PopCount, TrailingZeros;
    ArrayIsPostOrder(index + 1);
    ArrayIsPostOrder(index);
    SizeMono(index, index + 1);
    LeafIndexInverse(index);
  }
}
