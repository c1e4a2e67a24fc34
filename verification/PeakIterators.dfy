/**
 The two peak iterators of `src/helper.rs`. Both walk the set bits of the leaf count from the
 highest down; `Remaining` is the part of the forest's peaks still to come.
 */
module PeakIterators {
  import opened Bits
  import opened Forest
  import opened Helper
  import opened Wrappers

  // ----- PeaksIter: the greedy decomposition, paused at every hit -----

  /** In every greedy state m is the leaf count without its k lowest bits. */
  lemma GreedyBits(s: nat, pos: int, peakSize: int, m: nat, k: nat)
    requires Greedy(s, pos, peakSize, m, k)
    ensures Shr(MaxLeaves(s), k) == m
  {
    hide Size, Shl, Shr;
    var n := MaxLeaves(s);
    if n < Shl(m, k) { SizeMono(n + 1, Shl(m, k)); }
    if Shl(m + 1, k) <= n { SizeMono(Shl(m + 1, k), n); }
    ShlShr(m, n, k);
    ShlShr(m + 1, n, k);
  }

  /** A hit of the greedy loop is the next peak, and it ends at the positions summed so far. */
  lemma GreedyPeak(s: nat, pos: int, peakSize: int, m: nat, k: nat)
    requires Greedy(s, pos, peakSize, m, k) && k > 0
    ensures pos >= peakSize ==>
              && PeaksBelow(MaxLeaves(s), k) == [Coord(k - 1, 2 * m)] + PeaksBelow(MaxLeaves(s), k - 1)
              && (s - pos) + peakSize - 1 == Pos(k - 1, 2 * m)
    ensures pos < peakSize ==> PeaksBelow(MaxLeaves(s), k) == PeaksBelow(MaxLeaves(s), k - 1)
  {
    hide Size, Shl, Shr, MaxLeaves, Pow2, PeaksBelow, Greedy, Pos;
    GreedyStep(s, pos, peakSize, m, k);
    GreedyHit(s, pos, peakSize, m, k);
    PeaksBelowStep(MaxLeaves(s), k);
    if pos >= peakSize {
      GreedyBits(s, pos - peakSize, peakSize / 2, 2 * m + 1, k - 1);
    } else {
      GreedyBits(s, pos, peakSize / 2, 2 * m, k - 1);
    }
  }

  lemma GreedyHit(s: nat, pos: int, peakSize: int, m: nat, k: nat)
    requires Greedy(s, pos, peakSize, m, k) && k > 0
    ensures (s - pos) + peakSize - 1 == Pos(k - 1, 2 * m)
  {
    hide Size, Shl, Pow2, Pos;
    ShlHalves(m, k - 1);
    PosFromFirstLeaf(k - 1, 2 * m);
  }

  class PeaksIter {
    var pos: u64
    var peakSize: u64
    var peaksSum: u64
    ghost const mmrSize: u64
    ghost var m: nat  // the bits decided so far
    ghost var k: nat  // the number of bits still to decide

    ghost predicate Valid()
      reads this
    {
      Greedy(mmrSize, pos, peakSize, m, k) && peaksSum == mmrSize - pos
    }

    ghost function Remaining(): seq<Coord>
      reads this
    {
      PeaksBelow(MaxLeaves(mmrSize), k)
    }

    constructor (mmrSize: u64)
      ensures Valid() && this.mmrSize == mmrSize
      ensures Remaining() == Peaks(MaxLeaves(mmrSize))
    {
      hide Greedy, PeaksBelow, Peaks, MaxLeaves;
      GreedyStart(mmrSize);
      GreedyZero();
      PeaksFromSize(mmrSize);
      this.mmrSize := mmrSize;
      this.m := 0;
      this.k := BitLength(mmrSize);
      this.peaksSum := 0;
      this.pos := mmrSize;
      this.peakSize := if mmrSize == 0 then 0 else Shr(U64_MAX, LeadingZeros(mmrSize));
    }

    method Next() returns (peak: Option<u64>)
      requires Valid()
      modifies this
      ensures Valid()
      ensures old(Remaining()) == [] ==> peak == None && Remaining() == []
      ensures old(Remaining()) != [] ==>
                var c := old(Remaining())[0];
                peak == Some(Pos(c.h, c.j)) && Remaining() == old(Remaining())[1..]
    {
      hide Greedy, PeaksBelow, Pos, MaxLeaves;
      peak := None;
      while peakSize > 0 && peak.None?
        invariant Valid()
        invariant peak.None? ==> Remaining() == old(Remaining())
        invariant peak.Some? ==> old(Remaining()) != []
        invariant peak.Some? ==> peak.value == Pos(old(Remaining())[0].h, old(Remaining())[0].j)
        invariant peak.Some? ==> Remaining() == old(Remaining())[1..]
        decreases k
      {
        GreedyStep(mmrSize, pos, peakSize, m, k);
        GreedyPeak(mmrSize, pos, peakSize, m, k);
        if pos >= peakSize {
          pos := pos - peakSize;
          peak := Some(peaksSum + peakSize - 1);
          peaksSum := peaksSum + peakSize;
          m := 2 * m + 1;
        } else {
          m := 2 * m;
        }
        peakSize := peakSize / 2;
        k := k - 1;
      }
      if peak.None? {
        GreedyStep(mmrSize, pos, peakSize, m, k);
        PeaksBelowZero(MaxLeaves(mmrSize));
      }
    }
  }

  lemma PeaksBelowZero(n: nat)
    ensures PeaksBelow(n, 0) == []
  {
  }

  lemma GreedyZero()
    ensures Greedy(0, 0, 0, 0, 0) && BitLength(0) == 0
  {
    GreedyStart(0);
    Pow2Zero();
  }

  lemma PeaksFromSize(s: nat)
    ensures PeaksBelow(MaxLeaves(s), BitLength(s)) == Peaks(MaxLeaves(s))
  {
    hide PeaksBelow, Peaks;
    if s > 0 {
      BitLengthBounds(s);
      BitLengthBelow(MaxLeaves(s), BitLength(s));
    }
    PeaksFrom(MaxLeaves(s), BitLength(s));
  }

  /** `PeaksIter::new(mmr_size).collect()`, for complete sizes and for those in between. */
  method CollectPeaks(mmrSize: u64) returns (peaks: seq<u64>)
    ensures peaks == Positions(Peaks(MaxLeaves(mmrSize)))
  {
    hide Peaks, MaxLeaves, PeaksBelow, Greedy;
    var iter := new PeaksIter(mmrSize);
    ghost var all := iter.Remaining();
    peaks := [];
    ghost var done: seq<Coord> := [];
    while true
      invariant iter.Valid() && fresh(iter)
      invariant done + iter.Remaining() == all
      invariant peaks == Positions(done)
      decreases |iter.Remaining()|
    {
      var next := iter.Next();
      match next {
        case None =>
          assert done == all;
          return;
        case Some(p) =>
          ghost var c := all[|done|];
          PositionsSnoc(done, c);
          peaks := peaks + [p];
          done := done + [c];
      }
    }
  }

  lemma PositionsSnoc(a: seq<Coord>, c: Coord)
    ensures Positions(a + [c]) == Positions(a) + [Pos(c.h, c.j)]
  {
    hide Pos;
    PositionsAppend(a, [c]);
  }

  // ----- PeaksMMRIVERIter: the highest perfect tree that still fits -----

  function ILog2(x: nat): nat
    requires x > 0
  {
    BitLengthPositive(x);
    BitLength(x) - 1
  }

  /** The bit below the decided ones. */
  lemma NextBit(n: nat, m: nat, r: nat, k: nat)
    requires k > 0 && n == Shl(m, k) + r && r < Pow2(k)
    ensures Shl(2 * m, k - 1) == Shl(m, k)
    ensures Shr(n, k - 1) == if r < Pow2(k - 1) then 2 * m else 2 * m + 1
  {
    hide Shl, Shr, Pow2;
    ShlHalves(m, k - 1);
    ShlOne(2 * m, k - 1);
    ShlOne(m, k);
    ShlShr(2 * m, n, k - 1);
    ShlShr(2 * m + 1, n, k - 1);
    ShlShr(2 * m + 2, n, k - 1);
  }

  /** Peaks of n beyond the mountains already passed: m of them decided, r leaves left. */
  lemma {:induction false} PeaksOfRest(n: nat, m: nat, r: nat, k: nat)
    requires n == Shl(m, k) + r && r < Pow2(k)
    decreases k
    ensures r == 0 ==> PeaksBelow(n, k) == []
    ensures r > 0 ==>
              var b := BitLength(r);
              var j := Shr(n, b - 1) - 1;
              && 0 < b <= k && 0 <= j && j % 2 == 0
              && Shl(j, b - 1) == Shl(m, k)
              && PeaksBelow(n, k) == [Coord(b - 1, j)] + PeaksBelow(n, b - 1)
  {
    hide Shl, Shr, Pow2, BitLength;
    if k > 0 {
      NextBit(n, m, r, k);
      if r < Pow2(k - 1) {
        PeaksOfRest(n, 2 * m, r, k - 1);
        assert PeaksBelow(n, k) == [] + PeaksBelow(n, k - 1);
      } else {
        ShlZero(k - 1);
        BitLengthUnique(r, k - 1);
      }
    } else {
      Pow2Zero();
    }
  }

  /** What the iterator yields for any number of positions: each time the highest perfect tree that still fits. */
  function Strides(peak: nat, remaining: nat): seq<nat>
    decreases remaining
  {
    if remaining == 0 then []
    else
      StrideFits(remaining);
      var highestSize := Pow2(ILog2(remaining + 1)) - 1;
      [peak + highestSize - 1] + Strides(peak + highestSize, remaining - highestSize)
  }

  lemma StrideFits(remaining: nat)
    requires remaining > 0
    ensures 0 < Pow2(ILog2(remaining + 1)) - 1 <= remaining
  {
    BitLengthBounds(remaining + 1);
    if ILog2(remaining + 1) == 0 { Pow2Zero(); }
  }

  lemma {:induction false} StridesBelow(peak: nat, remaining: nat)
    ensures forall i :: 0 <= i < |Strides(peak, remaining)| ==> peak <= Strides(peak, remaining)[i] < peak + remaining
    decreases remaining
  {
    hide Pow2;
    if remaining > 0 {
      StrideFits(remaining);
      var highestSize := Pow2(ILog2(remaining + 1)) - 1;
      StridesBelow(peak + highestSize, remaining - highestSize);
    }
  }

  class PeaksMMRIVERIter {
    var peak: u64
    var remaining: u64

    ghost predicate Valid()
      reads this
    {
      peak + remaining < U64_MAX
    }

    ghost function Remaining(): seq<nat>
      reads this
    {
      Strides(peak, remaining)
    }

    constructor (i: u64)
      requires i < U64_MAX - 1
      ensures Valid() && Remaining() == Strides(0, i + 1)
    {
      peak := 0;
      remaining := i + 1;
    }

    method Next() returns (p: Option<u64>)
      requires Valid()
      modifies this
      ensures Valid()
      ensures old(Remaining()) == [] ==> p == None && Remaining() == []
      ensures old(Remaining()) != [] ==> p == Some(old(Remaining())[0]) && Remaining() == old(Remaining())[1..]
    {
      if remaining == 0 {
        return None;
      }
      StrideFits(remaining);
      var highestSize: u64 := Pow2(ILog2(remaining + 1)) - 1;
      peak := peak + highestSize;
      remaining := remaining - highestSize;
      p := Some(peak - 1);
    }
  }

  lemma ShlZero(k: nat)
    ensures Shl(0, k) == 0 && Size(0) == 0 && Pow2(k) >= 1
  {
    ShlLinear(0, 0, k);
  }

  lemma SizePositive(r: nat)
    ensures Size(r) == 0 <==> r == 0
  {
  }

  /** The largest 2^t - 1 that fits in the remaining positions is the next mountain. */
  lemma TopMountain(n: nat, m: nat, r: nat, k: nat, remaining: nat)
    requires n == Shl(m, k) + r && r < Pow2(k) && r > 0 && remaining == Size(r)
    ensures var b := BitLength(r);
            var j := Shr(n, b - 1) - 1;
            && b > 0 && j >= 0
            && ILog2(remaining + 1) == b
            && Pow2(b - 1) <= r && r - Pow2(b - 1) < Pow2(b - 1)
            && Size(r - Pow2(b - 1)) == remaining - (Pow2(b) - 1)
            && n == Shl(j + 1, b - 1) + (r - Pow2(b - 1))
            && Size(Shl(m, k)) + (Pow2(b) - 1) == Size(Shl(j + 1, b - 1))
            && Size(Shl(m, k)) + (Pow2(b) - 1) - 1 == Pos(b - 1, j)
  {
    hide Pos, Size, Shl, Pow2, Shr, BitLength;
    var b := BitLength(r);
    BitLengthBounds(r);
    Pow2Succ(b - 1);
    PeaksOfRest(n, m, r, k);
    var j := Shr(n, b - 1) - 1;
    SizeTop(r, b - 1);
    SizeRange(r, b - 1);
    BitLengthUnique(remaining + 1, b);
    ShlOne(j, b - 1);
    SizeOddRow(j / 2, b - 1);
    assert 2 * (j / 2) == j;
    PosFromFirstLeaf(b - 1, j);
  }

  lemma SizeRange(r: nat, t: nat)
    requires Pow2(t) <= r < Pow2(t + 1)
    ensures Pow2(t + 1) <= Size(r) + 1 < Pow2(t + 2)
  {
    hide Size, Pow2;
    SizePow2(t);
    SizePow2(t + 1);
    SizeMono(Pow2(t), r);
    SizeMono(r, Pow2(t + 1));
  }

  /** `PeaksMMRIVERIter::new(i).collect()`, at any index. */
  method CollectMmriverPeaks(i: u64) returns (peaks: seq<u64>)
    requires i < U64_MAX - 1
    ensures peaks == Strides(0, i + 1)
  {
    hide Strides;
    var iter := new PeaksMMRIVERIter(i);
    ghost var all := iter.Remaining();
    peaks := [];
    while true
      invariant iter.Valid() && fresh(iter)
      invariant peaks + iter.Remaining() == all
      decreases |iter.Remaining()|
    {
      var next := iter.Next();
      match next {
        case None =>
          assert peaks == all;
          return;
        case Some(p) =>
          peaks := peaks + [p];
      }
    }
  }

  /** The strides over what is left of a forest, m of its mountains' bits decided. */
  lemma {:induction false} StridesOfRest(n: nat, m: nat, r: nat, k: nat)
    requires n == Shl(m, k) + r && r < Pow2(k)
    ensures Strides(Size(Shl(m, k)), Size(r)) == Positions(PeaksBelow(n, k))
    decreases k
  {
    hide PeaksBelow, Pos, Size, Shl, Pow2, Shr, BitLength, ILog2, Positions;
    PeaksOfRest(n, m, r, k);
    SizePositive(r);
    if r == 0 {
      NoPositions();
    } else {
      TopMountain(n, m, r, k, Size(r));
      var b, j := BitLength(r), Shr(n, BitLength(r) - 1) - 1;
      StridesOfRest(n, j + 1, r - Pow2(b - 1), b - 1);
      PositionsAppend([Coord(b - 1, j)], PeaksBelow(n, b - 1));
      OnePosition(Coord(b - 1, j));
    }
  }

  lemma NoPositions()
    ensures Positions([]) == []
  {
  }

  lemma OnePosition(c: Coord)
    ensures Positions([c]) == [Pos(c.h, c.j)]
  {
    hide Pos;
  }

  /** On complete sizes both iterators yield the same positions. */
  lemma StridesArePeaks(n: nat)
    ensures Strides(0, Size(n)) == Positions(Peaks(n))
  {
    hide PeaksBelow, Pos, Size, Shl, Pow2, Strides, Positions;
    var k := BitLength(n);
    ShlZero(k);
    if n > 0 { BitLengthBounds(n); }
    StridesOfRest(n, 0, n, k);
  }
}
