/**
 Position arithmetic (`src/helper.rs`): the closed forms, the bitmap of the peaks and the two height
 algorithms, each proved against the forest.
 */
module Helper {
  import opened Bits
  import opened Forest

  // ----- closed forms -----

  /** The size once leaf `index` is pushed. */
  function LeafIndexToMmrSize(index: u64): (size: u64)
    requires index < 0x7FFF_FFFF_FFFF_FFFF
    ensures size == Size(index + 1)
  {
    var leavesCount := index + 1;
    var peakCount := PopCount(leavesCount);
    2 * leavesCount - peakCount
  }

  /** Where leaf `index` goes: just past the forest of the leaves before it. */
  function LeafIndexToPos(index: u64): (pos: u64)
    requires index < 0x7FFF_FFFF_FFFF_FFFF
    ensures pos == Size(index)
  {
    SizeSucc(index);
    LeafIndexToMmrSize(index) - TrailingZeros(index + 1) - 1
  }

  /** The leaf count is read back from the size and from the position; the position is a leaf's. */
  lemma LeafIndexInverse(index: u64)
    requires index < 0x7FFF_FFFF_FFFF_FFFF
    ensures MaxLeaves(LeafIndexToMmrSize(index)) == index + 1
    ensures CoordAt(LeafIndexToPos(index)) == Coord(0, index)
  {
    hide Size, PopCount, Height, Block;
    MaxLeavesOfSize(index + 1);
    LeafPos(index);
  }

  lemma PosRowStart(h: nat)
    ensures Pos(h, 0) == Pow2(h + 1) - 2
  {
    ShlShl(1, 1, h);
  }

  /** A node of height h has 2^(h+1) - 2 positions before it. */
  lemma HeightRoom(p: nat)
    ensures Pow2(Height(p) + 1) - 2 <= p
  {
    var h, j := Height(p), Block(p);
    PosOfCoord(p);
    PosRowStart(h);
    if j > 0 { PosRowMono(h, 0, j); }
  }

  lemma HeightBound(p: nat, k: nat)
    requires p < Pow2(k + 1) - 2
    ensures Height(p) < k
  {
    HeightRoom(p);
    if k <= Height(p) { Pow2Mono(k + 1, Height(p) + 1); }
  }

  /** No position of a u64 is higher than 63, so no cast of a height to u8 loses anything. */
  lemma HeightLimit(p: u64)
    ensures Height(p) <= 63
    ensures p <= SIZE_LIMIT ==> Height(p) <= 61
  {
    hide Pow2, Height;
    Pow2Values();
    Pow2Mono(64, 65);
    HeightBound(p, 64);
    if p <= SIZE_LIMIT { HeightBound(p, 62); }
  }

  lemma Pow2Limit(k: nat)
    ensures k <= 62 ==> Pow2(k) <= SIZE_LIMIT
    ensures k <= 63 ==> Pow2(k) <= 2 * SIZE_LIMIT
  {
    hide Pow2;
    Pow2Values();
    if k <= 62 { Pow2Mono(k, 62); }
    if k <= 63 { Pow2Mono(k, 63); }
  }

  /** From a left child to its parent. */
  function ParentOffset(height: u8): (d: u64)
    requires height <= 62
    ensures d == Pow2(height + 1)
    ensures forall j: nat {:trigger Pos(height, 2 * j)} :: Pos(height, 2 * j) + d == Pos(height + 1, j)
  {
    Pow2Limit(height + 1);
    ShlTwo(height);
    FamilyAll(height);
    Shl(2, height)
  }

  /** Between the two children of a parent. */
  function SiblingOffset(height: u8): (d: u64)
    requires height <= 62
    ensures d == Pow2(height + 1) - 1
    ensures forall j: nat {:trigger Pos(height, 2 * j)} :: Pos(height, 2 * j) + d == Pos(height, 2 * j + 1)
  {
    Pow2Limit(height + 1);
    ShlTwo(height);
    FamilyAll(height);
    Shl(2, height) - 1
  }

  lemma FamilyAll(h: nat)
    ensures forall j: nat {:trigger Pos(h, 2 * j)} ::
              Pos(h, 2 * j) + Pow2(h + 1) == Pos(h + 1, j) && Pos(h, 2 * j) + Pow2(h + 1) - 1 == Pos(h, 2 * j + 1)
  {
    forall j: nat
      ensures Pos(h, 2 * j) + Pow2(h + 1) == Pos(h + 1, j) && Pos(h, 2 * j) + Pow2(h + 1) - 1 == Pos(h, 2 * j + 1)
    {
      Family(h, j);
    }
  }

  // ----- the greedy decomposition by sizes 2^k - 1 -----

  /** The count whose highest bits are m, with k bits still to decide, lies among these. */
  ghost predicate Bracket(s: nat, m: nat, k: nat) {
    Size(Shl(m, k)) <= s < Size(Shl(m + 1, k))
  }

  lemma BracketStart(s: nat)
    ensures Bracket(s, 0, BitLength(s)) && Size(Shl(0, BitLength(s))) == 0
  {
    ShlLinear(0, 0, BitLength(s));
    SizePow2(BitLength(s));
    if s > 0 {
      BitLengthBounds(s);
      Pow2Mono(BitLength(s), BitLength(s) + 1);
    }
  }

  /** A mountain of 2^k leaves beside an even number of them. */
  lemma SizeOddRow(m: nat, k: nat)
    ensures Size(Shl(2 * m + 1, k)) == Size(Shl(2 * m, k)) + Pow2(k + 1) - 1
  {
    hide Size, PopCount, Shl, Pow2;
    var a := 2 * m;
    SizeShl(a, k);
    SizeShl(a + 1, k);
    PopCountChildren(m);
    assert Shl(2 * (a + 1), k) == Shl(2 * a, k) + Pow2(k + 1) by {
      assert 2 * (a + 1) == 2 * a + 2;
      ShlLinear(2 * a, 2, k);
      ShlTwo(k);
    }
  }

  /** Comparing the remainder with 2^k - 1 decides the next bit of the count. */
  lemma BracketStep(s: nat, m: nat, k: nat)
    requires k > 0 && Bracket(s, m, k)
    ensures Size(Shl(2 * m, k - 1)) == Size(Shl(m, k))
    ensures Size(Shl(2 * m + 1, k - 1)) == Size(Shl(m, k)) + Pow2(k) - 1
    ensures s - Size(Shl(m, k)) >= Pow2(k) - 1 ==> Bracket(s, 2 * m + 1, k - 1)
    ensures s - Size(Shl(m, k)) < Pow2(k) - 1 ==> Bracket(s, 2 * m, k - 1)
  {
    hide Size, PopCount;
    ShlHalves(m, k - 1);
    SizeOddRow(m, k - 1);
  }

  /** The state of every greedy loop: m holds the bits found, pos what they leave of s. */
  ghost predicate Greedy(s: nat, pos: int, peakSize: int, m: nat, k: nat) {
    pos == s - Size(Shl(m, k)) && peakSize == Pow2(k) - 1 && Bracket(s, m, k)
  }

  lemma GreedyStart(s: u64)
    ensures Greedy(s, s, Shr(U64_MAX, LeadingZeros(s)), 0, BitLength(s))
  {
    FilledMask(s);
    BracketStart(s);
  }

  lemma GreedyStep(s: nat, pos: int, peakSize: int, m: nat, k: nat)
    requires Greedy(s, pos, peakSize, m, k)
    ensures 0 <= pos <= s && (peakSize > 0 <==> k > 0)
    ensures k > 0 && pos >= peakSize ==> Greedy(s, pos - peakSize, peakSize / 2, 2 * m + 1, k - 1)
    ensures k > 0 && pos < peakSize ==> Greedy(s, pos, peakSize / 2, 2 * m, k - 1)
  {
    hide Size, PopCount, Shl;
    if k > 0 {
      BracketStep(s, m, k);
      HalfMask(k);
    } else {
      Pow2Zero();
    }
  }

  lemma Pow2Zero()
    ensures Pow2(0) == 1
  {
  }

  lemma GreedyEnd(s: nat, pos: int, peakSize: int, m: nat)
    requires Greedy(s, pos, peakSize, m, 0)
    ensures MaxLeaves(s) == m && pos == Height(s)
  {
    MaxLeavesUnique(s, m);
  }

  /** The halved mask is the mask one bit shorter. */
  lemma HalfMask(k: nat)
    requires k > 0
    ensures (Pow2(k) - 1) / 2 == Pow2(k - 1) - 1 && Pow2(k) - 1 > 0
  {
    assert Pow2(k) == 2 * Pow2(k - 1);
  }

  method PosHeightInTree(position: u64) returns (height: u8)
    ensures height == Height(position)
  {
    hide *;
    var pos := position;
    if pos == 0 {
      HeightZero();
      return 0;
    }
    var peakSize: u64 := Shr(U64_MAX, LeadingZeros(pos));
    ghost var k, m: nat := BitLength(pos), 0;
    GreedyStart(pos);
    while peakSize > 0
      invariant Greedy(position, pos, peakSize, m, k)
      decreases k
    {
      GreedyStep(position, pos, peakSize, m, k);
      if pos >= peakSize {
        pos := pos - peakSize;
        m := 2 * m + 1;
      } else {
        m := 2 * m;
      }
      peakSize := peakSize / 2;
      k := k - 1;
    }
    GreedyStep(position, pos, peakSize, m, k);
    GreedyEnd(position, pos, peakSize, m);
    HeightLimit(position);
    height := pos;
  }

  lemma HeightZero()
    ensures MaxLeaves(0) == 0 && Height(0) == 0
  {
    MaxLeavesOfSize(0);
  }

  /** The bitmap of the peaks of the largest forest that fits in mmrSize, which is its leaf count. */
  method GetPeakMap(mmrSize: u64) returns (peakMap: u64)
    ensures peakMap == MaxLeaves(mmrSize)
  {
    hide *;
    if mmrSize == 0 {
      HeightZero();
      return 0;
    }
    var pos := mmrSize;
    var peakSize: u64 := Shr(U64_MAX, LeadingZeros(pos));
    ghost var k := BitLength(pos);
    GreedyStart(pos);
    peakMap := 0;
    while peakSize > 0
      invariant Greedy(mmrSize, pos, peakSize, peakMap, k)
      decreases k
    {
      GreedyStep(mmrSize, pos, peakSize, peakMap, k);
      GreedyMapLimit(mmrSize, pos, peakSize, peakMap, k);
      peakMap := 2 * peakMap;
      if pos >= peakSize {
        pos := pos - peakSize;
        peakMap := peakMap + 1;
      }
      peakSize := peakSize / 2;
      k := k - 1;
    }
    GreedyStep(mmrSize, pos, peakSize, peakMap, k);
    GreedyEnd(mmrSize, pos, peakSize, peakMap);
  }

  lemma GreedyMapLimit(s: nat, pos: int, peakSize: int, m: nat, k: nat)
    requires Greedy(s, pos, peakSize, m, k)
    ensures k > 0 ==> 2 * m <= s && (pos >= peakSize ==> 2 * m + 1 <= s)
  {
    GreedyStep(s, pos, peakSize, m, k);
    if k > 0 {
      hide Size, PopCount;
      ShlHalves(m, k - 1);
    }
  }

  // ----- the jump-left height -----

  /** Is pos a run of ones? */
  predicate AllOnes(pos: u64)
    requires pos < 2 * SIZE_LIMIT
    ensures AllOnes(pos) <==> exists k: nat :: k > 0 && pos == Pow2(k) - 1
  {
    OnesLength(pos);
    if pos == 0 then false
    else
      var imsb := 64 - LeadingZeros(pos) - 1;
      var mask := Pow2(imsb + 1) - 1;
      pos == mask
  }

  /** A run of ones is as long as the number. */
  lemma OnesLength(pos: nat)
    ensures forall k: nat :: k > 0 && pos == Pow2(k) - 1 ==> pos > 0 && k == BitLength(pos)
    ensures pos > 0 ==> BitLength(pos) > 0
  {
    hide Pow2, BitLength;
    BitLengthPositive(pos);
    forall k: nat | k > 0 && pos == Pow2(k) - 1
      ensures pos > 0 && k == BitLength(pos)
    {
      Pow2Succ(k - 1);
      BitLengthUnique(pos, k - 1);
    }
  }

  function MostSigBit(pos: u64): (b: nat)
    ensures pos > 0 ==> b <= pos < 2 * b
  {
    if pos == 0 then 0
    else
      BitLengthBounds(pos);
      Pow2(64 - LeadingZeros(pos) - 1)
  }

  lemma SizeTop(n: nat, t: nat)
    requires Pow2(t) <= n < Pow2(t + 1)
    ensures Size(n - Pow2(t)) == Size(n) - (Pow2(t + 1) - 1)
  {
    PopCountTop(n, t);
  }

  /** Taking away the leading perfect tree moves to a node of the same height. */
  lemma JumpLeft(p: nat, t: nat)
    requires Pow2(t + 1) <= p + 1 < Pow2(t + 2) - 1
    ensures Height(p - (Pow2(t + 1) - 1)) == Height(p)
  {
    hide Size, Pow2;
    var n, q := MaxLeaves(p), p - (Pow2(t + 1) - 1);
    SizePow2(t);
    SizePow2(t + 1);
    if n < Pow2(t) { SizeMono(n + 1, Pow2(t)); }
    if n >= Pow2(t + 1) { SizeMono(Pow2(t + 1), n); }
    SizeTop(n, t);
    var m := n - Pow2(t);
    if n + 1 < Pow2(t + 1) {
      SizeTop(n + 1, t);
    } else {
      Pow2Succ(t);
      Pow2Succ(t + 1);
    }
    MaxLeavesUnique(q, m);
  }

  lemma Pow2Succ(t: nat)
    ensures Pow2(t + 1) == 2 * Pow2(t)
  {
  }

  lemma JumpLeftStep(pos: u64)
    requires 0 < pos < 2 * SIZE_LIMIT && !AllOnes(pos)
    ensures 0 < pos - (MostSigBit(pos) - 1) < pos
    ensures Height(pos - (MostSigBit(pos) - 1) - 1) == Height(pos - 1)
  {
    hide Height, Pow2, Shl;
    var b := BitLength(pos);
    BitLengthBounds(pos);
    Pow2Succ(b - 1);
    if b == 1 { Pow2Zero(); }
    Pow2Succ(b - 2);
    JumpLeft(pos - 1, b - 2);
  }

  lemma BitLengthPositive(pos: nat)
    ensures pos > 0 <==> BitLength(pos) > 0
  {
  }

  lemma AllOnesHeight(pos: u64)
    requires pos < 2 * SIZE_LIMIT && AllOnes(pos)
    ensures Height(pos - 1) == BitLength(pos) - 1
  {
    hide *;
    var h := BitLength(pos) - 1;
    OnesLength(pos);
    BitLengthPositive(pos);
    PosRowStart(h);
    CoordOfPos(h, 0);
  }

  method IndexHeightMmriver(i: u64) returns (height: u8)
    requires i < 2 * SIZE_LIMIT - 1
    ensures height == Height(i)
  {
    hide Height, AllOnes, MostSigBit, LeadingZeros, BitLength, Pow2;
    var pos := i + 1;
    while !AllOnes(pos)
      invariant 0 < pos <= i + 1
      invariant Height(pos - 1) == Height(i)
      decreases pos
    {
      JumpLeftStep(pos);
      pos := pos - (MostSigBit(pos) - 1);
    }
    AllOnesHeight(pos);
    height := 64 - LeadingZeros(pos) - 1;
  }
}
