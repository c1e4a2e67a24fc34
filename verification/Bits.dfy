/**
 Machine words and the bit counts the index arithmetic is written with.

 `u64` and `u8` are subset types: a variable of such a type carries the proof that no
 assignment to it wraps around, while expressions over it stay ordinary integers.
 Shifts are recursive halvings and doublings, so that no proof needs products.
 */
module Bits {

  type u64 = x: int | 0 <= x < 0x1_0000_0000_0000_0000
  type u8 = x: int | 0 <= x < 0x100

  const U64_MAX: u64 := 0xFFFF_FFFF_FFFF_FFFF

  /** Sizes the structures are used at: every position, parent and sibling offset then fits a u64. */
  const SIZE_LIMIT: u64 := 0x4000_0000_0000_0000

  /** x * 2^k */
  function Shl(x: nat, k: nat): (r: nat)
    ensures r >= x
    ensures x > 0 ==> r > k
  {
    if k == 0 then x else 2 * Shl(x, k - 1)
  }

  /** x / 2^k */
  function Shr(x: nat, k: nat): (r: nat)
    ensures r <= x
    decreases k
  {
    if k == 0 then x else Shr(x / 2, k - 1)
  }

  function Pow2(k: nat): (r: nat)
    ensures r > k
  {
    Shl(1, k)
  }

  /** The number of set bits. */
  function PopCount(x: nat): (r: nat)
    ensures r <= x
    ensures x > 0 ==> r > 0
  {
    if x == 0 then 0 else x % 2 + PopCount(x / 2)
  }

  function TrailingZeros(x: nat): nat
    requires x > 0
  {
    if x % 2 == 1 then 0 else 1 + TrailingZeros(x / 2)
  }

  /** The number of bits up to and including the highest set one. */
  function BitLength(x: nat): nat
  {
    if x == 0 then 0 else 1 + BitLength(x / 2)
  }

  lemma {:induction false} BitLengthBounds(x: nat)
    requires x > 0
    ensures BitLength(x) > 0 && Pow2(BitLength(x) - 1) <= x < Pow2(BitLength(x))
  {
    if x > 1 {
      BitLengthBounds(x / 2);
    } else {
      assert BitLength(x / 2) == 0;
    }
  }

  lemma {:induction false} BitLengthUnique(x: nat, k: nat)
    requires Pow2(k) <= x < Pow2(k + 1)
    ensures BitLength(x) == k + 1
  {
    BitLengthBounds(x);
    if k + 1 < BitLength(x) { Pow2Mono(k + 1, BitLength(x) - 1); }
    if BitLength(x) < k + 1 { Pow2Mono(BitLength(x), k); }
  }

  lemma {:induction false} BitLengthBelow(x: nat, k: nat)
    requires x < Pow2(k)
    ensures BitLength(x) <= k
  {
    if x > 0 {
      BitLengthBelow(x / 2, k - 1);
    }
  }

  lemma {:induction false} ShlLinear(a: nat, b: nat, k: nat)
    ensures Shl(a + b, k) == Shl(a, k) + Shl(b, k)
    ensures Shl(2 * a, k) == 2 * Shl(a, k)
  {
    if k > 0 {
      ShlLinear(a, b, k - 1);
    }
  }

  lemma ShlHalves(m: nat, k: nat)
    ensures Shl(2 * m, k) == Shl(m, k + 1)
    ensures Shl(2 * m + 1 + 1, k) == Shl(m + 1, k + 1)
  {
    ShlLinear(m, 0, k);
    ShlLinear(m + 1, 0, k);
    assert 2 * m + 1 + 1 == 2 * (m + 1);
  }

  lemma ShlOne(j: nat, k: nat)
    ensures Shl(j + 1, k) == Shl(j, k) + Pow2(k)
  {
    ShlLinear(j, 1, k);
  }

  lemma {:induction false} ShlMono(a: nat, b: nat, k: nat)
    requires a <= b
    ensures Shl(a, k) <= Shl(b, k)
  {
    ShlLinear(a, b - a, k);
  }

  lemma {:induction false} Pow2Mono(a: nat, b: nat)
    requires a <= b
    ensures Pow2(a) <= Pow2(b)
    ensures a < b ==> 2 * Pow2(a) <= Pow2(b)
  {
    if a < b {
      Pow2Mono(a, b - 1);
    }
  }

  lemma {:induction false} ShrShr(x: nat, a: nat, b: nat)
    ensures Shr(Shr(x, a), b) == Shr(x, a + b)
    decreases a
  {
    if a > 0 {
      ShrShr(x / 2, a - 1, b);
    }
  }

  /** The last step of a shift, seen from the other end. */
  lemma ShrStep(x: nat, k: nat)
    ensures Shr(x, k + 1) == Shr(x, k) / 2
  {
    ShrShr(x, k, 1);
  }

  lemma {:induction false} ShrMono(a: nat, b: nat, k: nat)
    requires a <= b
    ensures Shr(a, k) <= Shr(b, k)
    decreases k
  {
    if k > 0 {
      ShrMono(a / 2, b / 2, k - 1);
    }
  }

  lemma ShrLess(a: nat, b: nat, k: nat)
    requires Shr(a, k) < Shr(b, k)
    ensures a < b
  {
    if b <= a {
      ShrMono(b, a, k);
    }
  }

  /** Shifting down is the adjoint of shifting up. */
  lemma {:induction false} ShlShr(x: nat, n: nat, k: nat)
    ensures Shl(x, k) <= n <==> x <= Shr(n, k)
    decreases k
  {
    if k > 0 {
      ShlShr(x, n / 2, k - 1);
    }
  }

  lemma ShrShl(x: nat, k: nat)
    ensures Shr(Shl(x, k), k) == x
  {
    ShlShr(x, Shl(x, k), k);
    ShlShr(x + 1, Shl(x, k), k);
    ShlLinear(x, 1, k);
  }

  lemma {:induction false} ShrZero(x: nat, k: nat)
    ensures Shr(x, k) == 0 <==> x < Pow2(k)
  {
    ShlShr(1, x, k);
  }

  lemma {:induction false} ShlShl(x: nat, a: nat, b: nat)
    ensures Shl(Shl(x, a), b) == Shl(x, a + b)
  {
    if b > 0 {
      ShlShl(x, a, b - 1);
    }
  }

  lemma {:induction false} PopCountShl(x: nat, k: nat)
    ensures PopCount(Shl(x, k)) == PopCount(x)
  {
    if k > 0 {
      PopCountShl(x, k - 1);
      assert Shl(x, k) / 2 == Shl(x, k - 1);
    }
  }

  lemma ShlStep(x: nat, k: nat)
    ensures Shl(x, 0) == x && Pow2(0) == 1
    ensures k > 0 ==> Shl(x, k) == 2 * Shl(x, k - 1) && Pow2(k) == 2 * Pow2(k - 1)
  {
  }

  /** Counting up by one clears the trailing ones and sets one bit. */
  lemma {:induction false} PopCountSucc(x: nat)
    ensures PopCount(x + 1) + TrailingZeros(x + 1) == PopCount(x) + 1
  {
    if x % 2 == 1 {
      PopCountSucc(x / 2);
      assert (x + 1) / 2 == x / 2 + 1;
    } else {
      assert (x + 1) / 2 == x / 2;
    }
  }

  lemma {:induction false} TrailingZerosShl(x: nat, k: nat)
    requires x > 0
    ensures TrailingZeros(Shl(x, k)) == k + TrailingZeros(x)
  {
    if k > 0 {
      TrailingZerosShl(x, k - 1);
      assert Shl(x, k) / 2 == Shl(x, k - 1);
    }
  }

  /** A number with k trailing zeros is a multiple of 2^k. */
  lemma {:induction false} TrailingZerosMultiple(x: nat, k: nat)
    requires x > 0 && k <= TrailingZeros(x)
    ensures Shl(Shr(x, k), k) == x
    decreases k
  {
    if k > 0 {
      TrailingZerosMultiple(x / 2, k - 1);
    }
  }

  lemma {:induction false} PopCountTop(x: nat, k: nat)
    requires Pow2(k) <= x < Pow2(k + 1)
    ensures PopCount(x - Pow2(k)) == PopCount(x) - 1
  {
    if k > 0 {
      PopCountTop(x / 2, k - 1);
      assert (x - Pow2(k)) / 2 == x / 2 - Pow2(k - 1);
      assert (x - Pow2(k)) % 2 == x % 2;
    } else {
      assert Pow2(0) == 1 && Pow2(1) == 2 * Shl(1, 0);
      assert x == 1;
    }
  }

  /** `u64::leading_zeros` */
  function LeadingZeros(x: u64): (r: u8)
    ensures r <= 64
    ensures r == 64 - BitLength(x)
  {
    BitLengthLimit(x);
    64 - BitLength(x)
  }

  lemma Pow2Values()
    ensures Pow2(62) == SIZE_LIMIT && Pow2(63) == 2 * SIZE_LIMIT
    ensures Pow2(64) == U64_MAX + 1
  {
    assert Pow2(6) == 64 && Pow2(63) == 2 * Pow2(62) && Pow2(64) == 2 * Pow2(63);
    hide Shl, Pow2;
    Pow2Byte(6);
    Pow2Byte(14);
    Pow2Byte(22);
    Pow2Byte(30);
    Pow2Byte(38);
    Pow2Byte(46);
    Pow2Byte(54);
  }

  lemma Pow2Byte(k: nat)
    ensures Pow2(k + 8) == 256 * Pow2(k)
  {
    assert Pow2(k + 1) == 2 * Pow2(k) && Pow2(k + 2) == 2 * Pow2(k + 1);
    assert Pow2(k + 3) == 2 * Pow2(k + 2) && Pow2(k + 4) == 2 * Pow2(k + 3);
    assert Pow2(k + 5) == 2 * Pow2(k + 4) && Pow2(k + 6) == 2 * Pow2(k + 5);
    assert Pow2(k + 7) == 2 * Pow2(k + 6) && Pow2(k + 8) == 2 * Pow2(k + 7);
  }

  lemma ShlTwo(k: nat)
    ensures Shl(2, k) == Pow2(k + 1)
  {
    ShlLinear(1, 0, k);
  }

  lemma BitLengthLimit(x: u64)
    ensures BitLength(x) <= 64
  {
    Pow2Values();
    BitLengthBelow(x, 64);
  }

  lemma {:induction false} AllOnesShr(a: nat, b: nat)
    requires b <= a
    ensures Shr(Pow2(a) - 1, b) == Pow2(a - b) - 1
  {
    if b > 0 {
      assert (Pow2(a) - 1) / 2 == Pow2(a - 1) - 1;
      AllOnesShr(a - 1, b - 1);
    }
  }

  /** `u64::MAX >> x.leading_zeros()` fills every bit up to the highest set one. */
  lemma FilledMask(x: u64)
    ensures Shr(U64_MAX, LeadingZeros(x)) == Pow2(BitLength(x)) - 1
  {
    Pow2Values();
    AllOnesShr(64, LeadingZeros(x));
  }

  /** Bitwise and. */
  function And(x: nat, y: nat): nat
    decreases x
  {
    if x == 0 || y == 0 then 0 else (if x % 2 == 1 && y % 2 == 1 then 1 else 0) + 2 * And(x / 2, y / 2)
  }

  lemma {:induction false} AndBit(x: nat, k: nat)
    ensures And(x, Pow2(k)) != 0 <==> Shr(x, k) % 2 == 1
    decreases k
  {
    if x == 0 {
      ShrZero(0, k);
    } else if k > 0 {
      AndBit(x / 2, k - 1);
      assert Pow2(k) / 2 == Pow2(k - 1);
    } else {
      assert Pow2(0) == 1;
      assert And(x / 2, 0) == 0;
    }
  }
}
