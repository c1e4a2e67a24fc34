/**
 Proving new leaves against an old root: the plan for the leaves k..n of an n-leaf forest is
 the k-leaf forest's peaks, the unchanged ones left to right and the absorbed ones bottom-up.
 */
module Incremental {
  import opened Bits
  import opened Forest
  import opened Parting
  import opened ProofPlan

  /** a, a + 1, ..., b - 1 */
  function Range(a: nat, b: nat): seq<nat>
    decreases b - a
  {
    if a >= b then [] else [a] + Range(a + 1, b)
  }

  lemma {:induction false} RangeAt(a: nat, b: nat)
    ensures a <= b ==> |Range(a, b)| == b - a
    ensures a > b ==> Range(a, b) == []
    ensures forall i :: 0 <= i < |Range(a, b)| ==> Range(a, b)[i] == a + i
    decreases b - a
  {
    if a < b { RangeAt(a + 1, b); }
  }

  lemma RangeSplit(a: nat, b: nat, c: nat)
    requires a <= b <= c
    ensures Range(a, c) == Range(a, b) + Range(b, c)
    ensures CountBelow(Range(a, c), b) == b - a
    ensures Range(a, c)[..b - a] == Range(a, b) && Range(a, c)[b - a..] == Range(b, c)
  {
    hide Range, CountBelow;
    RangeAt(a, c);
    RangeAt(a, b);
    RangeAt(b, c);
    assert Range(a, c) == Range(a, b) + Range(b, c);
    CutAt(Range(a, c), a, b);
  }

  lemma CutAt(s: seq<nat>, a: nat, b: nat)
    requires a <= b <= a + |s| && forall i :: 0 <= i < |s| ==> s[i] == a + i
    ensures CountBelow(s, b) == b - a
  {
    hide CountBelow;
    var k := CountBelow(s, b);
    if b - a < |s| { assert s[b - a] == b; }
  }

  function Reverse<A>(s: seq<A>): (r: seq<A>)
    ensures |r| == |s|
  {
    if s == [] then [] else Reverse(s[1..]) + [s[0]]
  }

  lemma {:induction false} ReverseHolds<A>(s: seq<A>)
    ensures forall x :: x in s ==> x in Reverse(s)
  {
    if s != [] {
      ReverseHolds(s[1..]);
      assert s == [s[0]] + s[1..];
    }
  }

  lemma {:induction false} ReverseAppend<A>(a: seq<A>, b: seq<A>)
    ensures Reverse(a + b) == Reverse(b) + Reverse(a)
  {
    if a == [] {
      assert a + b == b;
    } else {
      ReverseAppend(a[1..], b);
      assert (a + b)[1..] == a[1..] + b;
    }
  }

  lemma {:induction false} ReverseTwice<A>(s: seq<A>)
    ensures Reverse(Reverse(s)) == s
  {
    if s != [] {
      ReverseTwice(s[1..]);
      ReverseAppend(Reverse(s[1..]), [s[0]]);
      assert Reverse([s[0]]) == [s[0]];
      assert s == [s[0]] + s[1..];
    }
  }

  // ----- one mountain with a suffix of its leaves proved -----

  /** A row of whole pairs asks for nothing. */
  lemma {:induction false} PairsClimb(h: nat, x: nat, y: nat, back: seq<nat>, top: nat)
    requires h < top && x <= y
    ensures Siblings(h, Range(2 * x, 2 * y), back, top) == Siblings(h, [], back + Range(x, y), top)
    decreases y - x
  {
    hide Siblings, Range, Rest, Paired;
    if x < y {
      PairFirst(x, y);
      PairStep(h, Range(2 * x, 2 * y), back, top);
      PairsClimb(h, x + 1, y, back + [x], top);
      RangeFirst(x, y);
      assert back + [x] + Range(x + 1, y) == back + ([x] + Range(x + 1, y));
    } else {
      NoRange(x);
      NoRange(2 * x);
      assert back + [] == back;
    }
  }

  lemma RangeFirst(x: nat, y: nat)
    requires x < y
    ensures Range(x, y) == [x] + Range(x + 1, y)
  {
  }

  lemma NoRange(x: nat)
    ensures Range(x, x) == []
  {
  }

  lemma PairStep(h: nat, row: seq<nat>, back: seq<nat>, top: nat)
    requires h < top && row != [] && Paired(row)
    ensures Siblings(h, row, back, top) == Siblings(h, Rest(row), back + [row[0] / 2], top)
  {
    assert [] + Siblings(h, Rest(row), back + [row[0] / 2], top) == Siblings(h, Rest(row), back + [row[0] / 2], top);
  }

  lemma PairFirst(x: nat, y: nat)
    requires x < y
    ensures Range(2 * x, 2 * y) == [2 * x, 2 * x + 1] + Range(2 * (x + 1), 2 * y)
    ensures Paired(Range(2 * x, 2 * y)) && Rest(Range(2 * x, 2 * y)) == Range(2 * (x + 1), 2 * y)
  {
    var tail := Range(2 * (x + 1), 2 * y);
    assert Range(2 * x + 1, 2 * y) == [2 * x + 1] + tail;
    assert Range(2 * x, 2 * y) == [2 * x] + ([2 * x + 1] + tail) == [2 * x, 2 * x + 1] + tail;
  }

  /** Only the first of a suffix of a row can lack its sibling, and does exactly when it is odd. */
  lemma SuffixClimb(h: nat, a: nat, y: nat, top: nat)
    requires h < top && a < 2 * y
    ensures Siblings(h, Range(a, 2 * y), [], top)
            == (if a % 2 == 1 then [Coord(h, a - 1)] else []) + Siblings(h + 1, Range(a / 2, y), [], top)
  {
    hide Siblings;
    RangeAt(a / 2, y);
    if a % 2 == 0 {
      PairsClimb(h, a / 2, y, [], top);
      assert 2 * (a / 2) == a && [] + Range(a / 2, y) == Range(a / 2, y);
      SiblingsTurn(h, Range(a / 2, y), top);
      assert [] + Siblings(h + 1, Range(a / 2, y), [], top) == Siblings(h + 1, Range(a / 2, y), [], top);
    } else {
      var x := a / 2;
      var row := Range(a, 2 * y);
      assert row == [a] + Range(2 * (x + 1), 2 * y);
      RangeAt(2 * (x + 1), 2 * y);
      assert !Paired(row) && Rest(row) == Range(2 * (x + 1), 2 * y);
      SiblingsFirst(h, row, top);
      PairsClimb(h, x + 1, y, [x], top);
      assert [x] + Range(x + 1, y) == Range(x, y);
      SiblingsTurn(h, Range(x, y), top);
    }
  }

  lemma SiblingsTurn(h: nat, back: seq<nat>, top: nat)
    requires h < top && back != []
    ensures Siblings(h, [], back, top) == Siblings(h + 1, back, [], top)
  {
  }

  lemma SiblingsFirst(h: nat, row: seq<nat>, top: nat)
    requires h < top && row != [] && !Paired(row) && row[0] % 2 == 1
    ensures Siblings(h, row, [], top) == [Coord(h, row[0] - 1)] + Siblings(h, Rest(row), [row[0] / 2], top)
  {
    assert [] + [row[0] / 2] == [row[0] / 2];
  }

  /** Climbing from a suffix of the leaves meets the peaks of the prefix, smallest first. */
  lemma {:induction false} SuffixPeaks(k: nat, h: nat, top: nat, e: nat)
    requires h <= top && Shr(k, h) < Shl(e, top - h)
    ensures Reverse(PeaksBelow(k, h)) + Siblings(h, Range(Shr(k, h), Shl(e, top - h)), [], top)
            == Reverse(PeaksBelow(k, top))
    decreases top - h
  {
    hide Shr, Shl, Siblings, Range, PeaksBelow, Reverse;
    if h == top {
      SiblingsTop(h, Range(Shr(k, h), Shl(e, 0)), top);
      assert Reverse(PeaksBelow(k, h)) + [] == Reverse(PeaksBelow(k, h));
    } else {
      var a, y := Shr(k, h), Shl(e, top - h - 1);
      ShlStep(e, top - h);
      ShrStep(k, h);
      SuffixClimb(h, a, y, top);
      SuffixPeaks(k, h + 1, top, e);
      var first := if a % 2 == 1 then [Coord(h, a - 1)] else [];
      PeaksBelowStep(k, h + 1);
      assert [] + PeaksBelow(k, h) == PeaksBelow(k, h);
      assert PeaksBelow(k, h + 1) == first + PeaksBelow(k, h);
      ReverseAppend(first, PeaksBelow(k, h));
      ReverseSingle(first);
      var rest := Siblings(h + 1, Range(a / 2, y), [], top);
      assert Reverse(PeaksBelow(k, h)) + (first + rest) == (Reverse(PeaksBelow(k, h)) + first) + rest;
    }
  }

  lemma ReverseSingle<A>(s: seq<A>)
    requires |s| <= 1
    ensures Reverse(s) == s
  {
    if s != [] { assert s == [s[0]]; }
  }

  lemma SiblingsTop(h: nat, row: seq<nat>, top: nat)
    requires h >= top
    ensures Siblings(h, row, [], top) == []
  {
  }

  /** The leaves of mountain c from leaf k on, left of c's end. */
  lemma SuffixPlan(k: nat, c: Coord)
    requires Shr(k, c.h) == c.j
    ensures k < Shl(c.j + 1, c.h)
    ensures MountainPlan(Range(k, Shl(c.j + 1, c.h)), c) == Singles(Reverse(PeaksBelow(k, c.h)))
  {
    hide Shl, Shr, Siblings, PeaksBelow, Reverse, Singles;
    var e := Shl(c.j + 1, c.h);
    ShlShr(c.j + 1, k, c.h);
    RangeAt(k, e);
    ShrNone(k);
    SuffixPeaks(k, 0, c.h, c.j + 1);
    PeaksBelowNone(k);
    var sibs := Siblings(0, Range(k, e), [], c.h);
    assert [] + sibs == sibs;
  }

  lemma PeaksBelowNone(k: nat)
    ensures PeaksBelow(k, 0) == [] && Reverse(PeaksBelow(k, 0)) == []
  {
  }

  lemma {:induction false} PeaksOfMultiple(x: nat, h: nat, g: nat)
    requires g <= h
    ensures PeaksBelow(Shl(x, h), g) == []
  {
    hide Shl, Shr;
    if g > 0 {
      PeaksOfMultiple(x, h, g - 1);
      ShlShl(x, h - g + 1, g - 1);
      ShrShl(Shl(x, h - g + 1), g - 1);
      ShlStep(x, h - g + 1);
    }
  }

  /** Mountains all of whose leaves are proved contribute nothing. */
  lemma {:induction false} WholeMountains(n: nat, k: nat)
    ensures Shl(Shr(n, k), k) <= n
    ensures Plan(n, Range(Shl(Shr(n, k), k), n), k) == []
    decreases k
  {
    hide Shl, Shr, MountainPlan, PeaksBelow, Reverse, CountBelow, Plan, Singles, Range;
    var s := Shl(Shr(n, k), k);
    ShlShr(Shr(n, k), n, k);
    if s < n { RangeFirst(s, n); }
    if k == 0 {
      PlanZero(n, Range(s, n));
      Whole(n);
    } else {
      DecidedStep(n, k);
      WholeMountains(n, k - 1);
      if Shr(n, k - 1) % 2 == 0 {
        PlanSkip(n, Range(s, n), k);
      } else {
        var c := Coord(k - 1, Shr(n, k - 1) - 1);
        var e := Shl(c.j + 1, c.h);
        ShrShl(c.j, c.h);
        SuffixPlan(s, c);
        PeaksOfMultiple(c.j, c.h, c.h);
        NoPeaks(PeaksBelow(s, c.h));
        RangeSplit(s, e, n);
        PlanUnfold(n, Range(s, n), k);
      }
    }
  }

  lemma NoPeaks(ps: seq<Coord>)
    requires ps == []
    ensures Singles(Reverse(ps)) == []
  {
  }

  lemma PlanZero(n: nat, leaves: seq<nat>)
    ensures Plan(n, leaves, 0) == []
  {
  }

  lemma Whole(n: nat)
    ensures Shl(Shr(n, 0), 0) == n
  {
  }

  /** The proof of the new leaves carries the old peaks: unchanged ones, then absorbed ones bottom-up. */
  lemma {:induction false} IncrementalPlan(k: nat, n: nat, top: nat)
    requires k < n && Shr(k, top) == Shr(n, top)
    ensures Plan(n, Range(k, n), top)
            == Singles(Unchanged(k, n, top) + Reverse(PeaksBelow(k, Merging(k, n, top))))
    decreases top
  {
    hide Shr, Shl, Plan, Reverse, PeaksBelow, MountainPlan, CountBelow, Singles;
    RangeAt(k, n);
    if top == 0 {
      ShrNone(k);
      ShrNone(n);
    } else {
      ShrStep(k, top - 1);
      ShrStep(n, top - 1);
      ShrMono(k, n, top - 1);
      if Shr(k, top - 1) != Shr(n, top - 1) {
        MergingPlan(k, n, top);
      } else {
        IncrementalPlan(k, n, top - 1);
        SharedPlan(k, n, top);
      }
    }
  }

  /** The mountain in which the old leaves end. */
  lemma MergingPlan(k: nat, n: nat, top: nat)
    requires k < n && top > 0 && Shr(n, top - 1) % 2 == 1 && Shr(k, top - 1) == Shr(n, top - 1) - 1
    ensures Plan(n, Range(k, n), top) == Singles([] + Reverse(PeaksBelow(k, top - 1)))
  {
    hide Shr, Shl, Plan, Reverse, PeaksBelow, MountainPlan, CountBelow, Singles, Range, HashPlan;
    var c := Coord(top - 1, Shr(n, top - 1) - 1);
    var e := Shl(c.j + 1, c.h);
    RangeFirst(k, n);
    SuffixPlan(k, c);
    ShlShr(c.j + 1, n, c.h);
    RangeSplit(k, e, n);
    WholeMountains(n, top - 1);
    PlanUnfold(n, Range(k, n), top);
    NothingElse(Singles(Reverse(PeaksBelow(k, top - 1))), Reverse(PeaksBelow(k, top - 1)));
  }

  lemma NothingElse<A, B>(a: seq<A>, b: seq<B>)
    ensures a + [] == a && [] + b == b
  {
  }

  /** A peak both forests have. */
  lemma SharedPlan(k: nat, n: nat, top: nat)
    requires k < n && top > 0 && Shr(k, top - 1) == Shr(n, top - 1)
    requires Plan(n, Range(k, n), top - 1)
             == Singles(Unchanged(k, n, top - 1) + Reverse(PeaksBelow(k, Merging(k, n, top - 1))))
    ensures Plan(n, Range(k, n), top)
            == Singles(Unchanged(k, n, top) + Reverse(PeaksBelow(k, Merging(k, n, top))))
  {
    hide Shr, Shl, Plan, HashPlan, Reverse, PeaksBelow, CountBelow, Singles, Range, Unchanged, Merging, Siblings;
    RangeFirst(k, n);
    PartingStep(k, n, top);
    var u, absorbed := Unchanged(k, n, top - 1), Reverse(PeaksBelow(k, Merging(k, n, top - 1)));
    if Shr(n, top - 1) % 2 == 0 {
      PlanSkip(n, Range(k, n), top);
    } else {
      var c := Coord(top - 1, Shr(n, top - 1) - 1);
      var e := Shl(c.j + 1, c.h);
      ShlShr(c.j + 1, k, c.h);
      PlanUnfold(n, Range(k, n), top);
      NoneBelow(Range(k, n), e);
      assert Range(k, n)[0..] == Range(k, n);
      assert ([c] + u) + absorbed == [c] + (u + absorbed);
      SinglesCons(c, u + absorbed);
    }
  }

  lemma NoneBelow(s: seq<nat>, bound: nat)
    requires s == [] || s[0] >= bound
    ensures CountBelow(s, bound) == 0 && s[..0] == []
  {
  }
}
