/** A forest and a later one of the same run: the peaks they share, and the mountain that absorbs the others. */
module Parting {
  import opened Bits
  import opened Forest

  /** The height of the mountain of the n-leaf forest in which the k-leaf forest ends. */
  function Merging(k: nat, n: nat, top: nat): nat {
    if top == 0 then 0
    else if Shr(k, top - 1) != Shr(n, top - 1) then top - 1
    else Merging(k, n, top - 1)
  }

  /** The peaks the two forests share. */
  function Unchanged(k: nat, n: nat, top: nat): seq<Coord> {
    if top == 0 || Shr(k, top - 1) != Shr(n, top - 1) then []
    else (if Shr(n, top - 1) % 2 == 1 then [Coord(top - 1, Shr(n, top - 1) - 1)] else []) + Unchanged(k, n, top - 1)
  }

  lemma PartingStep(k: nat, n: nat, top: nat)
    requires top > 0
    ensures Shr(k, top - 1) != Shr(n, top - 1) ==> Merging(k, n, top) == top - 1 && Unchanged(k, n, top) == []
    ensures Shr(k, top - 1) == Shr(n, top - 1) ==>
              && Merging(k, n, top) == Merging(k, n, top - 1)
              && (Shr(n, top - 1) % 2 == 0 ==> Unchanged(k, n, top) == Unchanged(k, n, top - 1))
              && (Shr(n, top - 1) % 2 == 1 ==>
                    Unchanged(k, n, top) == [Coord(top - 1, Shr(n, top - 1) - 1)] + Unchanged(k, n, top - 1))
  {
    hide Shr;
    assert [] + Unchanged(k, n, top - 1) == Unchanged(k, n, top - 1);
  }

  lemma ShrNone(k: nat)
    ensures Shr(k, 0) == k
  {
  }

  /** Where the two forests part: the rest of the smaller one is absorbed by one mountain. */
  lemma {:induction false} Part(k: nat, n: nat, top: nat)
    requires k < n && Shr(k, top) == Shr(n, top)
    ensures var d := Merging(k, n, top);
            && d < top && Shr(n, d) % 2 == 1 && Shr(k, d) == Shr(n, d) - 1
            && PeaksBelow(k, top) == Unchanged(k, n, top) + PeaksBelow(k, d)
            && PeaksBelow(n, top) == Unchanged(k, n, top) + ([Coord(d, Shr(n, d) - 1)] + PeaksBelow(n, d))
    decreases top
  {
    hide Shr, PeaksBelow, Merging, Unchanged;
    if top == 0 {
      ShrNone(k);
      ShrNone(n);
    } else {
      ShrStep(k, top - 1);
      ShrStep(n, top - 1);
      ShrMono(k, n, top - 1);
      PartingStep(k, n, top);
      PeaksBelowStep(k, top);
      PeaksBelowStep(n, top);
      if Shr(k, top - 1) == Shr(n, top - 1) {
        Part(k, n, top - 1);
        if Shr(n, top - 1) % 2 == 1 {
          var d := Merging(k, n, top - 1);
          Joins(Coord(top - 1, Shr(n, top - 1) - 1), Unchanged(k, n, top - 1), PeaksBelow(k, d),
                [Coord(d, Shr(n, d) - 1)] + PeaksBelow(n, d));
        }
      } else {
        NothingShared(PeaksBelow(k, top - 1), PeaksBelow(n, top));
      }
    }
  }

  lemma Joins(c: Coord, u: seq<Coord>, a: seq<Coord>, b: seq<Coord>)
    ensures [c] + (u + a) == ([c] + u) + a && [c] + (u + b) == ([c] + u) + b
  {
  }

  lemma NothingShared(a: seq<Coord>, b: seq<Coord>)
    ensures [] + a == a && [] + b == b
  {
  }

  lemma {:induction false} UnchangedAll(n: nat, top: nat)
    ensures Unchanged(n, n, top) == PeaksBelow(n, top)
  {
    hide Shr, PeaksBelow, Unchanged, Merging;
    if top > 0 {
      UnchangedAll(n, top - 1);
      PartingStep(n, n, top);
      PeaksBelowStep(n, top);
    } else {
      UnchangedNone(n);
    }
  }

  lemma UnchangedNone(n: nat)
    ensures Unchanged(n, n, 0) == [] == PeaksBelow(n, 0)
  {
  }

  /** Peaks of m below height k lie over the leaves from m / 2^k * 2^k on. */
  lemma LowPeaksUnder(m: nat, k: nat, p: Coord)
    requires p == Coord(k, Shr(m, k))
    ensures forall i :: 0 <= i < |PeaksBelow(m, k)| ==> Under(PeaksBelow(m, k)[i].h, PeaksBelow(m, k)[i].j, p.h, p.j)
  {
    hide Shr, PeaksBelow;
    forall i | 0 <= i < |PeaksBelow(m, k)|
      ensures Under(PeaksBelow(m, k)[i].h, PeaksBelow(m, k)[i].j, p.h, p.j)
    {
      var c := PeaksBelow(m, k)[i];
      PeaksBelowMember(m, k, c);
      ShrStep(m, c.h);
      ShrShr(c.j, 1, k - c.h - 1);
      ShrShr(Shr(m, c.h), 1, k - c.h - 1);
      ShrShr(m, c.h, k - c.h);
      ShrOnce(c.j);
      ShrOnce(Shr(m, c.h));
    }
  }

  lemma ShrOnce(x: nat)
    ensures Shr(x, 1) == x / 2
  {
  }

  /** The number of peaks the forests of m and n leaves share. */
  function Shared(m: nat, n: nat): nat {
    |Unchanged(m, n, BitLength(n))|
  }

  lemma SameTop(m: nat, n: nat)
    requires m <= n
    ensures Shr(m, BitLength(n)) == Shr(n, BitLength(n))
    ensures PeaksBelow(m, BitLength(n)) == Peaks(m) && PeaksBelow(n, BitLength(n)) == Peaks(n)
  {
    hide PeaksBelow, Shr;
    if n > 0 { BitLengthBounds(n); }
    BitLengthBelow(m, BitLength(n));
    PeaksFrom(m, BitLength(n));
    ShrZero(m, BitLength(n));
    ShrZero(n, BitLength(n));
  }

  /** A shared peak covers itself; the first mountain not shared covers the others. */
  lemma OldPeakUnder(m: nat, n: nat, i: nat)
    requires m <= n && i < |Peaks(m)|
    ensures Shared(m, n) <= |Peaks(m)|
    ensures var (c, k) := (Peaks(m)[i], if i < Shared(m, n) then i else Shared(m, n));
            k < |Peaks(n)| && Under(c.h, c.j, Peaks(n)[k].h, Peaks(n)[k].j)
  {
    hide PeaksBelow, Shr, Unchanged, Merging, Under, Peaks;
    var top := BitLength(n);
    SameTop(m, n);
    UnderSelf(Peaks(m)[i]);
    if m == n {
      UnchangedAll(n, top);
    } else {
      Part(m, n, top);
      var d, u := Merging(m, n, top), Unchanged(m, n, top);
      LowPeaksUnder(m, d, Coord(d, Shr(m, d)));
      if i >= |u| { assert Peaks(m)[i] == PeaksBelow(m, d)[i - |u|]; }
    }
  }

  lemma UnderSelf(c: Coord)
    ensures Under(c.h, c.j, c.h, c.j)
  {
  }
}
