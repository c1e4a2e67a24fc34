/** Peak bagging, shared by both structures and by the proofs. */
module Bagging {
  import opened Bits
  import opened Forest
  import opened Nodes
  import opened Wrappers

  /** Right to left: each step merges what is bagged so far with the peak on its left. */
  function Bag<T>(m: Hasher<T>, peaks: seq<T>): T
    requires peaks != []
  {
    if |peaks| == 1 then peaks[0] else m.mergePeaks(Bag(m, peaks[1..]), peaks[0])
  }

  /** A bagged suffix may stand for the peaks it was made from. */
  lemma {:induction false} BagSuffix<T>(m: Hasher<T>, a: seq<T>, b: seq<T>)
    requires b != []
    ensures Bag(m, a + b) == Bag(m, a + [Bag(m, b)])
  {
    if a == [] {
      assert a + b == b && a + [Bag(m, b)] == [Bag(m, b)];
    } else {
      BagSuffix(m, a[1..], b);
      assert (a + b)[1..] == a[1..] + b;
      assert (a + [Bag(m, b)])[1..] == a[1..] + [Bag(m, b)];
    }
  }

  /** `bag_rhs_peaks` of both structures, and the loop of `bagging_peaks_hashes`. */
  method BagRhsPeaks<T>(m: Hasher<T>, peaks: seq<T>) returns (bagged: Option<T>)
    ensures bagged == if peaks == [] then None else Some(Bag(m, peaks))
  {
    var rhsPeaks := peaks;
    while |rhsPeaks| > 1
      invariant peaks == [] <==> rhsPeaks == []
      invariant peaks != [] ==> Bag(m, rhsPeaks) == Bag(m, peaks)
      decreases |rhsPeaks|
    {
      var n := |rhsPeaks|;
      var rightPeak, leftPeak := rhsPeaks[n - 1], rhsPeaks[n - 2];
      BagSuffix(m, rhsPeaks[..n - 2], [leftPeak, rightPeak]);
      assert rhsPeaks == rhsPeaks[..n - 2] + [leftPeak, rightPeak];
      assert [leftPeak, rightPeak][1..] == [rightPeak];
      rhsPeaks := rhsPeaks[..n - 2] + [m.mergePeaks(rightPeak, leftPeak)];
    }
    bagged := if |rhsPeaks| == 0 then None else Some(rhsPeaks[|rhsPeaks| - 1]);
  }

  lemma PeaksNotEmpty(n: nat)
    ensures Peaks(n) == [] <==> n == 0
  {
    if n > 0 {
      BitLengthBounds(n);
      var b := BitLength(n);
      ShlShr(1, n, b - 1);
      ShlShr(2, n, b - 1);
      ShlTwo(b - 1);
    }
  }

  lemma PeaksAllIn(n: nat)
    ensures AllIn(n, Peaks(n))
  {
    forall i | 0 <= i < |Peaks(n)|
      ensures InForest(n, Peaks(n)[i])
    {
      PeaksInForest(n, Peaks(n)[i]);
    }
  }

  /** The peak values of the forest over ls, left to right. */
  ghost function PeakValues<T>(f: Combine<T>, ls: seq<T>): (vs: seq<T>)
    ensures vs == [] <==> ls == []
  {
    PeaksAllIn(|ls|);
    PeaksNotEmpty(|ls|);
    Values(f, ls, Peaks(|ls|))
  }

  lemma PeakValueAt<T>(f: Combine<T>, ls: seq<T>, k: nat)
    requires k < |Peaks(|ls|)|
    ensures |PeakValues(f, ls)| == |Peaks(|ls|)| && InForest(|ls|, Peaks(|ls|)[k])
    ensures PeakValues(f, ls)[k] == Node(f, ls, Peaks(|ls|)[k].h, Peaks(|ls|)[k].j)
  {
    hide Node, Peaks, InForest;
    PeaksAllIn(|ls|);
  }

  lemma PeakTotal<T>(f: Combine<T>, ls: seq<T>)
    ensures |PeakValues(f, ls)| == |Peaks(|ls|)| && (|Peaks(|ls|)| == 0 <==> |ls| == 0)
  {
    hide Peaks, Node, Shr;
    PeaksAllIn(|ls|);
    PeaksNotEmpty(|ls|);
  }

  /** The root of the forest over ls. */
  ghost function Root<T>(m: Hasher<T>, f: Combine<T>, ls: seq<T>): T
    requires ls != []
  {
    Bag(m, PeakValues(f, ls))
  }
}
