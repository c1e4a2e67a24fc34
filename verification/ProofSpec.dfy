/**
 The verifier of `src/mmr.rs` on arbitrary input, and the proof the prover owes it.
 */
module ProofSpec {
  import opened Bits
  import opened Forest
  import opened Nodes
  import opened Bagging
  import opened ProofPlan
  import opened QueueWalk
  import opened Wrappers

  datatype Leaf<T> = Leaf(pos: u64, item: T)

  // ----- sorting and removing duplicates -----

  /** A stable sort by key followed by dropping later entries of equal key. */
  function Distinct<A>(key: A -> nat, s: seq<A>): seq<A> {
    if s == [] then [] else InsertFirst(key, s[0], Distinct(key, s[1..]))
  }

  function InsertFirst<A>(key: A -> nat, x: A, s: seq<A>): seq<A> {
    if s == [] || key(x) < key(s[0]) then [x] + s
    else if key(x) == key(s[0]) then [x] + s[1..]
    else [s[0]] + InsertFirst(key, x, s[1..])
  }

  function PosKey(p: nat): nat {
    p
  }

  function LeafKey<T>(l: Leaf<T>): nat {
    l.pos
  }

  // ----- the verifier -----

  /** The leaves of a prefix up to the peak. */
  function UpTo<T>(leaves: seq<Leaf<T>>, peakPos: nat): (k: nat)
    ensures k <= |leaves|
    ensures forall i :: 0 <= i < k ==> leaves[i].pos <= peakPos
    ensures k < |leaves| ==> leaves[k].pos > peakPos
  {
    if leaves == [] || leaves[0].pos > peakPos then 0 else 1 + UpTo(leaves[1..], peakPos)
  }

  function Queue<T>(leaves: seq<Leaf<T>>): seq<Entry<T>> {
    seq(|leaves|, i requires 0 <= i < |leaves| => Entry(leaves[i].pos, leaves[i].item, 0))
  }

  /** The value of one mountain: a lone peak, a proof item, or what the queue computes. */
  ghost function MountainHash<T>(m: Hasher<T>, here: seq<Leaf<T>>, peakPos: nat, proof: seq<T>): Result<(T, seq<T>)>
    requires forall i :: 0 <= i < |here| ==> here[i].pos <= peakPos
  {
    if |here| == 1 && here[0].pos == peakPos then Ok((here[0].item, proof))
    else if here == [] then if proof == [] then Err(CorruptedProof) else Ok((proof[0], proof[1..]))
    else PeakWalk(m, Queue(here), peakPos, proof)
  }

  /** The loop over the peaks: the hashes found, and the leaves and items left over. */
  ghost function PeakHashes<T>(m: Hasher<T>, leaves: seq<Leaf<T>>, peaks: seq<nat>, proof: seq<T>)
    : Result<(seq<T>, seq<Leaf<T>>, seq<T>)>
    decreases |peaks|
  {
    if peaks == [] then Ok(([], leaves, proof))
    else
      var k := UpTo(leaves, peaks[0]);
      if k == 0 && proof == [] then Ok(([], leaves, proof))
      else
        match MountainHash(m, leaves[..k], peaks[0], proof)
        case Err(e) => Err(e)
        case Ok((hash, proof')) =>
          match PeakHashes(m, leaves[k..], peaks[1..], proof')
          case Err(e) => Err(e)
          case Ok((hashes, left, rest)) => Ok(([hash] + hashes, left, rest))
  }

  /** `calculate_peaks_hashes` */
  ghost function PeaksHashes<T>(m: Hasher<T>, leaves: seq<Leaf<T>>, mmrSize: nat, proof: seq<T>): Result<seq<T>> {
    if exists i :: 0 <= i < |leaves| && Height(leaves[i].pos) > 0 then Err(NodeProofsNotSupported)
    else if mmrSize == 1 && |leaves| == 1 && leaves[0].pos == 0 then Ok([leaves[0].item])
    else
      match PeakHashes(m, Distinct(LeafKey, leaves), Positions(Peaks(MaxLeaves(mmrSize))), proof)
      case Err(e) => Err(e)
      case Ok((hashes, left, rest)) =>
        if left != [] || |rest| > 1 then Err(CorruptedProof) else Ok(hashes + rest)
  }

  /** `calculate_root` */
  ghost function CalculatedRoot<T>(m: Hasher<T>, leaves: seq<Leaf<T>>, mmrSize: nat, proof: seq<T>): Result<T> {
    match PeaksHashes(m, leaves, mmrSize, proof)
    case Err(e) => Err(e)
    case Ok(hashes) => if hashes == [] then Err(CorruptedProof) else Ok(Bag(m, hashes))
  }

  /** `verify` */
  ghost function Verified<T>(m: Hasher<T>, root: T, leaves: seq<Leaf<T>>, mmrSize: nat, proof: seq<T>): Result<bool> {
    match CalculatedRoot(m, leaves, mmrSize, proof)
    case Err(e) => Err(e)
    case Ok(r) => Ok(r == root)
  }

  // ----- the proof -----

  ghost function ItemValue<T>(m: Hasher<T>, ls: seq<T>, item: Item): T
    requires AllIn(|ls|, item)
  {
    Bag(m, Values(MmrCombine(m), ls, item))
  }

  ghost function ItemValues<T>(m: Hasher<T>, ls: seq<T>, plan: seq<Item>): seq<T>
    requires PlanIn(|ls|, plan)
  {
    seq(|plan|, i requires 0 <= i < |plan| => ItemValue(m, ls, plan[i]))
  }

  lemma ItemValuesAppend<T>(m: Hasher<T>, ls: seq<T>, a: seq<Item>, b: seq<Item>)
    requires PlanIn(|ls|, a) && PlanIn(|ls|, b)
    ensures PlanIn(|ls|, a + b)
    ensures ItemValues(m, ls, a + b) == ItemValues(m, ls, a) + ItemValues(m, ls, b)
  {
    hide ItemValue, AllIn;
  }

  lemma SinglesValues<T>(m: Hasher<T>, ls: seq<T>, cs: seq<Coord>)
    requires AllIn(|ls|, cs)
    ensures PlanIn(|ls|, Singles(cs))
    ensures ItemValues(m, ls, Singles(cs)) == Values(MmrCombine(m), ls, cs)
  {
    hide InForest, Node, MmrCombine;
    forall i | 0 <= i < |cs|
      ensures AllIn(|ls|, Singles(cs)[i]) && ItemValue(m, ls, Singles(cs)[i]) == Values(MmrCombine(m), ls, cs)[i]
    {
      assert Singles(cs)[i] == [cs[i]] && InForest(|ls|, cs[i]);
    }
  }

  /** Every item of a plan is made of nodes of the forest. */
  lemma {:induction false} PlanInForest(n: nat, leaves: seq<nat>, k: nat)
    requires LeavesFrom(n, leaves, k)
    ensures PlanIn(n, Plan(n, leaves, k)) && PlanIn(n, HashPlan(n, leaves, k))
    decreases k
  {
    hide Shr, Shl, InForest, Under, LeavesFrom, Climb, Row, MountainPlan, PeaksBelow, Plan, HashPlan, PlanIn, CountBelow;
    if leaves == [] {
      PlanEnds(n, leaves, k);
      PeaksBelowIn(n, k);
      TailIn(n, PeaksBelow(n, k));
    } else if k == 0 {
      LeavesDone(n, leaves);
    } else if Shr(n, k - 1) % 2 == 0 {
      LeavesSkip(n, leaves, k);
      PlanSkip(n, leaves, k);
      PlanInForest(n, leaves, k - 1);
    } else {
      var c := Coord(k - 1, Shr(n, k - 1) - 1);
      var t := CountBelow(leaves, Shl(c.j + 1, c.h));
      LeavesSplit(n, leaves, k);
      PlanUnfold(n, leaves, k);
      PlanInForest(n, leaves[t..], k - 1);
      MountainPlanIn(n, leaves[..t], c);
      InTogether(n, MountainPlan(leaves[..t], c), Plan(n, leaves[t..], k - 1));
      PeakAloneIn(n, c);
      InTogether(n, [[c]], HashPlan(n, leaves[t..], k - 1));
    }
  }

  lemma PlanEnds(n: nat, leaves: seq<nat>, k: nat)
    requires leaves == []
    ensures var tail: seq<Item> := if PeaksBelow(n, k) == [] then [] else [PeaksBelow(n, k)];
            Plan(n, leaves, k) == tail && HashPlan(n, leaves, k) == tail
  {
    hide PeaksBelow;
  }

  lemma TailIn(n: nat, peaks: seq<Coord>)
    requires AllIn(n, peaks)
    ensures PlanIn(n, if peaks == [] then [] else [peaks])
  {
    hide InForest;
  }

  lemma PeakAloneIn(n: nat, c: Coord)
    requires InForest(n, c)
    ensures PlanIn(n, [[c]])
  {
    hide InForest;
    assert AllIn(n, [c]);
  }

  lemma InTogether(n: nat, a: seq<Item>, b: seq<Item>)
    requires PlanIn(n, a) && PlanIn(n, b)
    ensures PlanIn(n, a + b)
  {
    hide AllIn;
  }

  lemma PeaksBelowIn(n: nat, k: nat)
    ensures AllIn(n, PeaksBelow(n, k))
  {
    hide PeaksBelow, Shr;
    forall i | 0 <= i < |PeaksBelow(n, k)|
      ensures InForest(n, PeaksBelow(n, k)[i])
    {
      PeaksBelowMember(n, k, PeaksBelow(n, k)[i]);
    }
  }

  lemma MountainPlanIn(n: nat, here: seq<nat>, c: Coord)
    requires InForest(n, c)
    requires here != [] && c.h > 0 ==> Climb(c, 0, here, [])
    ensures PlanIn(n, MountainPlan(here, c))
  {
    hide InForest, Climb;
    if here == [] {
      assert AllIn(n, [c]);
    } else if c.h > 0 {
      ClimbSiblingsIn(n, c, 0, here, []);
      var sibs := Siblings(0, here, [], c.h);
      forall i | 0 <= i < |sibs|
        ensures AllIn(n, Singles(sibs)[i])
      {
        assert Singles(sibs)[i] == [sibs[i]] && InForest(n, sibs[i]);
      }
    }
  }
}
