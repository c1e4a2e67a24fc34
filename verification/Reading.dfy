/** Reading nodes of the forest out of a store view, as both structures do. */
module Reading {
  import opened Forest
  import opened Nodes
  import opened Bagging
  import opened Wrappers

  /** `collect::<Result<Vec<_>, _>>` */
  function Unwrapped<T>(elems: seq<Option<T>>): (r: Result<seq<T>>)
    ensures (forall i :: 0 <= i < |elems| ==> elems[i].Some?) ==>
              r.Ok? && |r.value| == |elems| && forall i :: 0 <= i < |elems| ==> r.value[i] == elems[i].value
  {
    if elems == [] then Ok([])
    else if elems[0].None? then Err(InconsistentStore)
    else
      match Unwrapped(elems[1..])
      case Err(e) => Err(e)
      case Ok(rest) => Ok([elems[0].value] + rest)
  }

  /** Looking up the positions of some nodes finds their values. */
  lemma ValuesRead<T>(view: map<nat, T>, f: Combine<T>, ls: seq<T>, cs: seq<Coord>, positions: seq<nat>)
    requires Holds(view, f, ls) && AllIn(|ls|, cs) && positions == Positions(cs)
    ensures |positions| == |cs| == |Values(f, ls, cs)|
    ensures forall i :: 0 <= i < |positions| ==> positions[i] in view && view[positions[i]] == Values(f, ls, cs)[i]
  {
    hide Holds, Pos, Node, InForest;
    forall i | 0 <= i < |positions|
      ensures positions[i] in view && view[positions[i]] == Values(f, ls, cs)[i]
    {
      HoldsNode(view, f, ls, cs[i].h, cs[i].j);
    }
  }

  lemma PeaksRead<T>(view: map<nat, T>, f: Combine<T>, ls: seq<T>, positions: seq<nat>)
    requires Holds(view, f, ls) && positions == Positions(Peaks(|ls|))
    ensures |positions| == |PeakValues(f, ls)|
    ensures forall i :: 0 <= i < |positions| ==> positions[i] in view && view[positions[i]] == PeakValues(f, ls)[i]
  {
    hide Holds, Values, Positions, Peaks;
    PeaksAllIn(|ls|);
    ValuesRead(view, f, ls, Peaks(|ls|), positions);
  }

  lemma SmallSizes(n: nat)
    ensures Size(n) == 0 <==> n == 0
    ensures Size(n) == 1 <==> n == 1
  {
    SizeAboveOne(n);
    assert Size(1) == 1;
  }
}
