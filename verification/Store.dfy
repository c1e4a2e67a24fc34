/**
 The write batch over a store (`src/mmr_store.rs`), with the in-memory store of `src/util.rs`
 standing for every infallible one.

 `View` is the store as it would read with the whole batch written, in order.
 */
module Store {
  import opened Bits
  import opened Wrappers

  datatype Segment<T> = Segment(start: u64, elems: seq<T>) {
    predicate Covers(pos: nat) {
      start <= pos < start + |elems|
    }
  }

  function Read<T>(m: map<nat, T>, pos: nat): Option<T> {
    if pos in m then Some(m[pos]) else None
  }

  function Write<T>(m: map<nat, T>, s: Segment<T>): map<nat, T> {
    m + map p: nat | s.start <= p < s.start + |s.elems| && s.Covers(p) :: s.elems[p - s.start]
  }

  function View<T>(m: map<nat, T>, segs: seq<Segment<T>>): map<nat, T> {
    if segs == [] then m else Write(View(m, segs[..|segs| - 1]), segs[|segs| - 1])
  }

  /** Writing the oldest segment first leaves the same view. */
  lemma {:induction false} ViewDrain<T>(m: map<nat, T>, segs: seq<Segment<T>>)
    requires segs != []
    ensures View(Write(m, segs[0]), segs[1..]) == View(m, segs)
  {
    if |segs| > 1 {
      ViewDrain(m, segs[..|segs| - 1]);
      assert segs[1..][..|segs| - 2] == segs[..|segs| - 1][1..];
    }
  }

  /** The batch as a run leaves it: segments in ascending order that do not overlap, up to `end`. */
  ghost predicate Ascending<T>(segs: seq<Segment<T>>, end: nat) {
    && (forall i :: 0 <= i < |segs| ==> segs[i].start + |segs[i].elems| <= end)
    && (forall i, k :: 0 <= i < k < |segs| ==> segs[i].start + |segs[i].elems| <= segs[k].start)
  }

  lemma AscendingAppend<T>(segs: seq<Segment<T>>, end: nat, s: Segment<T>)
    requires Ascending(segs, end) && s.start == end
    ensures Ascending(segs + [s], end + |s.elems|)
  {
  }

  // ----- what the two read paths compute -----

  /** `get_elem`: newest first, giving up at the first segment that starts at or before pos. */
  function Scan<T>(segs: seq<Segment<T>>, m: map<nat, T>, pos: nat): Option<T> {
    if segs == [] then Read(m, pos)
    else
      var s := segs[|segs| - 1];
      if pos < s.start then Scan(segs[..|segs| - 1], m, pos)
      else if s.Covers(pos) then Some(s.elems[pos - s.start])
      else Read(m, pos)
  }

  /** The newest segment starting at or before pos misses it, and an older one holds it. */
  ghost predicate Blocked<T>(segs: seq<Segment<T>>, pos: nat) {
    segs != [] &&
    var s, older := segs[|segs| - 1], segs[..|segs| - 1];
    if pos < s.start then Blocked(older, pos)
    else !s.Covers(pos) && exists i :: 0 <= i < |older| && older[i].Covers(pos)
  }

  /** The element the newest segment covering pos holds there. */
  function NewestCovering<T>(segs: seq<Segment<T>>, pos: nat): Option<T> {
    if segs == [] then None
    else
      var s := segs[|segs| - 1];
      if s.Covers(pos) then Some(s.elems[pos - s.start]) else NewestCovering(segs[..|segs| - 1], pos)
  }

  /** The overlay reads that element, and the store where there is none. */
  lemma {:induction false} ViewIsNewest<T>(segs: seq<Segment<T>>, m: map<nat, T>, pos: nat)
    ensures Read(View(m, segs), pos)
            == if NewestCovering(segs, pos).Some? then NewestCovering(segs, pos) else Read(m, pos)
    ensures NewestCovering(segs, pos).Some? <==> exists i :: 0 <= i < |segs| && segs[i].Covers(pos)
  {
    if segs != [] {
      var older := segs[..|segs| - 1];
      ViewIsNewest(older, m, pos);
      assert forall i :: 0 <= i < |older| ==> segs[i] == older[i];
      assert segs[|segs| - 1].Covers(pos) || NewestCovering(older, pos).Some? ==>
          exists i :: 0 <= i < |segs| && segs[i].Covers(pos);
    }
  }

  /**
   The early exit of `get_elem` is observable exactly at the blocked positions where the store differs
   from the newest buffered element.
   */
  lemma {:induction false} ScanIsView<T>(segs: seq<Segment<T>>, m: map<nat, T>, pos: nat)
    ensures Scan(segs, m, pos) == Read(View(m, segs), pos)
            <==> !Blocked(segs, pos) || Read(m, pos) == NewestCovering(segs, pos)
    ensures Blocked(segs, pos) ==> Scan(segs, m, pos) == Read(m, pos) && NewestCovering(segs, pos).Some?
  {
    if segs != [] {
      var s, older := segs[|segs| - 1], segs[..|segs| - 1];
      ViewIsNewest(segs, m, pos);
      ViewIsNewest(older, m, pos);
      if pos < s.start {
        ScanIsView(older, m, pos);
      }
    }
  }

  lemma {:induction false} AscendingNotBlocked<T>(segs: seq<Segment<T>>, end: nat, pos: nat)
    requires Ascending(segs, end)
    ensures !Blocked(segs, pos)
  {
    if segs != [] {
      AscendingNotBlocked(segs[..|segs| - 1], end, pos);
    }
  }

  /** Under the segments a run appends, both read paths agree with the view at every position. */
  lemma ScanAscending<T>(segs: seq<Segment<T>>, end: nat, m: map<nat, T>, pos: nat)
    requires Ascending(segs, end)
    ensures Scan(segs, m, pos) == Read(View(m, segs), pos)
  {
    AscendingNotBlocked(segs, end, pos);
    ScanIsView(segs, m, pos);
  }

  /** Without that order `get_elem` can miss a buffered element. */
  lemma ScanBlocked() returns (segs: seq<Segment<int>>, pos: nat)
    ensures Scan(segs, map[], pos) == None && Read(View(map[], segs), pos) == Some(7)
  {
    segs, pos := [Segment(5, [7]), Segment(3, [])], 5;
    assert segs[..1] == [Segment(5, [7])];
    assert View(map[], segs[..0]) == map[];
    assert View(map[], segs[..1]) == Write(map[], Segment(5, [7]));
    assert Segment(5, [7]).Covers(5);
  }

  // ----- the store -----

  class MemStore<T> {
    var elems: map<nat, T>

    constructor ()
      ensures elems == map[]
    {
      elems := map[];
    }

    method GetElem(pos: u64) returns (elem: Option<T>)
      ensures elem == Read(elems, pos)
    {
      elem := if pos in elems then Some(elems[pos]) else None;
    }

    method GetElems(positions: seq<u64>) returns (found: seq<Option<T>>)
      ensures |found| == |positions|
      ensures forall i :: 0 <= i < |positions| ==> found[i] == Read(elems, positions[i])
    {
      found := [];
      for i := 0 to |positions|
        invariant |found| == i
        invariant forall k :: 0 <= k < i ==> found[k] == Read(elems, positions[k])
      {
        var elem := GetElem(positions[i]);
        found := found + [elem];
      }
    }

    method Append(pos: u64, items: seq<T>)
      modifies this
      ensures elems == Write(old(elems), Segment(pos, items))
    {
      for i := 0 to |items|
        invariant elems == Write(old(elems), Segment(pos, items[..i]))
      {
        elems := elems[pos + i := items[i]];
        WriteNext(old(elems), pos, items, i);
      }
      assert items[..|items|] == items;
    }
  }

  lemma WriteNext<T>(m: map<nat, T>, pos: u64, items: seq<T>, i: nat)
    requires i < |items|
    ensures Write(m, Segment(pos, items[..i + 1])) == Write(m, Segment(pos, items[..i]))[pos + i := items[i]]
  {
    var a, b := Segment(pos, items[..i + 1]), Segment(pos, items[..i]);
    assert forall p: nat :: a.Covers(p) <==> b.Covers(p) || p == pos + i;
  }

  // ----- the batch -----

  /** Newest first: a segment either decides what the view reads at pos or leaves it to the older ones. */
  lemma ViewStep<T>(m: map<nat, T>, segs: seq<Segment<T>>, i: nat, pos: nat)
    requires i < |segs|
    ensures var s := segs[i];
            Read(View(m, segs[..i + 1]), pos)
            == if s.Covers(pos) then Some(s.elems[pos - s.start]) else Read(View(m, segs[..i]), pos)
  {
    assert segs[..i + 1][..i] == segs[..i];
  }

  class MMRBatch<T> {
    var memoryBatch: seq<Segment<T>>
    const store: MemStore<T>

    /** The store with everything buffered written to it. */
    ghost function Contents(): map<nat, T>
      reads this, store
    {
      View(store.elems, memoryBatch)
    }

    constructor (store: MemStore<T>)
      ensures this.store == store && memoryBatch == []
      ensures Contents() == store.elems
    {
      this.store := store;
      memoryBatch := [];
    }

    method Append(pos: u64, elems: seq<T>)
      modifies this
      ensures memoryBatch == old(memoryBatch) + [Segment(pos, elems)]
      ensures Contents() == Write(old(Contents()), Segment(pos, elems))
    {
      memoryBatch := memoryBatch + [Segment(pos, elems)];
      assert memoryBatch[..|memoryBatch| - 1] == old(memoryBatch);
    }

    method GetElem(pos: u64) returns (elem: Option<T>)
      ensures elem == Scan(memoryBatch, store.elems, pos)
      ensures forall end: nat :: Ascending(memoryBatch, end) ==> elem == Read(Contents(), pos)
    {
      forall end: nat | Ascending(memoryBatch, end)
        ensures Scan(memoryBatch, store.elems, pos) == Read(Contents(), pos)
      {
        ScanAscending(memoryBatch, end, store.elems, pos);
      }
      var i := |memoryBatch|;
      assert memoryBatch[..i] == memoryBatch;
      while i > 0
        invariant 0 <= i <= |memoryBatch|
        invariant Scan(memoryBatch, store.elems, pos) == Scan(memoryBatch[..i], store.elems, pos)
      {
        i := i - 1;
        var s := memoryBatch[i];
        assert memoryBatch[..i + 1][..i] == memoryBatch[..i];
        if pos < s.start {
          continue;
        }
        if pos < s.start + |s.elems| {
          return Some(s.elems[pos - s.start]);
        }
        elem := store.GetElem(pos);
        return;
      }
      elem := store.GetElem(pos);
    }

    /** The `any` search of `get_elems`: every segment, newest first. */
    method FindBuffered(pos: u64) returns (elem: Option<T>)
      ensures elem.Some? ==> elem == Read(Contents(), pos)
      ensures elem.None? ==> Read(store.elems, pos) == Read(Contents(), pos)
    {
      ghost var m, segs := store.elems, memoryBatch;
      assert segs[..|segs|] == segs;
      assert View(m, segs[..0]) == m;
      hide View, Read;
      var i := |memoryBatch|;
      while i > 0
        invariant 0 <= i <= |segs|
        invariant Read(View(m, segs), pos) == Read(View(m, segs[..i]), pos)
      {
        i := i - 1;
        ViewStep(m, segs, i, pos);
        var s := memoryBatch[i];
        if s.start <= pos && pos < s.start + |s.elems| {
          return Some(s.elems[pos - s.start]);
        }
      }
      elem := None;
    }

    /** Reads the view at every position, whatever the order of the segments. */
    method GetElems(positions: seq<u64>) returns (found: seq<Option<T>>)
      ensures |found| == |positions|
      ensures forall i :: 0 <= i < |positions| ==> found[i] == Read(Contents(), positions[i])
    {
      hide Read, View;
      var results := new Option<T>[|positions|](_ => None);
      var missingIndices: seq<nat> := [];
      var missingPositions: seq<u64> := [];
      for i := 0 to |positions|
        invariant |missingIndices| == |missingPositions|
        invariant forall k :: 0 <= k < |missingIndices| ==>
                    missingIndices[k] < i && missingPositions[k] == positions[missingIndices[k]]
        invariant forall k :: 0 <= k < |missingIndices| ==>
                    Read(Contents(), missingPositions[k]) == Read(store.elems, missingPositions[k])
        invariant forall p :: 0 <= p < i && p !in missingIndices ==> results[p] == Read(Contents(), positions[p])
      {
        var elem := FindBuffered(positions[i]);
        if elem.Some? {
          results[i] := elem;
        } else {
          missingIndices := missingIndices + [i];
          missingPositions := missingPositions + [positions[i]];
        }
      }
      if |missingPositions| > 0 {
        var fetched := store.GetElems(missingPositions);
        for k := 0 to |missingIndices|
          invariant forall p :: 0 <= p < |positions| && p !in missingIndices[k..] ==>
                      results[p] == Read(Contents(), positions[p])
        {
          assert missingIndices[k..] == [missingIndices[k]] + missingIndices[k + 1..];
          results[missingIndices[k]] := fetched[k];
        }
      }
      found := results[..];
    }

    /** Nothing that is read through the batch changes; the store now holds it all. */
    method Commit()
      modifies this, store
      ensures memoryBatch == [] && Contents() == store.elems == old(Contents())
    {
      while |memoryBatch| > 0
        invariant Contents() == old(Contents())
        decreases |memoryBatch|
      {
        ViewDrain(store.elems, memoryBatch);
        var s := memoryBatch[0];
        memoryBatch := memoryBatch[1..];
        store.Append(s.start, s.elems);
      }
    }
  }
}
