/**
 Several claims for one position: the sort of `calculate_peaks_hashes` is stable and of equal positions
 the first is kept, so the earliest claim of the list is the one that counts.
 */
module FirstClaims {
  import opened ProofSpec
  import opened Completeness

  /** No earlier claim is for the same position. */
  ghost predicate FirstAt<T>(leaves: seq<Leaf<T>>, i: nat) {
    i < |leaves| && forall k :: 0 <= k < i ==> leaves[k].pos != leaves[i].pos
  }

  ghost predicate Counts<T>(leaves: seq<Leaf<T>>, l: Leaf<T>) {
    exists i: nat :: i < |leaves| && FirstAt(leaves, i) && leaves[i] == l
  }

  lemma FirstShift<T>(x: Leaf<T>, rest: seq<Leaf<T>>, i: nat)
    requires i < |rest|
    ensures FirstAt([x] + rest, i + 1) <==> FirstAt(rest, i) && rest[i].pos != x.pos
  {
    var all := [x] + rest;
    assert all[0] == x && all[i + 1] == rest[i];
    assert forall k :: 0 <= k < i ==> all[k + 1] == rest[k];
    assert forall k :: 0 < k < i + 1 ==> all[k] == rest[k - 1];
  }

  lemma CountsBefore<T>(x: Leaf<T>, rest: seq<Leaf<T>>, l: Leaf<T>)
    requires l == x || (l.pos != x.pos && Counts(rest, l))
    ensures Counts([x] + rest, l)
  {
    hide FirstAt;
    var all := [x] + rest;
    if l == x {
      FrontFirst(all);
      assert all[0] == x;
    } else {
      var i: nat :| i < |rest| && FirstAt(rest, i) && rest[i] == l;
      FirstShift(x, rest, i);
      assert all[i + 1] == l;
    }
  }

  lemma FrontFirst<T>(leaves: seq<Leaf<T>>)
    requires leaves != []
    ensures FirstAt(leaves, 0)
  {
  }

  lemma CountsAfter<T>(x: Leaf<T>, rest: seq<Leaf<T>>, l: Leaf<T>)
    requires Counts([x] + rest, l) && l != x
    ensures l.pos != x.pos && Counts(rest, l)
  {
    hide FirstAt;
    var all := [x] + rest;
    var i: nat :| i < |all| && FirstAt(all, i) && all[i] == l;
    assert all[0] == x;
    FirstShift(x, rest, i - 1);
    assert rest[i - 1] == l;
  }

  lemma CountsFront<T>(x: Leaf<T>, rest: seq<Leaf<T>>, l: Leaf<T>)
    ensures Counts([x] + rest, l) <==> l == x || (l.pos != x.pos && Counts(rest, l))
  {
    hide Counts;
    if l == x || (l.pos != x.pos && Counts(rest, l)) {
      CountsBefore(x, rest, l);
    } else if Counts([x] + rest, l) {
      CountsAfter(x, rest, l);
    }
  }

  lemma CountsNone<T>(l: Leaf<T>)
    ensures !Counts([], l)
  {
  }

  /** Positions rise from leaf to leaf. */
  ghost predicate Rising<T>(s: seq<Leaf<T>>) {
    s == [] || (Above(s[0].pos, s[1..]) && Rising(s[1..]))
  }

  ghost predicate Above<T>(p: nat, s: seq<Leaf<T>>) {
    forall l :: l in s ==> p < l.pos
  }

  /** What is inserted takes the place of an entry at its position. */
  lemma {:induction false} InsertKeepsNew<T>(x: Leaf<T>, s: seq<Leaf<T>>)
    requires Rising(s)
    ensures Rising(InsertFirst(LeafKey, x, s))
    ensures forall l :: l in InsertFirst(LeafKey, x, s) <==> l == x || (l.pos != x.pos && l in s)
  {
    if s != [] {
      assert s == [s[0]] + s[1..] && forall l :: l in s[1..] ==> s[0].pos < l.pos;
      if x.pos > s[0].pos {
        InsertKeepsNew(x, s[1..]);
        RisingFront(s[0], InsertFirst(LeafKey, x, s[1..]));
      } else if x.pos == s[0].pos {
        RisingFront(x, s[1..]);
      } else {
        RisingFront(x, s);
      }
    }
  }

  lemma RisingFront<T>(x: Leaf<T>, s: seq<Leaf<T>>)
    requires Rising(s) && forall l :: l in s ==> x.pos < l.pos
    ensures Rising([x] + s) && forall l :: l in [x] + s <==> l == x || l in s
  {
    assert ([x] + s)[1..] == s;
  }

  /** What sorting and removing duplicates leaves are the claims that count, by position. */
  lemma {:induction false} DistinctCounts<T>(leaves: seq<Leaf<T>>)
    ensures Rising(Distinct(LeafKey, leaves))
    ensures forall l :: l in Distinct(LeafKey, leaves) <==> Counts(leaves, l)
  {
    hide Counts, Rising, InsertFirst;
    if leaves == [] {
      forall l: Leaf<T>
        ensures !Counts(leaves, l)
      {
        CountsNone(l);
      }
      assert Rising(Distinct(LeafKey, leaves)) by { RisingNone<T>(); }
    } else {
      var x, rest := leaves[0], leaves[1..];
      DistinctCounts(rest);
      InsertKeepsNew(x, Distinct(LeafKey, rest));
      assert leaves == [x] + rest;
      forall l: Leaf<T>
        ensures l in Distinct(LeafKey, leaves) <==> Counts(leaves, l)
      {
        CountsFront(x, rest, l);
      }
    }
  }

  lemma RisingNone<T>()
    ensures Rising<T>([])
  {
  }

  lemma {:induction false} RisingUnique<T>(a: seq<Leaf<T>>, b: seq<Leaf<T>>)
    requires Rising(a) && Rising(b) && forall l :: l in a <==> l in b
    ensures a == b
  {
    if a == [] {
      FrontIn(b);
    } else {
      assert a[0] in a && a[0] in b;
      var x, y, r, s := a[0], b[0], a[1..], b[1..];
      assert y in b && y in a;
      assert a == [x] + r && b == [y] + s;
      SameFront(x, r, y, s);
      RisingUnique(r, s);
    }
  }

  lemma FrontIn<T>(s: seq<Leaf<T>>)
    ensures s == [] || s[0] in s
  {
  }

  lemma SameFront<T>(x: Leaf<T>, r: seq<Leaf<T>>, y: Leaf<T>, s: seq<Leaf<T>>)
    requires Above(x.pos, r) && Above(y.pos, s)
    requires forall l :: l in [x] + r <==> l in [y] + s
    ensures x == y && forall l :: l in r <==> l in s
  {
    assert x in [x] + r && y in [y] + s;
    assert forall l :: l in [x] + r <==> l == x || l in r;
    assert forall l :: l in [y] + s <==> l == y || l in s;
  }

  /** A claim for a position already claimed counts for nothing, wherever it stands. */
  lemma {:induction false} CountsBehind<T>(a: seq<Leaf<T>>, x: Leaf<T>, b: seq<Leaf<T>>, l: Leaf<T>)
    requires exists i :: 0 <= i < |a| && a[i].pos == x.pos
    ensures Counts(a + [x] + b, l) <==> Counts(a + b, l)
    decreases |a|
  {
    hide Counts;
    var y, rest := a[0], a[1..];
    assert a + [x] + b == [y] + (rest + [x] + b) && a + b == [y] + (rest + b);
    CountsFront(y, rest + [x] + b, l);
    CountsFront(y, rest + b, l);
    if l.pos != y.pos {
      if exists i :: 0 <= i < |rest| && rest[i].pos == x.pos {
        CountsBehind(rest, x, b, l);
      } else {
        assert forall i :: 0 < i < |a| ==> a[i] == rest[i - 1];
        CountsElsewhere(rest, x, b, l);
      }
    }
  }

  /** Claims for other positions do not mind. */
  lemma {:induction false} CountsElsewhere<T>(a: seq<Leaf<T>>, x: Leaf<T>, b: seq<Leaf<T>>, l: Leaf<T>)
    requires l.pos != x.pos
    ensures Counts(a + [x] + b, l) <==> Counts(a + b, l)
    decreases |a|
  {
    hide Counts;
    if a == [] {
      assert a + [x] + b == [x] + b && a + b == b;
      CountsFront(x, b, l);
    } else {
      var y, rest := a[0], a[1..];
      assert a + [x] + b == [y] + (rest + [x] + b) && a + b == [y] + (rest + b);
      CountsFront(y, rest + [x] + b, l);
      CountsFront(y, rest + b, l);
      CountsElsewhere(rest, x, b, l);
    }
  }

  lemma DistinctIgnores<T>(a: seq<Leaf<T>>, x: Leaf<T>, b: seq<Leaf<T>>)
    requires x.pos in LeafPositions(a)
    ensures Distinct(LeafKey, a + [x] + b) == Distinct(LeafKey, a + b)
  {
    hide Counts, Rising, Distinct;
    var i :| 0 <= i < |a| && LeafPositions(a)[i] == x.pos;
    assert a[i].pos == x.pos;
    DistinctCounts(a + [x] + b);
    DistinctCounts(a + b);
    forall l: Leaf<T>
      ensures Counts(a + [x] + b, l) <==> Counts(a + b, l)
    {
      CountsBehind(a, x, b, l);
    }
    RisingUnique(Distinct(LeafKey, a + [x] + b), Distinct(LeafKey, a + b));
  }

  /** A property of the claims that count is one of the first claims of the list. */
  lemma AllCounting<T>(leaves: seq<Leaf<T>>, p: Leaf<T> -> bool)
    ensures (forall l :: l in Distinct(LeafKey, leaves) ==> p(l)) <==> (forall i: nat :: FirstAt(leaves, i) ==> p(leaves[i]))
  {
    hide Rising, Distinct;
    DistinctCounts(leaves);
    if forall l :: l in Distinct(LeafKey, leaves) ==> p(l) {
      forall i: nat | FirstAt(leaves, i)
        ensures p(leaves[i])
      {
        assert Counts(leaves, leaves[i]);
      }
    }
    if forall i: nat :: FirstAt(leaves, i) ==> p(leaves[i]) {
      forall l | l in Distinct(LeafKey, leaves)
        ensures p(l)
      {
        assert Counts(leaves, l);
        var i: nat :| FirstAt(leaves, i) && leaves[i] == l;
      }
    }
  }
}
