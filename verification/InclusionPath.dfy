/** The sibling path of `inclusion_proof_path` (`src/helper.rs`). */
module InclusionPath {
  import opened Bits
  import opened Forest
  import opened Helper

  /** Siblings met climbing from (h, j) while they lie at or before position c. */
  ghost function Path(c: nat, h: nat, j: nat): seq<Coord>
    decreases if h <= c then c - h + 1 else 0
  {
    if Pos(h, Sib(j)) > c then [] else [Coord(h, Sib(j))] + Path(c, h + 1, j / 2)
  }

  /** The climb from (h, j) has collected `path` and stands at (g, i). */
  ghost predicate Climbing(c: nat, h: nat, j: nat, path: seq<int>, g: nat, i: nat) {
    Positions(Path(c, h, j)) == path + Positions(Path(c, g, i))
  }

  lemma ClimbStart(c: nat, h: nat, j: nat)
    ensures Climbing(c, h, j, [], h, j)
  {
    hide Path, Positions;
  }

  lemma PathUnfold(c: nat, h: nat, j: nat)
    ensures Positions(Path(c, h, j))
            == if Pos(h, Sib(j)) > c then [] else [Pos(h, Sib(j))] + Positions(Path(c, h + 1, j / 2))
  {
    hide Pos;
  }

  lemma ClimbOn(c: nat, h: nat, j: nat, path: seq<int>, g: nat, i: nat)
    requires Climbing(c, h, j, path, g, i)
    ensures Pos(g, Sib(i)) > c ==> path == Positions(Path(c, h, j))
    ensures Pos(g, Sib(i)) <= c ==> Climbing(c, h, j, path + [Pos(g, Sib(i))], g + 1, i / 2)
  {
    hide Pos, Path, Positions, Sib;
    PathUnfold(c, g, i);
    var rest := Positions(Path(c, g + 1, i / 2));
    assert path + ([Pos(g, Sib(i))] + rest) == (path + [Pos(g, Sib(i))]) + rest;
    assert path + [] == path;
  }

  /** A sibling before c leaves room for one more level. */
  lemma PathRoom(c: u64, h: nat, j: nat)
    requires c < SIZE_LIMIT && Pos(h, Sib(j)) <= c
    ensures h < 62
  {
    hide Pos, Pow2, Height;
    CoordOfPos(h, Sib(j));
    HeightRoom(Pos(h, Sib(j)));
    Pow2Values();
    if h >= 62 { Pow2Mono(63, h + 1); }
  }

  /** One level of the climb, in the terms the loop computes with. */
  lemma ClimbStep(c: u64, g: nat, j: nat)
    requires g <= 62
    ensures var i, d := Pos(g, j), Shl(2, g);
            && d <= 2 * SIZE_LIMIT
            && Pos(g, Sib(j)) == (if Height(i + 1) > g then i - d + 1 else i + d - 1)
            && Pos(g + 1, j / 2) == (if Height(i + 1) > g then i + 1 else i + d)
    ensures Pos(g + 1, j / 2) <= 1 + if Pos(g, j) <= Pos(g, Sib(j)) then Pos(g, Sib(j)) else Pos(g, j)
  {
    hide Pos, Pow2, Shl, Height, Size, MaxLeaves;
    Pow2Limit(g + 1);
    ShlTwo(g);
    FamilyOf(g, j);
    NextHeight(g, j);
  }

  method InclusionProofPath(index: u64, c: u64) returns (path: seq<u64>)
    requires index < SIZE_LIMIT && c < SIZE_LIMIT
    ensures path == Positions(Path(c, Height(index), Block(index)))
  {
    hide Pos, Height, Block, Path, Pow2, Shl, Positions, Sib, Size, MaxLeaves, Climbing;
    var i := index;
    path := [];
    var g := IndexHeightMmriver(i);
    ghost var j := Block(index);
    PosOfCoord(index);
    HeightLimit(index);
    ClimbStart(c, g, j);
    while true
      invariant g <= 62 && i == Pos(g, j) && i <= (if index < c then c else index) + 1 + g
      invariant Climbing(c, Height(index), Block(index), path, g, j)
      decreases 62 - g
    {
      ClimbStep(c, g, j);
      ClimbOn(c, Height(index), Block(index), path, g, j);
      var siblingOffset: u64 := Shl(2, g);
      var nextHeight := IndexHeightMmriver(i + 1);
      if nextHeight > g {
        var isibling: u64 := i - siblingOffset + 1;
        i := i + 1;
        if isibling > c {
          return;
        }
        path := path + [isibling];
      } else {
        var isibling: u64 := i + siblingOffset - 1;
        i := i + siblingOffset;
        if isibling > c {
          return;
        }
        path := path + [isibling];
      }
      PathRoom(c, g, j);
      j := j / 2;
      g := g + 1;
    }
  }
}
