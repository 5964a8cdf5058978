/** Small worlds whose next generation is known exactly. */
module Scenarios {
  import opened Rules

  lemma SubsetCardinality(s: set<Cell>, t: set<Cell>)
    requires s <= t
    ensures |s| <= |t|
    ensures |s| == |t| ==> s == t
  {
    assert t == s + (t - s);
  }

  /** With at most two live cells nothing survives and nothing is born. */
  lemma SparseWorldDiesOut(width: int, height: int, alives: set<Cell>)
    requires |alives| <= 2
    ensures FullGeneration(width, height, alives) == {}
  {
    forall c | c in FullGeneration(width, height, alives) ensures false {
      NextGenerationMember(width, height, alives, c);
      var around := LiveAround(width, height, alives, c);
      assert |around| >= 2;
      if c in alives {
        SubsetCardinality(around, alives - {c});
      } else {
        SubsetCardinality(around, alives);
      }
    }
  }

  /** Membership in the next generation, one cell at a time. */
  lemma NextGenerationMember(width: int, height: int, alives: set<Cell>, c: Cell)
    ensures c in FullGeneration(width, height, alives)
        <==> InBounds(width, height, c) && B3S23(c in alives, |LiveAround(width, height, alives, c)|)
  {
    LiveNeighborsCountsAdjacentLiveCells(width, height, alives, c.0, c.1);
  }

  /** The cells adjacent to `c` are all the other cells exactly when each of them is adjacent. */
  lemma AroundIsAllOthers(width: int, height: int, alives: set<Cell>, c: Cell)
    requires forall d :: d in alives ==> InBounds(width, height, d)
    ensures LiveAround(width, height, alives, c) <= alives - {c}
    ensures LiveAround(width, height, alives, c) == alives - {c}
        <==> forall d :: d in alives && d != c ==> Adjacent(d, c)
  {
    var around := LiveAround(width, height, alives, c);
    if forall d :: d in alives && d != c ==> Adjacent(d, c) {
      forall d | d in alives - {c} ensures d in around {
      }
    }
    if around == alives - {c} {
      forall d | d in alives && d != c ensures Adjacent(d, c) {
        assert d in around;
      }
    }
  }

  /** In a world of three live cells, a cell lives on exactly when every other
      live cell is adjacent to it. */
  lemma ThreeCellWorld(width: int, height: int, alives: set<Cell>, c: Cell)
    requires |alives| == 3 && forall d :: d in alives ==> InBounds(width, height, d)
    ensures c in FullGeneration(width, height, alives)
        <==> InBounds(width, height, c) && forall d :: d in alives && d != c ==> Adjacent(d, c)
  {
    NextGenerationMember(width, height, alives, c);
    AroundIsAllOthers(width, height, alives, c);
    var around := LiveAround(width, height, alives, c);
    var others := alives - {c};
    SubsetCardinality(around, others);
    assert |others| == if c in alives then 2 else 3;
  }

  /** A lone cell dies of solitude. */
  lemma LoneCellDies()
    ensures FullGeneration(10, 10, {(5, 5)}) == {}
  {
    SparseWorldDiesOut(10, 10, {(5, 5)});
  }

  /** Two adjacent cells both die, each having a single neighbour. */
  lemma AdjacentPairDies()
    ensures FullGeneration(10, 10, {(5, 5), (5, 6)}) == {}
  {
    SparseWorldDiesOut(10, 10, {(5, 5), (5, 6)});
  }

  /** The next generation of a three-cell world, when every in-bounds cell is checked. */
  lemma ThreeCellNext(width: int, height: int, alives: set<Cell>, block: set<Cell>)
    requires |alives| == 3 && forall d :: d in alives ==> InBounds(width, height, d)
    requires forall c :: c in block <==> InBounds(width, height, c) && forall d :: d in alives && d != c ==> Adjacent(d, c)
    ensures FullGeneration(width, height, alives) == block
  {
    forall c ensures c in FullGeneration(width, height, alives) <==> c in block {
      ThreeCellWorld(width, height, alives, c);
    }
  }

  /** The L-shape (5,5), (6,5), (5,6) keeps its cells and gains (6,6): a block. */
  lemma LShapeBecomesBlock()
    ensures FullGeneration(10, 10, {(5, 5), (6, 5), (5, 6)}) == {(5, 5), (6, 5), (5, 6), (6, 6)}
  {
    ThreeCellNext(10, 10, {(5, 5), (6, 5), (5, 6)}, {(5, 5), (6, 5), (5, 6), (6, 6)});
  }

  /** An L in the corner of any grid of at least 2 x 2 gains (1, 1). */
  lemma CornerLBecomesBlock(width: int, height: int)
    requires 2 <= width && 2 <= height
    ensures FullGeneration(width, height, {(0, 0), (0, 1), (1, 0)}) == {(0, 0), (0, 1), (1, 0), (1, 1)}
  {
    ThreeCellNext(width, height, {(0, 0), (0, 1), (1, 0)}, {(0, 0), (0, 1), (1, 0), (1, 1)});
  }

  /** An L in the opposite corner of a 10 x 10 grid gains (8, 8). */
  lemma FarCornerLBecomesBlock()
    ensures FullGeneration(10, 10, {(9, 9), (8, 9), (9, 8)}) == {(9, 9), (8, 9), (9, 8), (8, 8)}
  {
    ThreeCellNext(10, 10, {(9, 9), (8, 9), (9, 8)}, {(9, 9), (8, 9), (9, 8), (8, 8)});
  }

  /** A cell with at least four live neighbours is dead in the next generation. */
  lemma CrowdedCellDies(width: int, height: int, alives: set<Cell>, c: Cell, crowd: set<Cell>)
    requires crowd <= LiveAround(width, height, alives, c) && |crowd| >= 4
    ensures c !in FullGeneration(width, height, alives)
  {
    NextGenerationMember(width, height, alives, c);
    SubsetCardinality(crowd, LiveAround(width, height, alives, c));
  }

  /** In the cluster (5,5), (5,6), (5,4), (6,5), (6,4) on a grid of at least 7 x 7
      (the 10 x 10 world of the tests among them), the cells (5, 5) and (6, 5) have
      four live neighbours each and die of overpopulation. */
  lemma CrowdedCellsDie(width: int, height: int)
    requires 7 <= width && 7 <= height
    ensures (5, 5) !in FullGeneration(width, height, {(5, 5), (5, 6), (5, 4), (6, 5), (6, 4)})
    ensures (6, 5) !in FullGeneration(width, height, {(5, 5), (5, 6), (5, 4), (6, 5), (6, 4)})
  {
    var alives := {(5, 5), (5, 6), (5, 4), (6, 5), (6, 4)};
    var centre, side := {(5, 6), (5, 4), (6, 5), (6, 4)}, {(5, 5), (5, 6), (5, 4), (6, 4)};
    assert centre <= LiveAround(width, height, alives, (5, 5)) && |centre| == 4;
    assert side <= LiveAround(width, height, alives, (6, 5)) && |side| == 4;
    CrowdedCellDies(width, height, alives, (5, 5), centre);
    CrowdedCellDies(width, height, alives, (6, 5), side);
  }
}
