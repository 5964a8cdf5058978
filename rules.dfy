/** The pure part of the world: neighbourhoods and the B3/S23 rule, evaluated
    over a snapshot (width, height, set of live cells). */
module Rules {
  import opened Errors

  type Cell = (int, int)

  predicate InBounds(width: int, height: int, c: Cell) {
    0 <= c.0 < width && 0 <= c.1 < height
  }

  /** The boundary check performed before every cell operation of a world. */
  function CheckBoundary(width: int, height: int, x: int, y: int): (r: Outcome)
    ensures r == Done <==> InBounds(width, height, (x, y))
    ensures r != Done ==> r == Fail(OutOfBound(x, y))
  {
    if x < 0 || x >= width || y < 0 || y >= height then Fail(OutOfBound(x, y)) else Done
  }

  /** `a` lies in the Moore neighbourhood of `b`: one step away in each axis, and not `b` itself. */
  predicate Adjacent(a: Cell, b: Cell) {
    a != b && -1 <= a.0 - b.0 <= 1 && -1 <= a.1 - b.1 <= 1
  }

  predicate NoDuplicates(s: seq<Cell>) {
    forall i, j :: 0 <= i < j < |s| ==> s[i] != s[j]
  }

  /** The eight Moore offsets of (x, y), in the order the source lists them. */
  function MooreCandidates(x: int, y: int): seq<Cell> {
    [(x - 1, y - 1), (x - 1, y), (x - 1, y + 1),
     (x, y - 1), (x, y + 1),
     (x + 1, y - 1), (x + 1, y), (x + 1, y + 1)]
  }

  /** Keeps the in-bounds cells of `cells`, in order. */
  function KeepInBounds(width: int, height: int, cells: seq<Cell>): (r: seq<Cell>)
    ensures forall c :: c in r <==> c in cells && InBounds(width, height, c)
    ensures NoDuplicates(cells) ==> NoDuplicates(r)
    ensures |r| <= |cells|
  {
    if cells == [] then []
    else
      var rest := KeepInBounds(width, height, cells[1..]);
      if InBounds(width, height, cells[0]) then [cells[0]] + rest else rest
  }

  /** The neighbours of (x, y) on a width x height grid with hard edges. */
  function Neighbors(width: int, height: int, x: int, y: int): (r: seq<Cell>)
    ensures forall c :: c in r <==> InBounds(width, height, c) && Adjacent(c, (x, y))
    ensures (x, y) !in r
    ensures NoDuplicates(r)
    ensures |r| <= 8
  {
    var all := MooreCandidates(x, y);
    forall c ensures c in all <==> Adjacent(c, (x, y)) {
      if Adjacent(c, (x, y)) {
        assert c.0 - x in {-1, 0, 1} && c.1 - y in {-1, 0, 1};
      }
    }
    KeepInBounds(width, height, all)
  }

  /** One in-bounds indicator: the contribution of a single candidate to the neighbour count. */
  function Ind(width: int, height: int, c: Cell): nat {
    if InBounds(width, height, c) then 1 else 0
  }

  lemma {:induction false} KeepInBoundsAppend(width: int, height: int, a: seq<Cell>, b: seq<Cell>)
    ensures KeepInBounds(width, height, a + b) == KeepInBounds(width, height, a) + KeepInBounds(width, height, b)
  {
    if a != [] {
      var ab := a + b;
      assert ab[0] == a[0] && ab[1..] == a[1..] + b;
      KeepInBoundsAppend(width, height, a[1..], b);
      var rest := KeepInBounds(width, height, a[1..]);
      if InBounds(width, height, a[0]) {
        assert KeepInBounds(width, height, a) == [a[0]] + rest;
        assert KeepInBounds(width, height, ab) == [a[0]] + (rest + KeepInBounds(width, height, b));
      } else {
        assert KeepInBounds(width, height, a) == rest;
        assert KeepInBounds(width, height, ab) == rest + KeepInBounds(width, height, b);
      }
    } else {
      assert a + b == b;
    }
  }

  /** How many of the eight Moore offsets of (x, y) stay inside the grid. */
  function MooreInBounds(width: int, height: int, x: int, y: int): nat {
    Ind(width, height, (x - 1, y - 1)) + Ind(width, height, (x - 1, y)) + Ind(width, height, (x - 1, y + 1))
    + Ind(width, height, (x, y - 1)) + Ind(width, height, (x, y + 1))
    + Ind(width, height, (x + 1, y - 1)) + Ind(width, height, (x + 1, y)) + Ind(width, height, (x + 1, y + 1))
  }

  /** The number of neighbours is the number of Moore offsets that stay inside the grid. */
  lemma NeighborsLength(width: int, height: int, x: int, y: int)
    ensures |Neighbors(width, height, x, y)| == MooreInBounds(width, height, x, y)
  {
    var w, h := width, height;
    var a, b, c, d := [(x - 1, y - 1)], [(x - 1, y)], [(x - 1, y + 1)], [(x, y - 1)];
    var e, f, g, k := [(x, y + 1)], [(x + 1, y - 1)], [(x + 1, y)], [(x + 1, y + 1)];
    assert MooreCandidates(x, y) == a + (b + (c + (d + (e + (f + (g + k))))));
    KeepInBoundsAppend(w, h, g, k);
    KeepInBoundsAppend(w, h, f, g + k);
    KeepInBoundsAppend(w, h, e, f + (g + k));
    KeepInBoundsAppend(w, h, d, e + (f + (g + k)));
    KeepInBoundsAppend(w, h, c, d + (e + (f + (g + k))));
    KeepInBoundsAppend(w, h, b, c + (d + (e + (f + (g + k)))));
    KeepInBoundsAppend(w, h, a, b + (c + (d + (e + (f + (g + k))))));
  }

  predicate OnBorder(v: int, size: int) {
    v == 0 || v == size - 1
  }

  /** On a grid of at least 2 x 2: 8 neighbours inside, 5 on a side, 3 in a corner. */
  lemma NeighborCounts(width: int, height: int, x: int, y: int)
    requires 2 <= width && 2 <= height && InBounds(width, height, (x, y))
    ensures !OnBorder(x, width) && !OnBorder(y, height) ==> |Neighbors(width, height, x, y)| == 8
    ensures OnBorder(x, width) != OnBorder(y, height) ==> |Neighbors(width, height, x, y)| == 5
    ensures OnBorder(x, width) && OnBorder(y, height) ==> |Neighbors(width, height, x, y)| == 3
  {
    NeighborsLength(width, height, x, y);
  }

  /** Neighbourhood is symmetric between in-bounds cells. */
  lemma NeighborsSymmetric(width: int, height: int, a: Cell, b: Cell)
    requires InBounds(width, height, a) && InBounds(width, height, b)
    ensures a in Neighbors(width, height, b.0, b.1) <==> b in Neighbors(width, height, a.0, a.1)
  {
  }

  /** How many of `cells` are in `alives`. */
  function CountAlive(cells: seq<Cell>, alives: set<Cell>): (n: nat)
    ensures n <= |cells|
    ensures n > 0 ==> exists i :: 0 <= i < |cells| && cells[i] in alives
  {
    if cells == [] then 0
    else (if cells[0] in alives then 1 else 0) + CountAlive(cells[1..], alives)
  }

  /** Over a list without repeats, the count is the size of its live part. */
  lemma {:induction false} CountAliveIsCardinality(cells: seq<Cell>, alives: set<Cell>)
    requires NoDuplicates(cells)
    ensures CountAlive(cells, alives) == |set c | c in cells && c in alives|
  {
    if cells != [] {
      CountAliveIsCardinality(cells[1..], alives);
      var whole := set c | c in cells && c in alives;
      var tail := set c | c in cells[1..] && c in alives;
      assert cells[0] !in cells[1..];
      if cells[0] in alives {
        assert whole == tail + {cells[0]};
      } else {
        assert whole == tail;
      }
    }
  }

  /** The live-neighbour count of (x, y) against the snapshot `alives`. */
  function LiveNeighbors(width: int, height: int, alives: set<Cell>, x: int, y: int): (n: nat)
    ensures n <= |Neighbors(width, height, x, y)| <= 8
  {
    CountAlive(Neighbors(width, height, x, y), alives)
  }

  /** The live cells on the grid adjacent to `c`. */
  function LiveAround(width: int, height: int, alives: set<Cell>, c: Cell): set<Cell> {
    set d | d in alives && InBounds(width, height, d) && Adjacent(d, c)
  }

  /** The count is the number of live, in-bounds cells adjacent to (x, y). */
  lemma LiveNeighborsCountsAdjacentLiveCells(width: int, height: int, alives: set<Cell>, x: int, y: int)
    ensures LiveNeighbors(width, height, alives, x, y) == |LiveAround(width, height, alives, (x, y))|
  {
    var nbrs := Neighbors(width, height, x, y);
    CountAliveIsCardinality(nbrs, alives);
    assert (set c | c in nbrs && c in alives) == LiveAround(width, height, alives, (x, y));
  }

  /** Conway's B3/S23 rule: a live cell survives with 2 or 3 live neighbours,
      a dead cell is born with exactly 3. */
  predicate B3S23(alive: bool, n: nat) {
    if alive then n == 2 || n == 3 else n == 3
  }

  /** The fate of (x, y) in the next generation, as the source decides it. */
  function CalcAliveness(width: int, height: int, alives: set<Cell>, x: int, y: int): (r: Result<bool>)
    ensures r.Err? <==> !InBounds(width, height, (x, y))
    ensures r.Err? ==> r.error == OutOfBound(x, y)
    ensures r.Ok? ==> r.value == B3S23((x, y) in alives, LiveNeighbors(width, height, alives, x, y))
  {
    var n := LiveNeighbors(width, height, alives, x, y);
    match CheckBoundary(width, height, x, y)
    case Fail(e) => Err(e)
    case Done =>
      if (x, y) in alives then
        if n in {0, 1} then Ok(false)
        else if n in {2, 3} then Ok(true)
        else Ok(false)
      else
        Ok(n == 3)
  }

  /** The next generation evaluated over every cell of the grid. */
  function FullGeneration(width: int, height: int, alives: set<Cell>): set<Cell> {
    set x: int, y: int | 0 <= x < width && 0 <= y < height
                         && B3S23((x, y) in alives, LiveNeighbors(width, height, alives, x, y)) :: (x, y)
  }

  /** The cells of `cells` that satisfy `p`. */
  function Select(cells: seq<Cell>, p: Cell -> bool): set<Cell> {
    set n | n in cells && p(n)
  }

  /** Extending the selected prefix by one cell adds that cell when it satisfies `p`. */
  lemma SelectPrefix(cells: seq<Cell>, p: Cell -> bool, i: nat)
    requires i < |cells|
    ensures Select(cells[..i + 1], p) == Select(cells[..i], p) + (if p(cells[i]) then {cells[i]} else {})
  {
    var lhs := Select(cells[..i + 1], p);
    var rhs := Select(cells[..i], p) + (if p(cells[i]) then {cells[i]} else {});
    assert cells[..i + 1] == cells[..i] + [cells[i]];
    forall m | m in lhs ensures m in rhs {
      if m != cells[i] {
        assert m in cells[..i];
      }
    }
  }

  /** Whether `n` is alive in the generation after `alives`. */
  predicate LivesOn(width: int, height: int, alives: set<Cell>, n: Cell) {
    CalcAliveness(width, height, alives, n.0, n.1) == Ok(true)
  }

  /** The cells that live on among the neighbours of `c`. */
  function SurvivingNeighbors(width: int, height: int, alives: set<Cell>, c: Cell): set<Cell> {
    Select(Neighbors(width, height, c.0, c.1), n => LivesOn(width, height, alives, n))
  }

  /** The union of `f(c)` over the cells `c` of `from`. */
  function UnionOver(from: set<Cell>, f: Cell -> set<Cell>): set<Cell> {
    set c, n | c in from && n in f(c) :: n
  }

  lemma UnionOverInsert(from: set<Cell>, f: Cell -> set<Cell>, c: Cell)
    ensures UnionOver(from + {c}, f) == UnionOver(from, f) + f(c)
  {
    var lhs := UnionOver(from + {c}, f);
    var rhs := UnionOver(from, f) + f(c);
    forall n | n in lhs ensures n in rhs {
      var d :| d in from + {c} && n in f(d);
      if d != c {
        assert n in UnionOver(from, f);
      }
    }
    forall n | n in rhs ensures n in lhs {
      if n !in f(c) {
        var d :| d in from && n in f(d);
        assert d in from + {c};
      }
    }
  }

  /** The next generation evaluated only over the neighbours of the cells in `from`. */
  function CandidateGeneration(width: int, height: int, alives: set<Cell>, from: set<Cell>): (r: set<Cell>)
    ensures forall n :: n in r ==> LivesOn(width, height, alives, n)
  {
    UnionOver(from, c => SurvivingNeighbors(width, height, alives, c))
  }

  /** Evaluating only the neighbours of live cells gives exactly the full-grid generation. */
  lemma AdvanceIsExact(width: int, height: int, alives: set<Cell>)
    ensures CandidateGeneration(width, height, alives, alives) == FullGeneration(width, height, alives)
  {
    var cand := CandidateGeneration(width, height, alives, alives);
    var full := FullGeneration(width, height, alives);
    forall n | n in cand ensures n in full {
      CandidateMember(width, height, alives, alives, n);
      var c :| c in alives && n in SurvivingNeighbors(width, height, alives, c);
      assert CalcAliveness(width, height, alives, n.0, n.1) == Ok(true);
    }
    forall n | n in full ensures n in cand {
      BornNextToLife(width, height, alives, n);
      CandidateMember(width, height, alives, alives, n);
    }
  }

  lemma CandidateMember(width: int, height: int, alives: set<Cell>, from: set<Cell>, n: Cell)
    ensures n in CandidateGeneration(width, height, alives, from)
        <==> exists c :: c in from && n in SurvivingNeighbors(width, height, alives, c)
  {
    var f := c => SurvivingNeighbors(width, height, alives, c);
    if n in CandidateGeneration(width, height, alives, from) {
      var c :| c in from && n in f(c);
      assert n in SurvivingNeighbors(width, height, alives, c);
    }
    if exists c :: c in from && n in SurvivingNeighbors(width, height, alives, c) {
      var c :| c in from && n in SurvivingNeighbors(width, height, alives, c);
      assert n in f(c);
      assert n in UnionOver(from, f);
    }
  }

  /** Membership in the full-grid generation, one cell at a time. */
  lemma FullGenerationMember(width: int, height: int, alives: set<Cell>, n: Cell)
    ensures n in FullGeneration(width, height, alives)
        <==> InBounds(width, height, n) && B3S23(n in alives, LiveNeighbors(width, height, alives, n.0, n.1))
  {
    if InBounds(width, height, n) && B3S23(n in alives, LiveNeighbors(width, height, alives, n.0, n.1)) {
      assert n == (n.0, n.1);
    }
  }

  lemma SurvivingNeighborsMember(width: int, height: int, alives: set<Cell>, c: Cell, n: Cell)
    ensures n in SurvivingNeighbors(width, height, alives, c)
        <==> n in Neighbors(width, height, c.0, c.1) && LivesOn(width, height, alives, n)
  {
  }

  /** A cell that lives in the next generation has a live neighbour. */
  lemma BornNextToLife(width: int, height: int, alives: set<Cell>, n: Cell)
    requires n in FullGeneration(width, height, alives)
    ensures exists c :: c in alives && n in SurvivingNeighbors(width, height, alives, c)
  {
    FullGenerationMember(width, height, alives, n);
    var nbrs := Neighbors(width, height, n.0, n.1);
    assert CountAlive(nbrs, alives) > 0;
    var i :| 0 <= i < |nbrs| && nbrs[i] in alives;
    var c := nbrs[i];
    assert n in Neighbors(width, height, c.0, c.1) by {
      assert Adjacent(c, n) && InBounds(width, height, c);
      NeighborsSymmetric(width, height, n, c);
    }
    assert LivesOn(width, height, alives, n);
    SurvivingNeighborsMember(width, height, alives, c, n);
  }
}
