/** The world: a fixed-size grid whose set of live cells is updated in place. */
module Worlds {
  import opened Errors
  import opened Rules

  class World {
    const width: int
    const height: int
    var alives: set<Cell>

    /** The size is positive and every stored live cell lies on the grid. */
    ghost predicate Valid()
      reads this
    {
      0 < width && 0 < height && forall c :: c in alives ==> InBounds(width, height, c)
    }

    constructor (x: int, y: int)
      requires 0 < x && 0 < y
      ensures Valid()
      ensures width == x && height == y && alives == {}
    {
      width, height := x, y;
      alives := {};
    }

    /** Builds a world, failing when a dimension is not positive (the width is checked first). */
    static method Create(x: int, y: int) returns (r: Result<World>)
      ensures x <= 0 ==> r == Err(InvalidWidth)
      ensures 0 < x && y <= 0 ==> r == Err(InvalidHeight)
      ensures 0 < x && 0 < y ==> r.Ok? && fresh(r.value) && r.value.Valid()
      ensures r.Ok? ==> r.value.Size() == (x, y) && r.value.alives == {}
    {
      if x <= 0 {
        return Err(InvalidWidth);
      }
      if y <= 0 {
        return Err(InvalidHeight);
      }
      var w := new World(x, y);
      r := Ok(w);
    }

    /** The (width, height) pair fixed at construction. */
    function Size(): (r: (int, int))
      reads this
      requires Valid()
      ensures r.0 > 0 && r.1 > 0
      ensures r.0 == width && r.1 == height
    {
      (width, height)
    }

    /** A snapshot of the live cells, in an unspecified order, each exactly once. */
    method Alives() returns (cells: seq<Cell>)
      ensures forall c :: c in cells <==> c in alives
      ensures NoDuplicates(cells)
      ensures |cells| == |alives|
    {
      cells := [];
      var rest := alives;
      while rest != {}
        invariant rest <= alives
        invariant forall c :: c in cells <==> c in alives && c !in rest
        invariant NoDuplicates(cells)
        invariant |cells| + |rest| == |alives|
        decreases rest
      {
        var c :| c in rest;
        cells := cells + [c];
        rest := rest - {c};
      }
    }

    /** Whether (x, y) is alive; out-of-bounds coordinates are an error. */
    method IsAlive(x: int, y: int) returns (r: Result<bool>)
      ensures InBounds(width, height, (x, y)) ==> r == Ok((x, y) in alives)
      ensures !InBounds(width, height, (x, y)) ==> r == Err(OutOfBound(x, y))
    {
      match CheckBoundary(width, height, x, y)
      case Fail(e) => r := Err(e);
      case Done => r := Ok((x, y) in alives);
    }

    /** Makes (x, y) alive; every other cell keeps its state. */
    method SetAlive(x: int, y: int) returns (r: Outcome)
      requires Valid()
      modifies this
      ensures Valid()
      ensures InBounds(width, height, (x, y)) ==> r == Done && alives == old(alives) + {(x, y)}
      ensures !InBounds(width, height, (x, y)) ==> r == Fail(OutOfBound(x, y)) && alives == old(alives)
    {
      r := CheckBoundary(width, height, x, y);
      if r == Done {
        alives := alives + {(x, y)};
      }
    }

    /** Makes (x, y) dead, silently when it already is; every other cell keeps its state. */
    method SetDead(x: int, y: int) returns (r: Outcome)
      requires Valid()
      modifies this
      ensures Valid()
      ensures InBounds(width, height, (x, y)) ==> r == Done && alives == old(alives) - {(x, y)}
      ensures !InBounds(width, height, (x, y)) ==> r == Fail(OutOfBound(x, y)) && alives == old(alives)
    {
      r := CheckBoundary(width, height, x, y);
      if r == Done {
        var alive := IsAlive(x, y);
        if alive == Ok(true) {
          alives := alives - {(x, y)};
        }
      }
    }

    /** Flips (x, y): a live cell is killed, a dead one is made alive. */
    method ToggleAliveness(x: int, y: int) returns (r: Outcome)
      requires Valid()
      modifies this
      ensures Valid()
      ensures InBounds(width, height, (x, y)) ==> r == Done && alives == Flip(old(alives), (x, y))
      ensures !InBounds(width, height, (x, y)) ==> r == Fail(OutOfBound(x, y)) && alives == old(alives)
    {
      r := CheckBoundary(width, height, x, y);
      if r == Done {
        var alive := IsAlive(x, y);
        if alive == Ok(true) {
          r := SetDead(x, y);
        } else {
          r := SetAlive(x, y);
        }
      }
    }

    /** Replaces the live cells by the next generation, evaluating only the
        neighbours of live cells against the unchanged current set. */
    method Advance()
      requires Valid()
      modifies this
      ensures Valid()
      ensures alives == FullGeneration(width, height, old(alives))
    {
      var next: set<Cell> := {};
      var pending := alives;
      ghost var current := alives;
      ghost var around := c => SurvivingNeighbors(width, height, current, c);
      ghost var lives := n => LivesOn(width, height, current, n);
      while pending != {}
        invariant alives == current && pending <= alives
        invariant next == UnionOver(alives - pending, around)
        decreases pending
      {
        var c :| c in pending;
        var nbrs := Neighbors(width, height, c.0, c.1);
        ghost var before := next;
        for i := 0 to |nbrs|
          invariant alives == current
          invariant next == before + Select(nbrs[..i], lives)
        {
          var live := CalcAliveness(width, height, alives, nbrs[i].0, nbrs[i].1);
          if live == Ok(true) {
            next := next + {nbrs[i]};
          }
          SelectPrefix(nbrs, lives, i);
        }
        assert nbrs[..|nbrs|] == nbrs;
        assert around(c) == Select(nbrs, lives);
        UnionOverInsert(alives - pending, around, c);
        assert alives - (pending - {c}) == (alives - pending) + {c};
        pending := pending - {c};
      }
      assert alives - pending == alives;
      assert next == CandidateGeneration(width, height, alives, alives);
      AdvanceIsExact(width, height, alives);
      alives := next;
    }
  }

  /** The live set with the state of `c` flipped. */
  function Flip(alives: set<Cell>, c: Cell): (r: set<Cell>)
    ensures c in r <==> c !in alives
    ensures forall d :: d != c ==> (d in r <==> d in alives)
  {
    if c in alives then alives - {c} else alives + {c}
  }

  /** Toggling the same cell twice restores the original live set. */
  lemma FlipTwice(alives: set<Cell>, c: Cell)
    ensures Flip(Flip(alives, c), c) == alives
  {
  }
}
