/** Named seed patterns and their placement on a finite screen grid. */
module Patterns {
  import opened Errors
  import opened Rules

  /** A signed offset from the pattern's origin; y grows upwards. */
  type Offset = (int, int)

  /** An immutable named list of offsets, kept in insertion order. */
  datatype Pattern = Pattern(name: string, alives: seq<Offset>)

  function Abs(v: int): nat {
    if v < 0 then -v else v
  }

  /** Python's int(n / 2): the half of n, truncated towards zero. */
  function TruncHalf(n: int): int {
    if n >= 0 then n / 2 else -((-n) / 2)
  }

  function Xs(cells: seq<Offset>): (r: seq<int>)
    ensures |r| == |cells| && forall i :: 0 <= i < |cells| ==> r[i] == cells[i].0
  {
    seq(|cells|, i requires 0 <= i < |cells| => cells[i].0)
  }

  function Ys(cells: seq<Offset>): (r: seq<int>)
    ensures |r| == |cells| && forall i :: 0 <= i < |cells| ==> r[i] == cells[i].1
  {
    seq(|cells|, i requires 0 <= i < |cells| => cells[i].1)
  }

  /** The largest absolute value in a non-empty list. */
  function MaxAbs(values: seq<int>): (m: nat)
    requires values != []
    ensures forall i :: 0 <= i < |values| ==> Abs(values[i]) <= m
    ensures exists i :: 0 <= i < |values| && Abs(values[i]) == m
  {
    if |values| == 1 then Abs(values[0])
    else
      var rest := MaxAbs(values[1..]);
      if Abs(values[0]) >= rest then Abs(values[0]) else rest
  }

  /** Every offset fits a width x height screen centred on the origin. */
  predicate Fits(cells: seq<Offset>, width: int, height: int) {
    forall i :: 0 <= i < |cells| ==> 1 + 2 * Abs(cells[i].0) <= width && 1 + 2 * Abs(cells[i].1) <= height
  }

  /** The screen position of an offset: centred, with the y axis flipped. */
  function ToScreen(o: Offset, width: int, height: int): Cell {
    (o.0 + TruncHalf(width), -o.1 + TruncHalf(height))
  }

  /** A list fits exactly when its largest |dx| and |dy| fit. */
  lemma FitsIffBox(cells: seq<Offset>, width: int, height: int)
    requires cells != []
    ensures Fits(cells, width, height)
        <==> 1 + 2 * MaxAbs(Xs(cells)) <= width && 1 + 2 * MaxAbs(Ys(cells)) <= height
  {
    var xs, ys := Xs(cells), Ys(cells);
    var i :| 0 <= i < |xs| && Abs(xs[i]) == MaxAbs(xs);
    var j :| 0 <= j < |ys| && Abs(ys[j]) == MaxAbs(ys);
    if Fits(cells, width, height) {
      assert 1 + 2 * Abs(cells[i].0) <= width;
      assert 1 + 2 * Abs(cells[j].1) <= height;
    }
  }

  /** An offset that fits lands inside the screen. */
  lemma ToScreenInBounds(o: Offset, width: int, height: int)
    requires 1 + 2 * Abs(o.0) <= width && 1 + 2 * Abs(o.1) <= height
    ensures ToScreen(o, width, height) == (o.0 + width / 2, -o.1 + height / 2)
    ensures InBounds(width, height, ToScreen(o, width, height))
  {
  }

  /** Places the pattern on a width x height screen. An empty pattern places
      nothing whatever the size; otherwise the screen must be at least
      1 + 2 * max |dx| wide and 1 + 2 * max |dy| high. */
  function AsScreenCoordinate(p: Pattern, width: int, height: int): (r: Result<seq<Cell>>)
    ensures p.alives == [] ==> r == Ok([])
    ensures p.alives != [] ==> (r.Ok? <==> Fits(p.alives, width, height))
    ensures r.Err? ==> r.error.PatternTooLarge? && (width < r.error.minWidth || height < r.error.minHeight)
    ensures r.Ok? ==> |r.value| == |p.alives|
    ensures r.Ok? ==> forall i :: 0 <= i < |p.alives| ==>
              r.value[i] == (p.alives[i].0 + width / 2, -p.alives[i].1 + height / 2)
              && InBounds(width, height, r.value[i])
  {
    if p.alives == [] then Ok([])
    else
      var minWidth := 1 + 2 * MaxAbs(Xs(p.alives));
      var minHeight := 1 + 2 * MaxAbs(Ys(p.alives));
      FitsIffBox(p.alives, width, height);
      if width < minWidth || height < minHeight then
        Err(PatternTooLarge(minWidth, minHeight))
      else
        Ok(Place(p.alives, width, height))
  }

  /** Maps every offset of a fitting list to its screen position, keeping the order. */
  function Place(cells: seq<Offset>, width: int, height: int): (r: seq<Cell>)
    requires Fits(cells, width, height)
    ensures |r| == |cells|
    ensures forall i :: 0 <= i < |cells| ==>
              r[i] == (cells[i].0 + width / 2, -cells[i].1 + height / 2) && InBounds(width, height, r[i])
  {
    var placed := seq(|cells|, i requires 0 <= i < |cells| => ToScreen(cells[i], width, height));
    assert forall i :: 0 <= i < |cells| ==>
      placed[i] == (cells[i].0 + width / 2, -cells[i].1 + height / 2) && InBounds(width, height, placed[i]) by {
      forall i | 0 <= i < |cells| ensures
        placed[i] == (cells[i].0 + width / 2, -cells[i].1 + height / 2) && InBounds(width, height, placed[i]) {
        ToScreenInBounds(cells[i], width, height);
      }
    }
    placed
  }

  /** The offset a screen position came from: the inverse of ToScreen. */
  function FromScreen(c: Cell, width: int, height: int): Offset {
    (c.0 - TruncHalf(width), TruncHalf(height) - c.1)
  }

  /** Placement loses nothing: mapping every placed cell back gives the pattern's offsets. */
  lemma PlacementRoundTrip(p: Pattern, width: int, height: int)
    requires AsScreenCoordinate(p, width, height).Ok?
    ensures |AsScreenCoordinate(p, width, height).value| == |p.alives|
    ensures forall i :: 0 <= i < |p.alives| ==>
              FromScreen(AsScreenCoordinate(p, width, height).value[i], width, height) == p.alives[i]
  {
    var placed := AsScreenCoordinate(p, width, height).value;
    forall i | 0 <= i < |p.alives| ensures FromScreen(placed[i], width, height) == p.alives[i] {
      assert Fits(p.alives, width, height);
      ToScreenInBounds(p.alives[i], width, height);
    }
  }

  /** A pattern that fits a screen fits every larger one. */
  lemma PlacementMonotone(p: Pattern, width: int, height: int, width': int, height': int)
    requires AsScreenCoordinate(p, width, height).Ok?
    requires width <= width' && height <= height'
    ensures AsScreenCoordinate(p, width', height').Ok?
  {
  }

  /** The size reported on failure is the smallest screen the pattern fits:
      it fits there, and not on a screen one column narrower or one row lower. */
  lemma ReportedSizeIsMinimal(p: Pattern, width: int, height: int)
    requires AsScreenCoordinate(p, width, height).Err?
    ensures var e := AsScreenCoordinate(p, width, height).error;
            && AsScreenCoordinate(p, e.minWidth, e.minHeight).Ok?
            && AsScreenCoordinate(p, e.minWidth - 1, e.minHeight).Err?
            && AsScreenCoordinate(p, e.minWidth, e.minHeight - 1).Err?
  {
    var e := AsScreenCoordinate(p, width, height).error;
    var i :| 0 <= i < |p.alives| && Abs(Xs(p.alives)[i]) == MaxAbs(Xs(p.alives));
    var j :| 0 <= j < |p.alives| && Abs(Ys(p.alives)[j]) == MaxAbs(Ys(p.alives));
    assert !Fits(p.alives, e.minWidth - 1, e.minHeight) by {
      assert 1 + 2 * Abs(p.alives[i].0) > e.minWidth - 1;
    }
    assert !Fits(p.alives, e.minWidth, e.minHeight - 1) by {
      assert 1 + 2 * Abs(p.alives[j].1) > e.minHeight - 1;
    }
  }

  const Glider := Pattern("Glider", [(1, 0), (0, 1), (-1, -1), (0, -1), (1, -1)])

  /** The built-in patterns, in menu order. */
  const Catalogue: seq<Pattern> := [
    Pattern("Clear", []),
    Glider,
    Pattern("Small Exploder", [(0, 0), (1, 0), (-1, 0), (0, 1), (-1, -1), (1, -1), (0, -2)]),
    Pattern("Exploder", [(0, 2), (0, -2), (-2, 2), (-2, 1), (-2, 0), (-2, -1), (-2, -2),
                         (2, 2), (2, 1), (2, 0), (2, -1), (2, -2)])
  ]

  /** Every offset lies within two cells of the origin on both axes. */
  predicate WithinTwo(cells: seq<Offset>) {
    forall i :: 0 <= i < |cells| ==> -2 <= cells[i].0 <= 2 && -2 <= cells[i].1 <= 2
  }

  lemma WithinTwoFits(p: Pattern, width: int, height: int)
    requires WithinTwo(p.alives) && 5 <= width && 5 <= height
    ensures AsScreenCoordinate(p, width, height).Ok?
  {
    assert Fits(p.alives, width, height);
  }

  lemma CatalogueWithinTwo(k: int)
    requires 0 <= k < |Catalogue|
    ensures WithinTwo(Catalogue[k].alives)
  {
    var cells := Catalogue[k].alives;
    forall i | 0 <= i < |cells| ensures -2 <= cells[i].0 <= 2 && -2 <= cells[i].1 <= 2 {
    }
  }

  /** Every built-in pattern fits any screen of at least 5 x 5; the names are distinct. */
  lemma CatalogueFits(width: int, height: int)
    requires 5 <= width && 5 <= height
    ensures forall k :: 0 <= k < |Catalogue| ==> AsScreenCoordinate(Catalogue[k], width, height).Ok?
    ensures forall k, l :: 0 <= k < l < |Catalogue| ==> Catalogue[k].name != Catalogue[l].name
  {
    forall k | 0 <= k < |Catalogue| ensures AsScreenCoordinate(Catalogue[k], width, height).Ok? {
      CatalogueWithinTwo(k);
      WithinTwoFits(Catalogue[k], width, height);
    }
  }

  /** The Glider's offsets on an 11 x 33 screen land where the source places them, in order. */
  lemma GliderOnScreen(p: Pattern)
    requires p.alives == Glider.alives
    ensures AsScreenCoordinate(p, 11, 33) == Ok([(6, 16), (5, 15), (4, 17), (5, 17), (6, 17)])
  {
    var cells := p.alives;
    assert Fits(cells, 11, 33) by {
      forall i | 0 <= i < |cells| ensures 1 + 2 * Abs(cells[i].0) <= 11 && 1 + 2 * Abs(cells[i].1) <= 33 {
      }
    }
    var placed := AsScreenCoordinate(p, 11, 33).value;
    assert placed == [(6, 16), (5, 15), (4, 17), (5, 17), (6, 17)];
  }

  /** An empty pattern places nothing, whatever the screen size. */
  lemma EmptyPatternPlacesNothing(name: string, width: int, height: int)
    ensures AsScreenCoordinate(Pattern(name, []), width, height) == Ok([])
  {
  }

  /** A pattern needing a 21 x 21 screen is refused at 20 x 20, reporting 21 x 21, and placed at 21 x 21. */
  lemma TooLargeForScreen()
    ensures AsScreenCoordinate(Pattern("FooBar", [(10, 5), (-8, -10)]), 20, 20) == Err(PatternTooLarge(21, 21))
    ensures AsScreenCoordinate(Pattern("FooBar", [(10, 5), (-8, -10)]), 21, 21).Ok?
  {
  }
}
