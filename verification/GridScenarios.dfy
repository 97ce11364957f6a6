/**
 * Concrete layouts the layout pass must produce. Each lemma starts from the
 * specification of the pass (`Placed`, `FirstFree`), so by the
 * postconditions of `Render` and `DeterminePosition` it describes exactly
 * what those return for that input.
 */
module GridScenarios {
  import opened Grid
  import opened GridLayout

  function UnitWidget(id: string, row: int, col: int): Widget {
    Widget(id, row, col, 1, 1)
  }

  /** On an empty grid the scan keeps the requested cell. */
  lemma EmptyGridKeepsRequest(fittingColumns: nat, row: nat, column: nat)
    requires column + 1 <= fittingColumns
    ensures FirstFree(Occupancy(fittingColumns, []), 1, 1, row, column, Position(row, column, 1, 1))
  {
    var g := Occupancy(fittingColumns, []);
    forall r: nat, c: nat | row <= r <= row && column <= c <= column ensures !IsOccupied(g, r, c) {
      assert g[c] == {};
    }
  }

  /**
   * The second of two 1x1 widgets on a one-column grid, after the first took
   * (1, 0): the cursor (1, 1) is blocked, because column 1 lies outside the
   * grid, and the first free cell in scan order is (2, 0).
   */
  lemma SecondAutoWidgetWraps()
    ensures Blocked(Occupancy(1, [Position(1, 0, 1, 1)]), 1, 1, 1, 1)
    ensures FirstFree(Occupancy(1, [Position(1, 0, 1, 1)]), 1, 1, 1, 1, Position(2, 0, 1, 1))
  {
    var p0 := Position(1, 0, 1, 1);
    var g := Occupancy(1, [p0]);
    assert [p0][..0] == [];
    assert g == OccupySpec(Occupancy(1, []), p0);
    assert IsOccupied(g, 1, 1);
    forall r: nat, c: nat | LexLe(1, 1, r, c) && LexLt(r, c, 2, 0) ensures Blocked(g, r, c, 1, 1) {
      assert IsOccupied(g, r, c);
    }
    assert !IsOccupied(g, 2, 0) by {
      assert 2 in g[0] <==> 2 in Occupancy(1, [])[0] || InFootprint(p0, 2, 0);
    }
  }

  /**
   * Two unpositioned 1x1 widgets on a one-column grid: the first is
   * requested at row 1 (the cursor row is bumped once after the, here
   * empty, arranged phase), so it lands on (1, 0) and row 0 stays empty; the
   * second is requested at (1, 1) and wraps to (2, 0).
   */
  lemma AutoWidgetsStartAtRowOne(ps: seq<Position>)
    requires |ps| == 2
    requires Placed(1, [UnitWidget("a", 0, 0), UnitWidget("b", 0, 0)], 0, ps)
    ensures ps == [Position(1, 0, 1, 1), Position(2, 0, 1, 1)]
  {
    var ws := [UnitWidget("a", 0, 0), UnitWidget("b", 0, 0)];
    var p0, p1 := Position(1, 0, 1, 1), Position(2, 0, 1, 1);
    var expected := [p0, p1];
    assert expected[..1] == [p0] && [p0][..0] == [];
    EmptyGridKeepsRequest(1, 1, 0);
    assert Cursor(ws, 0, [p0], 0) == (1, 0);
    assert Placed(1, ws, 0, [p0]);
    SecondAutoWidgetWraps();
    assert Cursor(ws, 0, expected, 1) == (1, 1);
    assert Placed(1, ws, 0, expected);
    PlacedIsUnique(1, ws, 0, ps, expected);
  }

  /**
   * A tall arranged widget and an auto widget on a two-column grid: the
   * arranged one takes (0, 0) and (1, 0); the auto widget is requested at
   * (1, 0), one row past the arranged group's cursor row, not past the rows
   * the arranged widget covers, so it lands beside it at (1, 1).
   */
  lemma AutoWidgetBesideTallArranged(ps: seq<Position>)
    requires |ps| == 2
    requires Placed(2, [Widget("a", 1, 0, 1, 2), UnitWidget("b", 0, 0)], 1, ps)
    ensures ps == [Position(0, 0, 1, 2), Position(1, 1, 1, 1)]
  {
    var ws := [Widget("a", 1, 0, 1, 2), UnitWidget("b", 0, 0)];
    var p0, p1 := Position(0, 0, 1, 2), Position(1, 1, 1, 1);
    var expected := [p0, p1];
    assert expected[..1] == [p0] && [p0][..0] == [];

    var g0 := Occupancy(2, []);
    forall r: nat, c: nat | 0 <= r <= 1 && 0 <= c <= 0 ensures !IsOccupied(g0, r, c) {
      assert g0[c] == {};
    }
    assert Cursor(ws, 1, [p0], 0) == (0, 0);
    assert Placed(2, ws, 1, [p0]);

    var g1 := Occupancy(2, [p0]);
    assert g1 == OccupySpec(g0, p0);
    assert Cursor(ws, 1, expected, 1) == (1, 0);
    assert IsOccupied(g1, 1, 0) by {
      assert 1 in g1[0] <==> 1 in g0[0] || InFootprint(p0, 1, 0);
    }
    assert !IsOccupied(g1, 1, 1) by {
      assert 1 in g1[1] <==> 1 in g0[1] || InFootprint(p0, 1, 1);
      assert g0[1] == {};
    }
    forall r: nat, c: nat | LexLe(1, 0, r, c) && LexLt(r, c, 1, 1) ensures Blocked(g1, r, c, 1, 1) {
      assert IsOccupied(g1, r, c);
    }
    assert Placed(2, ws, 1, expected);
    PlacedIsUnique(2, ws, 1, ps, expected);
  }

  /**
   * Arranged widgets on a two-column grid: the two whose row value is 1
   * share the first grid row side by side, the one whose row value is 2
   * starts the next grid row at column 0.
   */
  lemma ArrangedRowsGroup(ps: seq<Position>)
    requires |ps| == 3
    requires Placed(2, [UnitWidget("a", 1, 0), UnitWidget("b", 1, 1), UnitWidget("c", 2, 0)], 3, ps)
    ensures ps == [Position(0, 0, 1, 1), Position(0, 1, 1, 1), Position(1, 0, 1, 1)]
  {
    var ws := [UnitWidget("a", 1, 0), UnitWidget("b", 1, 1), UnitWidget("c", 2, 0)];
    var p0, p1, p2 := Position(0, 0, 1, 1), Position(0, 1, 1, 1), Position(1, 0, 1, 1);
    var expected := [p0, p1, p2];
    assert expected[..2] == [p0, p1] && [p0, p1][..1] == [p0] && [p0][..0] == [];

    EmptyGridKeepsRequest(2, 0, 0);
    assert Cursor(ws, 3, [p0], 0) == (0, 0);
    assert Placed(2, ws, 3, [p0]);

    var g1 := Occupancy(2, [p0]);
    assert g1 == OccupySpec(Occupancy(2, []), p0);
    assert Cursor(ws, 3, [p0, p1], 1) == (0, 1);
    assert !IsOccupied(g1, 0, 1) by {
      assert 0 in g1[1] <==> 0 in Occupancy(2, [])[1] || InFootprint(p0, 0, 1);
    }
    assert Placed(2, ws, 3, [p0, p1]);

    var g2 := Occupancy(2, [p0, p1]);
    assert g2 == OccupySpec(g1, p1);
    assert GroupRow(ws, 2) == 1;
    assert Cursor(ws, 3, expected, 2) == (1, 0);
    assert !IsOccupied(g2, 1, 0) by {
      assert 1 in g2[0] <==> 1 in g1[0] || InFootprint(p1, 1, 0);
      assert 1 in g1[0] <==> 1 in Occupancy(2, [])[0] || InFootprint(p0, 1, 0);
    }
    assert Placed(2, ws, 3, expected);
    PlacedIsUnique(2, ws, 3, ps, expected);
  }

  /**
   * A two-wide widget requested at (0, 0) of a two-column grid whose cell
   * (0, 0) is taken: shifting right cannot fit, so the scan goes on at
   * column 0 of the next row.
   */
  lemma WideWidgetWraps(p: Position)
    requires FirstFree([{0}, {}], 2, 1, 0, 0, p)
    ensures p == Position(1, 0, 2, 1)
  {
    var g: OccupancyGrid := [{0}, {}];
    forall r: nat, c: nat | LexLe(0, 0, r, c) && LexLt(r, c, 1, 0) ensures Blocked(g, r, c, 2, 1) {
      if c == 0 {
        assert IsOccupied(g, r, c);
      } else {
        assert IsOccupied(g, r, c + 1);
      }
    }
    assert !IsOccupied(g, 1, 0) && !IsOccupied(g, 1, 1);
    FirstFreeUnique(g, 2, 1, 0, 0, p, Position(1, 0, 2, 1));
  }
}
