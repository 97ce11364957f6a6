/**
 * The layout pass of the grid component: arranged widgets first, then the
 * disarranged ones, each placed by the scan from a running (row, column)
 * cursor; then the number of rows and the container height.
 */
module GridLayout {
  import opened Grid

  /** A widget together with the footprint the layout gave it. */
  datatype Cell = Cell(widget: Widget, position: Position)

  function PositionsOf(cells: seq<Cell>): (ps: seq<Position>)
    ensures |ps| == |cells|
    ensures forall k :: 0 <= k < |cells| ==> ps[k] == cells[k].position
  {
    seq(|cells|, k requires 0 <= k < |cells| => cells[k].position)
  }

  /** Widgets the layout can place: positive size, no wider than the grid. */
  predicate Placeable(widgets: seq<Widget>, fittingColumns: int) {
    forall w :: w in widgets ==> 1 <= w.width <= fittingColumns && 1 <= w.height
  }

  /** The occupancy table after placing the footprints `ps` one after another on an empty grid. */
  ghost function Occupancy(fittingColumns: nat, ps: seq<Position>): (g: OccupancyGrid)
    ensures |g| == fittingColumns
    decreases |ps|
  {
    if ps == [] then seq(fittingColumns, c => {})
    else OccupySpec(Occupancy(fittingColumns, ps[..|ps| - 1]), ps[|ps| - 1])
  }

  /**
   * The cursor row while arranged widget `k` is placed: the number of times
   * the widgets' row value changed among arranged[0..k].
   */
  ghost function GroupRow(widgets: seq<Widget>, k: nat): (g: nat)
    requires k < |widgets|
    ensures g <= k
  {
    if k == 0 then 0
    else GroupRow(widgets, k - 1) + (if widgets[k].row != widgets[k - 1].row then 1 else 0)
  }

  /** The cursor row never moves up while the arranged widgets are placed. */
  lemma {:induction false} GroupRowMonotone(widgets: seq<Widget>, i: nat, j: nat)
    requires i <= j < |widgets|
    ensures GroupRow(widgets, i) <= GroupRow(widgets, j)
    decreases j
  {
    if i < j {
      GroupRowMonotone(widgets, i, j - 1);
    }
  }

  /** Row values never decrease along the first `n` widgets. */
  ghost predicate RowsAscend(widgets: seq<Widget>, n: nat) {
    n <= |widgets| && forall a, b :: 0 <= a < b < n ==> widgets[a].row <= widgets[b].row
  }

  /** A prefix sorted by (row, col), as the constructor's arranged list is, has ascending row values. */
  lemma SortedRowsAscend(widgets: seq<Widget>, n: nat)
    requires n <= |widgets| && SortedByKey(widgets[..n])
    ensures RowsAscend(widgets, n)
  {
    forall a, b | 0 <= a < b < n ensures widgets[a].row <= widgets[b].row {
      assert KeyLe(widgets[..n][a], widgets[..n][b]);
    }
  }

  /**
   * Grouping: in a list sorted by row value, two arranged widgets are
   * requested on the same grid row exactly when they share a row value.
   */
  lemma {:induction false} SameGroupIffSameRow(widgets: seq<Widget>, n: nat, i: nat, j: nat)
    requires RowsAscend(widgets, n) && i <= j < n
    ensures GroupRow(widgets, i) == GroupRow(widgets, j) <==> widgets[i].row == widgets[j].row
    decreases j
  {
    if i < j {
      SameGroupIffSameRow(widgets, n, i, j - 1);
      GroupRowMonotone(widgets, i, j - 1);
      if widgets[j].row == widgets[j - 1].row {
      } else {
        assert widgets[j - 1].row < widgets[j].row;
        assert widgets[i].row <= widgets[j - 1].row;
      }
    }
  }

  /**
   * The row the first disarranged widget is requested at: one past the last
   * arranged group, or row 1; below the row of every arranged group.
   */
  ghost function AutoStartRow(widgets: seq<Widget>, arrangedCount: nat): (r: nat)
    requires arrangedCount <= |widgets|
    ensures r >= 1
    ensures forall k :: 0 <= k < arrangedCount ==> GroupRow(widgets, k) < r
  {
    assert forall k :: 0 <= k < arrangedCount ==> GroupRow(widgets, k) <= GroupRow(widgets, arrangedCount - 1) by {
      forall k | 0 <= k < arrangedCount ensures GroupRow(widgets, k) <= GroupRow(widgets, arrangedCount - 1) {
        GroupRowMonotone(widgets, k, arrangedCount - 1);
      }
    }
    if arrangedCount == 0 then 1 else GroupRow(widgets, arrangedCount - 1) + 1
  }

  /**
   * The (row, column) at which widget `k` of `widgets` (the arranged ones,
   * then the disarranged ones) is requested, given the footprints `ps` of
   * the widgets before it.
   */
  ghost function Cursor(widgets: seq<Widget>, arrangedCount: nat, ps: seq<Position>, k: nat): (int, int)
    requires arrangedCount <= |widgets| && k < |widgets| && k <= |ps|
  {
    if k < arrangedCount then
      if k == 0 then (0, 0)
      else if widgets[k].row != widgets[k - 1].row then (GroupRow(widgets, k), 0)
      else (GroupRow(widgets, k), ps[k - 1].column + ps[k - 1].width)
    else if k == arrangedCount then (AutoStartRow(widgets, arrangedCount), 0)
    else (ps[k - 1].row, ps[k - 1].column + ps[k - 1].width)
  }

  /**
   * `ps` are the footprints the layout pass gives the first |ps| widgets:
   * each is the first free one, in scan order from its cursor, on the grid
   * occupied by the footprints before it.
   */
  ghost predicate Placed(fittingColumns: nat, widgets: seq<Widget>, arrangedCount: nat, ps: seq<Position>)
    requires arrangedCount <= |widgets| && |ps| <= |widgets|
    decreases |ps|
  {
    ps == [] ||
    (var k := |ps| - 1;
     && Placed(fittingColumns, widgets, arrangedCount, ps[..k])
     && var cursor := Cursor(widgets, arrangedCount, ps, k);
        FirstFree(Occupancy(fittingColumns, ps[..k]), widgets[k].width, widgets[k].height, cursor.0, cursor.1, ps[k]))
  }

  /** No footprint reaches past the last column. */
  ghost predicate InBounds(fittingColumns: nat, ps: seq<Position>) {
    forall k :: 0 <= k < |ps| ==> ps[k].column + ps[k].width <= fittingColumns
  }

  /** No two footprints share a cell. */
  ghost predicate Disjoint(ps: seq<Position>) {
    forall k, l, r, c :: 0 <= k < l < |ps| && InFootprint(ps[k], r, c) ==> !InFootprint(ps[l], r, c)
  }

  /** A row/column is occupied in the table exactly when some placed footprint covers it. */
  lemma {:induction false} OccupancyCovers(fittingColumns: nat, ps: seq<Position>, r: nat, c: nat)
    requires c < fittingColumns
    ensures r in Occupancy(fittingColumns, ps)[c] <==> exists k :: 0 <= k < |ps| && InFootprint(ps[k], r, c)
    decreases |ps|
  {
    if ps != [] {
      var n := |ps| - 1;
      OccupancyCovers(fittingColumns, ps[..n], r, c);
      if r in Occupancy(fittingColumns, ps[..n])[c] {
        var k :| 0 <= k < n && InFootprint(ps[..n][k], r, c);
        assert InFootprint(ps[k], r, c);
      }
      if exists k :: 0 <= k < |ps| && InFootprint(ps[k], r, c) {
        var k :| 0 <= k < |ps| && InFootprint(ps[k], r, c);
        if k < n {
          assert InFootprint(ps[..n][k], r, c);
        }
      }
    }
  }

  /** Every footprint the layout places stays inside the grid and misses all earlier footprints. */
  lemma {:induction false} PlacedIsSound(fittingColumns: nat, widgets: seq<Widget>, arrangedCount: nat, ps: seq<Position>)
    requires arrangedCount <= |widgets| && |ps| <= |widgets|
    requires Placeable(widgets, fittingColumns)
    requires Placed(fittingColumns, widgets, arrangedCount, ps)
    ensures forall k :: 0 <= k < |ps| ==> ps[k].width == widgets[k].width && ps[k].height == widgets[k].height
    ensures InBounds(fittingColumns, ps)
    ensures Disjoint(ps)
    decreases |ps|
  {
    if ps != [] {
      var n := |ps| - 1;
      var prefix := ps[..n];
      PlacedIsSound(fittingColumns, widgets, arrangedCount, prefix);
      var w := widgets[n];
      assert w in widgets;
      var grid := Occupancy(fittingColumns, prefix);
      FreeFootprintInRange(grid, ps[n].row, ps[n].column, w.width, w.height);
      forall k, r, c | 0 <= k < n && InFootprint(ps[k], r, c)
        ensures !InFootprint(ps[n], r, c)
      {
        if InFootprint(ps[n], r, c) {
          assert prefix[k] == ps[k];
          OccupancyCovers(fittingColumns, prefix, r, c);
          assert IsOccupied(grid, r, c);
        }
      }
      forall k, l, r, c | 0 <= k < l < |ps| && InFootprint(ps[k], r, c)
        ensures !InFootprint(ps[l], r, c)
      {
        if l < n {
          assert prefix[k] == ps[k] && prefix[l] == ps[l];
        }
      }
      forall k | 0 <= k < |ps|
        ensures ps[k].width == widgets[k].width && ps[k].height == widgets[k].height
        ensures ps[k].column + ps[k].width <= fittingColumns
      {
        if k < n {
          assert prefix[k] == ps[k];
        }
      }
    }
  }

  /** The layout pass is deterministic: its specification admits one sequence of footprints. */
  lemma {:induction false} PlacedIsUnique(fittingColumns: nat, widgets: seq<Widget>, arrangedCount: nat, ps: seq<Position>, qs: seq<Position>)
    requires arrangedCount <= |widgets| && |ps| == |qs| <= |widgets|
    requires Placed(fittingColumns, widgets, arrangedCount, ps)
    requires Placed(fittingColumns, widgets, arrangedCount, qs)
    ensures ps == qs
    decreases |ps|
  {
    if ps != [] {
      var n := |ps| - 1;
      PlacedIsUnique(fittingColumns, widgets, arrangedCount, ps[..n], qs[..n]);
      assert Cursor(widgets, arrangedCount, ps, n) == Cursor(widgets, arrangedCount, qs, n);
      var cursor := Cursor(widgets, arrangedCount, ps, n);
      FirstFreeUnique(Occupancy(fittingColumns, ps[..n]), widgets[n].width, widgets[n].height, cursor.0, cursor.1, ps[n], qs[n]);
      assert ps == ps[..n] + [ps[n]] && qs == qs[..n] + [qs[n]];
    }
  }

  /**
   * The state of the pass after placing the first |ps| widgets: `cells`
   * pairs each with its footprint, the footprints are those of the
   * specification, and `grid` is the table they occupy.
   */
  ghost predicate Progress(fittingColumns: nat, widgets: seq<Widget>, arrangedCount: nat,
                           grid: OccupancyGrid, cells: seq<Cell>, ps: seq<Position>)
  {
    && arrangedCount <= |widgets| && |cells| == |ps| <= |widgets|
    && (forall k :: 0 <= k < |cells| ==> cells[k] == Cell(widgets[k], ps[k]))
    && Placed(fittingColumns, widgets, arrangedCount, ps)
    && grid == Occupancy(fittingColumns, ps)
  }

  /** One step of the pass: the next widget goes to the first free footprint from its cursor. */
  lemma ProgressStep(fittingColumns: nat, widgets: seq<Widget>, arrangedCount: nat,
                     grid: OccupancyGrid, cells: seq<Cell>, ps: seq<Position>, p: Position)
    requires Progress(fittingColumns, widgets, arrangedCount, grid, cells, ps) && |ps| < |widgets|
    requires var cursor := Cursor(widgets, arrangedCount, ps, |ps|);
             FirstFree(grid, widgets[|ps|].width, widgets[|ps|].height, cursor.0, cursor.1, p)
    ensures Progress(fittingColumns, widgets, arrangedCount, OccupySpec(grid, p), cells + [Cell(widgets[|ps|], p)], ps + [p])
  {
    assert (ps + [p])[..|ps|] == ps;
    assert Cursor(widgets, arrangedCount, ps + [p], |ps|) == Cursor(widgets, arrangedCount, ps, |ps|);
  }

  /**
   * What the finished pass guarantees: every footprint has its widget's size,
   * stays inside the grid and misses every other one, and the table's row
   * count is exactly enough for the lowest footprint.
   */
  lemma LayoutIsSound(fittingColumns: nat, widgets: seq<Widget>, arrangedCount: nat, ps: seq<Position>, totalRows: nat)
    requires arrangedCount <= |widgets| && |ps| <= |widgets| && fittingColumns >= 1
    requires Placeable(widgets, fittingColumns)
    requires Placed(fittingColumns, widgets, arrangedCount, ps)
    requires var grid := Occupancy(fittingColumns, ps);
             && (forall c, r :: 0 <= c < |grid| && r in grid[c] ==> r < totalRows)
             && (totalRows == 1 || exists c :: 0 <= c < |grid| && totalRows - 1 in grid[c])
    ensures InBounds(fittingColumns, ps) && Disjoint(ps)
    ensures forall k :: 0 <= k < |ps| ==> ps[k].row + ps[k].height <= totalRows
    ensures totalRows == 1 || exists k :: 0 <= k < |ps| && ps[k].row + ps[k].height == totalRows
  {
    PlacedIsSound(fittingColumns, widgets, arrangedCount, ps);
    var grid := Occupancy(fittingColumns, ps);
    forall k | 0 <= k < |ps| ensures ps[k].row + ps[k].height <= totalRows {
      assert widgets[k] in widgets;
      OccupancyCovers(fittingColumns, ps, ps[k].row + ps[k].height - 1, ps[k].column);
    }
    if totalRows != 1 {
      var c :| 0 <= c < |grid| && totalRows - 1 in grid[c];
      OccupancyCovers(fittingColumns, ps, totalRows - 1, c);
    }
  }

  /** Rows and pixel height of the rendered grid, and the widgets in rendering order. */
  datatype Layout = Layout(cells: seq<Cell>, totalRows: nat, height: int)

  /**
   * First loop of the pass: places the arranged widgets (the first
   * |arranged| of `widgets`) on an empty grid. The cursor moves to column 0
   * of the next logical row whenever the row value changes, and otherwise to
   * the end of the previous footprint. Returns the cursor row it ended on.
   */
  method PlaceArranged(fittingColumns: nat, arranged: seq<Widget>, ghost widgets: seq<Widget>)
    returns (grid: OccupancyGrid, cells: seq<Cell>, gridRow: nat, ghost ps: seq<Position>)
    requires |arranged| <= |widgets| && arranged == widgets[..|arranged|]
    requires Placeable(widgets, fittingColumns)
    ensures |ps| == |arranged|
    ensures Progress(fittingColumns, widgets, |arranged|, grid, cells, ps)
    ensures gridRow + 1 == AutoStartRow(widgets, |arranged|)
  {
    ghost var na := |arranged|;
    grid := seq(fittingColumns, c => {});
    cells := [];
    ps := [];
    gridRow := 0;
    var gridColumn: nat := 0;
    var widgetRow := 1;

    var i := 0;
    while i < |arranged|
      invariant 0 <= i <= |arranged|
      invariant |ps| == i
      invariant Progress(fittingColumns, widgets, na, grid, cells, ps)
      invariant i == 0 ==> gridRow == 0 && gridColumn == 0 && widgetRow == 1
      invariant i > 0 ==> gridRow == GroupRow(widgets, i - 1) && widgetRow == widgets[i - 1].row
                          && gridColumn == ps[i - 1].column + ps[i - 1].width
    {
      var widget := arranged[i];
      assert widget == widgets[i] && widget in widgets;
      if widgetRow != widget.row {
        widgetRow := widget.row;
        gridRow := if i == 0 then 0 else gridRow + 1;
        gridColumn := 0;
      }
      assert (gridRow, gridColumn) == Cursor(widgets, na, ps, i);
      var p := DeterminePosition(grid, widget, gridRow, gridColumn);
      FreeFootprintInRange(grid, p.row, p.column, p.width, p.height);
      ProgressStep(fittingColumns, widgets, na, grid, cells, ps, p);
      grid := Occupy(grid, p);
      cells := cells + [Cell(widget, p)];
      ps := ps + [p];
      gridColumn := p.column + p.width;
      i := i + 1;
    }
  }

  /**
   * Second loop of the pass: places the disarranged widgets (the rest of
   * `widgets`) starting at column 0 of `startRow`; after each one the cursor
   * takes the row it was placed on and the column just past it.
   */
  method PlaceDisarranged(fittingColumns: nat, disarranged: seq<Widget>, ghost widgets: seq<Widget>, ghost arrangedCount: nat,
                          grid0: OccupancyGrid, cells0: seq<Cell>, startRow: nat, ghost ps0: seq<Position>)
    returns (grid: OccupancyGrid, cells: seq<Cell>, ghost ps: seq<Position>)
    requires arrangedCount + |disarranged| == |widgets| && disarranged == widgets[arrangedCount..]
    requires Placeable(widgets, fittingColumns)
    requires |ps0| == arrangedCount
    requires Progress(fittingColumns, widgets, arrangedCount, grid0, cells0, ps0)
    requires startRow == AutoStartRow(widgets, arrangedCount)
    ensures |ps| == |widgets|
    ensures |cells| == |widgets| && forall k :: 0 <= k < |cells| ==> cells[k].widget == widgets[k]
    ensures Progress(fittingColumns, widgets, arrangedCount, grid, cells, ps)
  {
    ghost var na := arrangedCount;
    grid, cells, ps := grid0, cells0, ps0;
    var gridRow: nat := startRow;
    var gridColumn: nat := 0;

    var j := 0;
    while j < |disarranged|
      invariant 0 <= j <= |disarranged|
      invariant |ps| == na + j
      invariant Progress(fittingColumns, widgets, na, grid, cells, ps)
      invariant j == 0 ==> gridRow == AutoStartRow(widgets, na) && gridColumn == 0
      invariant j > 0 ==> gridRow == ps[na + j - 1].row && gridColumn == ps[na + j - 1].column + ps[na + j - 1].width
    {
      var widget := disarranged[j];
      assert widget == widgets[na + j] && widget in widgets;
      assert (gridRow, gridColumn) == Cursor(widgets, na, ps, na + j);
      var p := DeterminePosition(grid, widget, gridRow, gridColumn);
      FreeFootprintInRange(grid, p.row, p.column, p.width, p.height);
      ProgressStep(fittingColumns, widgets, na, grid, cells, ps, p);
      grid := Occupy(grid, p);
      cells := cells + [Cell(widget, p)];
      ps := ps + [p];
      gridRow := p.row;
      gridColumn := p.column + p.width;
      j := j + 1;
    }
  }

  /**
   * Places every arranged widget, then every disarranged widget, and
   * measures the grid. Each footprint is the first free one from the
   * cursor (see `Cursor`), no two footprints share a cell, none reaches past
   * the last column, and the grid is exactly tall enough for the lowest one.
   */
  method Render(state: GridState, config: Config) returns (layout: Layout)
    requires state.fittingColumns >= 1
    requires Placeable(state.arranged + state.disarranged, state.fittingColumns)
    ensures |layout.cells| == |state.arranged| + |state.disarranged|
    ensures forall k :: 0 <= k < |layout.cells| ==> layout.cells[k].widget == (state.arranged + state.disarranged)[k]
    ensures Placed(state.fittingColumns, state.arranged + state.disarranged, |state.arranged|, PositionsOf(layout.cells))
    ensures InBounds(state.fittingColumns, PositionsOf(layout.cells))
    ensures Disjoint(PositionsOf(layout.cells))
    ensures layout.totalRows >= 1
    ensures forall k :: 0 <= k < |layout.cells| ==>
              layout.cells[k].position.row + layout.cells[k].position.height <= layout.totalRows
    ensures layout.totalRows == 1 ||
            exists k :: 0 <= k < |layout.cells| && layout.cells[k].position.row + layout.cells[k].position.height == layout.totalRows
    ensures layout.height == layout.totalRows * (config.rowSize + config.margin)
  {
    var f: nat := state.fittingColumns;
    ghost var widgets := state.arranged + state.disarranged;
    ghost var na := |state.arranged|;
    assert state.arranged == widgets[..na] && state.disarranged == widgets[na..];

    // Arranged widgets first, grouped by their row value.
    var grid, cells, gridRow, ps := PlaceArranged(f, state.arranged, widgets);
    // Disarranged widgets start on a fresh row.
    gridRow := gridRow + 1;
    grid, cells, ps := PlaceDisarranged(f, state.disarranged, widgets, na, grid, cells, gridRow, ps);

    var totalRows := TotalRows(grid);
    assert grid == Occupancy(f, ps);
    assert PositionsOf(cells) == ps;
    LayoutIsSound(f, widgets, na, ps, totalRows);
    layout := Layout(cells, totalRows, totalRows * (config.rowSize + config.margin));
  }
}
