/**
 * The dashboard widget grid: column count, the split of widgets into
 * arranged and disarranged lists, the per-column occupancy table and the
 * placement scan that finds a free footprint for one widget.
 *
 * The occupancy table is a value (the component keeps it in a persistent
 * list of persistent sets and rebinds it after every update), so the
 * imperative operations are methods that take a table and return a new one.
 */
module Grid {

  /** A widget as configured on a dashboard; `row == 0` means "no explicit position". */
  datatype Widget = Widget(id: string, row: int, col: int, width: int, height: int)

  /** The footprint chosen for a widget: its top-left cell and its size. */
  datatype Position = Position(row: nat, column: nat, width: int, height: int)

  /** Pixel configuration of the grid component. */
  datatype Config = Config(rowSize: int, columnSize: int, margin: int)

  const DefaultConfig: Config := Config(200, 400, 10)

  /** Occupied rows, indexed by column; its length is the number of fitting columns. */
  type OccupancyGrid = seq<set<nat>>

  // ---------------------------------------------------------------------------
  // Column count
  // ---------------------------------------------------------------------------

  /** `Math.floor(a / b)` for integers, for either sign of a non-zero divisor. */
  function FloorDiv(a: int, b: int): (q: int)
    requires b != 0
    ensures b > 0 ==> q * b <= a < q * b + b
    ensures b < 0 ==> q * b >= a > q * b + b
  {
    if b > 0 then a / b else (-a) / (-b)
  }

  /** Number of grid columns that fit the viewport, never fewer than one. */
  function FittingColumns(viewportWidth: int, config: Config): (n: int)
    requires config.columnSize + config.margin != 0
    ensures n >= 1
    ensures FloorDiv(viewportWidth, config.columnSize + config.margin) >= 1 ==>
              n == FloorDiv(viewportWidth, config.columnSize + config.margin)
    ensures FloorDiv(viewportWidth, config.columnSize + config.margin) < 1 ==> n == 1
    ensures var d := config.columnSize + config.margin;
            d > 0 && viewportWidth >= d ==> n * d <= viewportWidth < (n + 1) * d
    ensures var d := config.columnSize + config.margin;
            d > 0 && viewportWidth < d ==> n == 1
  {
    var q := FloorDiv(viewportWidth, config.columnSize + config.margin);
    if q >= 1 then q else 1
  }

  // ---------------------------------------------------------------------------
  // Classification and ordering of widgets
  // ---------------------------------------------------------------------------

  /** Lexicographic (row, col) order on widgets, the order arranged widgets are rendered in. */
  predicate KeyLe(a: Widget, b: Widget) {
    a.row < b.row || (a.row == b.row && a.col <= b.col)
  }

  predicate SortedByKey(ws: seq<Widget>) {
    forall i, j :: 0 <= i < j < |ws| ==> KeyLe(ws[i], ws[j])
  }

  /**
   * The comparator handed to the list's sort: widgets without a position go
   * last, otherwise by row and then by column. Negative means "w1 first".
   */
  function SortWidgets(w1: Widget, w2: Widget): (r: int)
    ensures w1.row == 0 ==> r > 0
    ensures w1.row != 0 && w2.row == 0 ==> r < 0
    ensures w1.row != 0 && w2.row != 0 ==>
              (r <= 0 <==> KeyLe(w1, w2)) && (r == 0 <==> w1.row == w2.row && w1.col == w2.col)
  {
    if w1.row == 0 then 1
    else if w2.row == 0 then -1
    else if w1.row != w2.row then w1.row - w2.row
    else w1.col - w2.col
  }

  /** The widgets that carry an explicit row, in input order. */
  function Positioned(ws: seq<Widget>): (r: seq<Widget>)
    ensures forall w :: w in r <==> w in ws && w.row != 0
    ensures |r| <= |ws|
  {
    if ws == [] then []
    else (if ws[0].row != 0 then [ws[0]] else []) + Positioned(ws[1..])
  }

  /** The widgets without an explicit row, in input order. */
  function Unpositioned(ws: seq<Widget>): (r: seq<Widget>)
    ensures forall w :: w in r <==> w in ws && w.row == 0
    ensures |r| <= |ws|
  {
    if ws == [] then []
    else (if ws[0].row == 0 then [ws[0]] else []) + Unpositioned(ws[1..])
  }

  /** Splitting by `row != 0` loses and duplicates nothing. */
  lemma {:induction false} SplitIsPartition(ws: seq<Widget>)
    ensures multiset(Positioned(ws)) + multiset(Unpositioned(ws)) == multiset(ws)
    ensures |Positioned(ws)| + |Unpositioned(ws)| == |ws|
  {
    if ws != [] {
      SplitIsPartition(ws[1..]);
      assert ws == [ws[0]] + ws[1..];
    }
  }

  /** Inserts `x` before the first element the comparator does not put before it. */
  function Insert(x: Widget, s: seq<Widget>): (r: seq<Widget>)
    requires x.row != 0
    requires forall w :: w in s ==> w.row != 0
    requires SortedByKey(s)
    ensures SortedByKey(r)
    ensures multiset(r) == multiset(s) + multiset{x}
  {
    if s == [] then [x]
    else if SortWidgets(x, s[0]) <= 0 then
      InsertFrontSorted(x, s);
      [x] + s
    else
      var rest := Insert(x, s[1..]);
      assert s == [s[0]] + s[1..];
      InsertBehindSorted(x, s, rest);
      [s[0]] + rest
  }

  lemma InsertFrontSorted(x: Widget, s: seq<Widget>)
    requires s != [] && SortedByKey(s) && KeyLe(x, s[0])
    ensures SortedByKey([x] + s)
  {
    forall i, j | 0 <= i < j < |s| + 1 ensures KeyLe(([x] + s)[i], ([x] + s)[j]) {
      if i == 0 && j > 1 {
        assert KeyLe(s[0], s[j - 1]);
      }
    }
  }

  lemma InsertBehindSorted(x: Widget, s: seq<Widget>, rest: seq<Widget>)
    requires s != [] && SortedByKey(s) && !KeyLe(x, s[0])
    requires SortedByKey(rest) && multiset(rest) == multiset(s[1..]) + multiset{x}
    ensures SortedByKey([s[0]] + rest)
    ensures multiset([s[0]] + rest) == multiset(s) + multiset{x}
  {
    forall w | w in rest ensures KeyLe(s[0], w) {
      assert w in multiset(rest);
      if w != x {
        assert w in s[1..];
        var k :| 1 <= k < |s| && s[k] == w;
      }
    }
    forall i, j | 0 <= i < j < |rest| + 1 ensures KeyLe(([s[0]] + rest)[i], ([s[0]] + rest)[j]) {
      if i == 0 {
        assert ([s[0]] + rest)[j] == rest[j - 1];
      }
    }
    assert s == [s[0]] + s[1..];
  }

  /** Insertion sort with `SortWidgets`; equal keys keep their input order. */
  function SortArranged(ws: seq<Widget>): (r: seq<Widget>)
    requires forall w :: w in ws ==> w.row != 0
    ensures SortedByKey(r)
    ensures multiset(r) == multiset(ws)
  {
    if ws == [] then []
    else
      var rest := SortArranged(ws[1..]);
      assert multiset(ws) == multiset{ws[0]} + multiset(ws[1..]) by {
        assert ws == [ws[0]] + ws[1..];
      }
      assert forall w :: w in rest ==> w in multiset(rest);
      Insert(ws[0], rest)
  }

  /** Filtering by row value distributes over concatenation: both lists keep input order. */
  lemma {:induction false} SplitKeepsOrder(a: seq<Widget>, b: seq<Widget>)
    ensures Positioned(a + b) == Positioned(a) + Positioned(b)
    ensures Unpositioned(a + b) == Unpositioned(a) + Unpositioned(b)
  {
    if a != [] {
      assert (a + b)[1..] == a[1..] + b;
      SplitKeepsOrder(a[1..], b);
    } else {
      assert a + b == b;
    }
  }

  /** The widgets whose (row, col) key is (row, col), in list order. */
  function WithKey(ws: seq<Widget>, row: int, col: int): (r: seq<Widget>)
  {
    if ws == [] then []
    else Tie(ws[0], row, col) + WithKey(ws[1..], row, col)
  }

  lemma WithKeyCons(w: Widget, ws: seq<Widget>, row: int, col: int)
    ensures WithKey([w] + ws, row, col) == Tie(w, row, col) + WithKey(ws, row, col)
  {
    assert ([w] + ws)[1..] == ws;
  }

  /** When `x` goes after the first element, `Insert` keeps that element in front. */
  lemma InsertBehind(x: Widget, s: seq<Widget>)
    requires x.row != 0
    requires forall w :: w in s ==> w.row != 0
    requires SortedByKey(s)
    requires s != [] && SortWidgets(x, s[0]) > 0
    ensures SortedByKey(s[1..]) && forall w :: w in s[1..] ==> w.row != 0
    ensures Insert(x, s) == [s[0]] + Insert(x, s[1..])
  {
    assert s == [s[0]] + s[1..];
  }

  /** The widgets with key (row, col) in `[x]`: `[x]` itself or nothing. */
  function Tie(x: Widget, row: int, col: int): seq<Widget> {
    if x.row == row && x.col == col then [x] else []
  }

  lemma InsertTiesFront(x: Widget, s: seq<Widget>, row: int, col: int)
    requires x.row != 0
    requires forall w :: w in s ==> w.row != 0
    requires SortedByKey(s)
    requires s == [] || SortWidgets(x, s[0]) <= 0
    ensures WithKey(Insert(x, s), row, col) == Tie(x, row, col) + WithKey(s, row, col)
  {
    assert Insert(x, s) == [x] + s;
    WithKeyCons(x, s, row, col);
  }

  lemma InsertTiesBehind(x: Widget, s: seq<Widget>, row: int, col: int)
    requires x.row != 0
    requires forall w :: w in s ==> w.row != 0
    requires SortedByKey(s)
    requires s != [] && SortWidgets(x, s[0]) > 0
    requires WithKey(Insert(x, s[1..]), row, col) == Tie(x, row, col) + WithKey(s[1..], row, col)
    ensures WithKey(Insert(x, s), row, col) == Tie(x, row, col) + WithKey(s, row, col)
  {
    InsertBehind(x, s);
    var rest := Insert(x, s[1..]);
    WithKeyCons(s[0], rest, row, col);
    var tx, t0, w := Tie(x, row, col), Tie(s[0], row, col), WithKey(s[1..], row, col);
    assert WithKey(s, row, col) == t0 + w;
    assert WithKey(Insert(x, s), row, col) == t0 + (tx + w);
    assert s[0] in s;
    if tx == [] {
      assert tx + (t0 + w) == t0 + w;
      assert t0 + (tx + w) == t0 + w;
    } else {
      assert t0 == [];
      assert t0 + (tx + w) == tx + w;
      assert tx + (t0 + w) == tx + w;
    }
  }

  /** `Insert` puts `x` in front of every element with the same key. */
  lemma {:induction false} InsertKeepsTies(x: Widget, s: seq<Widget>, row: int, col: int)
    requires x.row != 0
    requires forall w :: w in s ==> w.row != 0
    requires SortedByKey(s)
    ensures WithKey(Insert(x, s), row, col) == Tie(x, row, col) + WithKey(s, row, col)
  {
    if s == [] || SortWidgets(x, s[0]) <= 0 {
      InsertTiesFront(x, s, row, col);
    } else {
      InsertBehind(x, s);
      InsertKeepsTies(x, s[1..], row, col);
      InsertTiesBehind(x, s, row, col);
    }
  }

  /** The sort is stable: widgets with equal keys keep their input order. */
  lemma {:induction false} SortArrangedIsStable(ws: seq<Widget>, row: int, col: int)
    requires forall w :: w in ws ==> w.row != 0
    ensures WithKey(SortArranged(ws), row, col) == WithKey(ws, row, col)
  {
    if ws != [] {
      SortArrangedIsStable(ws[1..], row, col);
      var rest := SortArranged(ws[1..]);
      assert forall w :: w in rest ==> w in multiset(rest);
      InsertKeepsTies(ws[0], rest, row, col);
    }
  }

  /** Keeping the positioned widgets keeps every key group of a non-zero row whole. */
  lemma {:induction false} PositionedKeepsKeys(ws: seq<Widget>, row: int, col: int)
    requires row != 0
    ensures WithKey(Positioned(ws), row, col) == WithKey(ws, row, col)
  {
    if ws != [] {
      PositionedKeepsKeys(ws[1..], row, col);
      WithKeyCons(ws[0], ws[1..], row, col);
      assert [ws[0]] + ws[1..] == ws;
      if ws[0].row != 0 {
        WithKeyCons(ws[0], Positioned(ws[1..]), row, col);
      } else {
        assert Positioned(ws) == Positioned(ws[1..]);
      }
    }
  }

  /** The state the component derives from its props when it is constructed. */
  datatype GridState = GridState(fittingColumns: int, arranged: seq<Widget>, disarranged: seq<Widget>)

  /**
   * Constructor: arranged widgets are the positioned ones sorted by (row, col),
   * disarranged widgets are the others in input order; together they are the
   * input widgets.
   */
  function NewGridState(widgets: seq<Widget>, viewportWidth: int, config: Config): (s: GridState)
    requires config.columnSize + config.margin != 0
    ensures s.fittingColumns == FittingColumns(viewportWidth, config)
    ensures s.fittingColumns >= 1
    ensures SortedByKey(s.arranged)
    ensures forall w :: w in s.arranged ==> w.row != 0
    ensures forall w :: w in s.disarranged ==> w.row == 0
    ensures multiset(s.arranged) + multiset(s.disarranged) == multiset(widgets)
    ensures s.disarranged == Unpositioned(widgets)
    ensures forall row, col :: row != 0 ==> WithKey(s.arranged, row, col) == WithKey(widgets, row, col)
  {
    SplitIsPartition(widgets);
    var arranged := SortArranged(Positioned(widgets));
    assert forall w :: w in arranged ==> w in multiset(arranged);
    assert forall row, col :: row != 0 ==> WithKey(arranged, row, col) == WithKey(widgets, row, col) by {
      forall row, col | row != 0 ensures WithKey(arranged, row, col) == WithKey(widgets, row, col) {
        SortArrangedIsStable(Positioned(widgets), row, col);
        PositionedKeepsKeys(widgets, row, col);
      }
    }
    GridState(FittingColumns(viewportWidth, config), arranged, Unpositioned(widgets))
  }

  // ---------------------------------------------------------------------------
  // Occupancy table
  // ---------------------------------------------------------------------------

  /** The cell (row, col) lies inside the footprint `p`. */
  predicate InFootprint(p: Position, row: int, col: int) {
    p.row <= row < p.row + p.height && p.column <= col < p.column + p.width
  }

  /** A column without an entry in the table counts as blocked. */
  predicate IsOccupied(grid: OccupancyGrid, row: nat, column: nat) {
    column >= |grid| || row in grid[column]
  }

  /** Some cell of the inclusive rectangle [beginRow..endRow] x [beginColumn..endColumn] is occupied. */
  ghost predicate AnyOccupied(grid: OccupancyGrid, beginRow: nat, endRow: int, beginColumn: nat, endColumn: int) {
    exists r: nat, c: nat :: beginRow <= r <= endRow && beginColumn <= c <= endColumn && IsOccupied(grid, r, c)
  }

  /** The footprint of size width x height with top-left cell (row, column) hits an occupied cell. */
  ghost predicate Blocked(grid: OccupancyGrid, row: nat, column: nat, width: int, height: int) {
    AnyOccupied(grid, row, row + height - 1, column, column + width - 1)
  }

  /** The rows from `lo` up to but excluding `hi`. */
  function RowRange(lo: nat, hi: int): (s: set<nat>)
    ensures forall r :: r in s <==> lo <= r < hi
    decreases hi - lo
  {
    if hi <= lo then {} else {lo} + RowRange(lo + 1, hi)
  }

  /** The table after marking every cell of `p` occupied. */
  ghost function OccupySpec(grid: OccupancyGrid, p: Position): (g: OccupancyGrid)
    ensures |g| == |grid|
    ensures forall c, r: nat :: 0 <= c < |grid| ==> (r in g[c] <==> r in grid[c] || InFootprint(p, r, c))
  {
    var g := seq(|grid|, c requires 0 <= c < |grid| =>
      if p.column <= c < p.column + p.width then grid[c] + RowRange(p.row, p.row + p.height)
      else grid[c]);
    assert forall c :: 0 <= c < |grid| ==>
      g[c] == if p.column <= c < p.column + p.width then grid[c] + RowRange(p.row, p.row + p.height) else grid[c];
    g
  }

  /**
   * Marks the footprint `p` occupied, column by column. A footprint of
   * positive width must lie inside the table (a missing column has no set
   * to add rows to).
   */
  method Occupy(grid: OccupancyGrid, p: Position) returns (g: OccupancyGrid)
    requires p.width >= 1 ==> p.column + p.width <= |grid|
    ensures g == OccupySpec(grid, p)
  {
    g := grid;
    var i := 0;
    while i < p.width
      invariant 0 <= i
      invariant p.width >= 0 ==> i <= p.width
      invariant p.width < 0 ==> i == 0
      invariant |g| == |grid|
      invariant forall c :: 0 <= c < |grid| ==>
                  g[c] == if p.column <= c < p.column + i then grid[c] + RowRange(p.row, p.row + p.height)
                          else grid[c]
    {
      var column := g[p.column + i];
      var j := 0;
      while j < p.height
        invariant 0 <= j
        invariant p.height >= 0 ==> j <= p.height
        invariant p.height < 0 ==> j == 0
        invariant column == grid[p.column + i] + RowRange(p.row, p.row + j)
      {
        column := column + {p.row + j};
        j := j + 1;
      }
      if p.height < 0 {
        assert RowRange(p.row, p.row + p.height) == {} == RowRange(p.row, p.row);
      }
      g := g[p.column + i := column];
      i := i + 1;
    }
    var spec := OccupySpec(grid, p);
    forall c | 0 <= c < |grid| ensures g[c] == spec[c] {
      assert forall r :: r in g[c] <==> r in spec[c];
    }
  }

  /** Scans the rectangle row by row and stops at the first occupied cell. */
  method AreCellsOccupied(grid: OccupancyGrid, beginRow: nat, endRow: int, beginColumn: nat, endColumn: int)
    returns (occupied: bool)
    ensures occupied <==> AnyOccupied(grid, beginRow, endRow, beginColumn, endColumn)
  {
    var i: nat := beginRow;
    while i <= endRow
      invariant beginRow <= i
      invariant forall r: nat, c: nat :: beginRow <= r < i && beginColumn <= c <= endColumn ==> !IsOccupied(grid, r, c)
    {
      var j: nat := beginColumn;
      while j <= endColumn
        invariant beginColumn <= j
        invariant forall c: nat :: beginColumn <= c < j ==> !IsOccupied(grid, i, c)
      {
        if IsOccupied(grid, i, j) {
          return true;
        }
        j := j + 1;
      }
      i := i + 1;
    }
    return false;
  }

  /** An unblocked footprint of positive size ends at or before the last column. */
  lemma FreeFootprintInRange(grid: OccupancyGrid, row: nat, column: nat, width: int, height: int)
    requires width >= 1 && height >= 1
    requires !Blocked(grid, row, column, width, height)
    ensures column + width <= |grid|
  {
    if column + width > |grid| {
      assert IsOccupied(grid, row, column + width - 1);
    }
  }

  /** Every occupied row of the table lies below `b`. */
  ghost predicate RowsBelow(grid: OccupancyGrid, b: nat) {
    forall c, r :: 0 <= c < |grid| && r in grid[c] ==> r < b
  }

  lemma {:induction false} SetBound(s: set<nat>) returns (b: nat)
    ensures forall r :: r in s ==> r < b
    decreases s
  {
    if s == {} {
      b := 0;
    } else {
      var x :| x in s;
      var b' := SetBound(s - {x});
      b := if b' > x then b' else x + 1;
      forall r | r in s ensures r < b {
        if r != x {
          assert r in s - {x};
        }
      }
    }
  }

  lemma {:induction false} RowBound(grid: OccupancyGrid) returns (b: nat)
    ensures RowsBelow(grid, b)
  {
    if grid == [] {
      b := 0;
    } else {
      var rest := RowBound(grid[1..]);
      var first := SetBound(grid[0]);
      b := if rest > first then rest else first;
      forall c, r | 0 <= c < |grid| && r in grid[c] ensures r < b {
        if c > 0 {
          assert grid[c] == grid[1..][c - 1];
        }
      }
    }
  }

  // ---------------------------------------------------------------------------
  // Placement scan
  // ---------------------------------------------------------------------------

  predicate LexLe(r1: int, c1: int, r2: int, c2: int) {
    r1 < r2 || (r1 == r2 && c1 <= c2)
  }

  predicate LexLt(r1: int, c1: int, r2: int, c2: int) {
    r1 < r2 || (r1 == r2 && c1 < c2)
  }

  /**
   * `p` is the first footprint of size width x height, in left-to-right,
   * top-to-bottom order starting at (desiredRow, desiredColumn), that no
   * occupied cell blocks.
   */
  ghost predicate FirstFree(grid: OccupancyGrid, width: int, height: int, desiredRow: int, desiredColumn: int, p: Position) {
    && p.width == width && p.height == height
    && LexLe(desiredRow, desiredColumn, p.row, p.column)
    && !Blocked(grid, p.row, p.column, width, height)
    && forall r: nat, c: nat :: LexLe(desiredRow, desiredColumn, r, c) && LexLt(r, c, p.row, p.column) ==>
         Blocked(grid, r, c, width, height)
  }

  /** The scan has a single answer. */
  lemma FirstFreeUnique(grid: OccupancyGrid, width: int, height: int, desiredRow: int, desiredColumn: int, p: Position, q: Position)
    requires FirstFree(grid, width, height, desiredRow, desiredColumn, p)
    requires FirstFree(grid, width, height, desiredRow, desiredColumn, q)
    ensures p == q
  {
  }

  /** Below every occupied row, a footprint that fits the columns is free. */
  lemma FreeBelowRows(grid: OccupancyGrid, b: nat, row: nat, column: nat, width: int, height: int)
    requires RowsBelow(grid, b) && b <= row
    requires column + width <= |grid|
    ensures !Blocked(grid, row, column, width, height)
  {
  }

  /**
   * Finds the first free footprint for `widget` scanning from (desiredRow,
   * desiredColumn): move one column right while the footprint still fits,
   * otherwise go to column 0 of the next row. A widget wider than the grid
   * would be scanned forever, since every such footprint touches a column
   * that is not in the table.
   */
  method DeterminePosition(grid: OccupancyGrid, widget: Widget, desiredRow: nat, desiredColumn: nat)
    returns (p: Position)
    requires widget.width <= |grid|
    ensures FirstFree(grid, widget.width, widget.height, desiredRow, desiredColumn, p)
  {
    ghost var bound := RowBound(grid);
    ghost var top: nat := if desiredRow < bound then bound else desiredRow;
    var effectiveRow: nat := desiredRow;
    var effectiveColumn: nat := desiredColumn;
    var occupied := AreCellsOccupied(grid, effectiveRow, effectiveRow + widget.height - 1,
                                     effectiveColumn, effectiveColumn + widget.width - 1);
    while occupied
      invariant LexLe(desiredRow, desiredColumn, effectiveRow, effectiveColumn)
      invariant effectiveRow <= top + 1
      invariant effectiveRow == top + 1 ==> effectiveColumn == 0
      invariant occupied <==> Blocked(grid, effectiveRow, effectiveColumn, widget.width, widget.height)
      invariant forall r: nat, c: nat :: LexLe(desiredRow, desiredColumn, r, c) && LexLt(r, c, effectiveRow, effectiveColumn) ==>
                  Blocked(grid, r, c, widget.width, widget.height)
      decreases top + 1 - effectiveRow, |grid| - effectiveColumn
    {
      if effectiveRow == top + 1 {
        FreeBelowRows(grid, bound, effectiveRow, 0, widget.width, widget.height);
        assert false;
      }
      if effectiveColumn + widget.width < |grid| {
        effectiveColumn := effectiveColumn + 1;
      } else {
        forall c: nat | effectiveColumn < c
          ensures Blocked(grid, effectiveRow, c, widget.width, widget.height)
        {
          assert IsOccupied(grid, effectiveRow, c + widget.width - 1);
        }
        effectiveRow := effectiveRow + 1;
        effectiveColumn := 0;
      }
      occupied := AreCellsOccupied(grid, effectiveRow, effectiveRow + widget.height - 1,
                                   effectiveColumn, effectiveColumn + widget.width - 1);
    }
    p := Position(effectiveRow, effectiveColumn, widget.width, widget.height);
  }

  /** What the placement scan yields as written: a position, or the exception it throws. */
  datatype Placement = Found(position: Position) | ReferenceError(name: string)

  /**
   * The placement scan exactly as written, whose wrap test reads a variable
   * `widgetWidth` that is declared nowhere: the first time the desired
   * footprint is blocked, evaluating the test throws.
   */
  method DeterminePositionAsWritten(grid: OccupancyGrid, widget: Widget, desiredRow: nat, desiredColumn: nat)
    returns (outcome: Placement)
    ensures outcome.ReferenceError? <==> Blocked(grid, desiredRow, desiredColumn, widget.width, widget.height)
    ensures outcome.Found? ==> outcome.position == Position(desiredRow, desiredColumn, widget.width, widget.height)
  {
    var occupied := AreCellsOccupied(grid, desiredRow, desiredRow + widget.height - 1,
                                     desiredColumn, desiredColumn + widget.width - 1);
    if occupied {
      return ReferenceError("widgetWidth");
    }
    return Found(Position(desiredRow, desiredColumn, widget.width, widget.height));
  }

  // ---------------------------------------------------------------------------
  // Height of the grid
  // ---------------------------------------------------------------------------

  /** Largest row in a column, 0 for an empty column (`column.max() || 0`). */
  method ColumnTop(column: set<nat>) returns (top: nat)
    ensures forall r :: r in column ==> r <= top
    ensures column == {} ==> top == 0
    ensures column != {} ==> top in column
  {
    top := 0;
    var rest := column;
    var seen := false;
    while rest != {}
      invariant rest <= column
      invariant forall r :: r in column - rest ==> r <= top
      invariant seen <==> column - rest != {}
      invariant seen ==> top in column
      invariant !seen ==> top == 0
      decreases rest
    {
      var r :| r in rest;
      assert column - (rest - {r}) == (column - rest) + {r};
      if !seen || r > top {
        top := r;
      }
      seen := true;
      rest := rest - {r};
    }
    assert column - rest == column;
  }

  /** One more than the largest occupied row over all columns, an empty column counting as 0. */
  method TotalRows(grid: OccupancyGrid) returns (total: nat)
    requires |grid| >= 1
    ensures total >= 1
    ensures forall c, r :: 0 <= c < |grid| && r in grid[c] ==> r < total
    ensures total == 1 || exists c :: 0 <= c < |grid| && total - 1 in grid[c]
  {
    var top := ColumnTop(grid[0]);
    var c := 1;
    while c < |grid|
      invariant 1 <= c <= |grid|
      invariant forall c', r :: 0 <= c' < c && r in grid[c'] ==> r <= top
      invariant top == 0 || exists c' :: 0 <= c' < c && top in grid[c']
    {
      var t := ColumnTop(grid[c]);
      if t > top {
        top := t;
      }
      c := c + 1;
    }
    total := top + 1;
  }
}
