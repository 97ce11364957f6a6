# Dashboard grid layout, route builders and System menu title

A Dafny model of three pieces of the web interface's JavaScript.

- **Dashboard widget grid** (`Grid.dfy`, `GridLayout.dfy`, `GridScenarios.dfy`).
  - **Column count.** The number of columns comes from the viewport width.
  - **Split.** Widgets are split into *arranged* widgets and *disarranged* widgets. Arranged widgets have a non-zero `row` and are sorted by `(row, col)`. Disarranged widgets have `row == 0` and keep input order.
  - **Occupancy table.** A per-column table of occupied rows. It is a value: the component keeps it in persistent collections and rebinds it after each update.
  - **Placement scan.** Each widget gets the first free footprint, scanning left to right and then top to bottom.
  - **Layout pass.** It places the arranged widgets, then the disarranged ones, from a running `(row, column)` cursor. It then measures the number of rows and the container height.
  - **Specification.** The scan and the pass are loops, so they are methods. Each is proved against a ghost specification: `FirstFree` for one widget, and `Placed`/`Cursor` for the whole pass. Soundness (no overlap, no overflow past the last column, exact height) and uniqueness are proved about that specification.
- **Route builders** (`Routes.dfy`). The path constants and the functions that build URL paths from ids.
  - Each builder states the fixed prefix its path starts with.
  - For ids without a `/`, each builder states the `/`-separated segments after that prefix.
  - Lemmas relate the builders to each other: export/import extend the local extractor path, the local extractor path is injective, and the global and local extractor paths never coincide.
  - Further lemmas show what ids containing `/` break, and that `stream_search` ignores its `type` argument.
- **Navigation** (`Navigation.dfy`).
  - `_isActive` is `indexOf(prefix) === 0`. `IndexOf` is modelled as a left-to-right search and proved to return the first occurrence, or -1 when there is none (`IndexOfIsFirst`). `IndexOf(...) == 0` is then proved to be exactly the prefix test (`IsActiveIsPrefix`).
  - `_systemTitle` is a method with the source's straight-line chain of checks. It is proved equal to "System" followed by the suffix of the last matching rule of a table that lists the checks in source order.
  - Lemmas state what that means:
    - the bare title exactly outside `/system`;
    - Overview for `/system` pages of no section;
    - the section's own title for any path under a section, since no two section prefixes can match one path;
    - `/system?page=` is subsumed by `/system`.

Two facts about the layout pass that its comments do not spell out:
- With no arranged widgets, auto widgets are requested from row 1, because the cursor row is incremented unconditionally before the second loop (`Grid.jsx:78`). Two 1x1 auto widgets on a one-column grid are placed at (1, 0) and then, with the wrap test corrected to use the widget's width, at (2, 0) (`GridScenarios.AutoWidgetsStartAtRowOne`). As written, the scan for the second widget throws instead; see Findings.
- The arranged widgets are sorted with the source comparator, which compares `widget.col`. The model takes the widget list to be an `Immutable.List`, whose sort is stable, so arranged widgets with equal `(row, col)` keep their input order (`Grid.SortArrangedIsStable`). The component's prop types also admit a plain array (`Grid.jsx:9`), but its render only works on an `Immutable.List`, because it calls `.count()` and `.get()` on the lists (`Grid.jsx:60-61`).

## Model

| member | source | states |
|---|---|---|
| Grid.FloorDiv | javascript/src/components/dashboard/Grid.jsx:103 | `Math.floor` of a quotient: the largest q with q*b <= a (for b > 0), for either sign |
| Grid.FittingColumns | javascript/src/components/dashboard/Grid.jsx:101-104 | the column count is at least 1; it is floor(width / (columnSize + margin)) when that is at least 1, and 1 otherwise |
| Grid.SortWidgets | javascript/src/components/dashboard/Grid.jsx:110-120 | unpositioned widgets compare after everything; positioned ones compare by row, then by col; the sign says which goes first |
| Grid.Positioned | javascript/src/components/dashboard/Grid.jsx:28 | keeps exactly the widgets whose row is not 0 |
| Grid.Unpositioned | javascript/src/components/dashboard/Grid.jsx:29 | keeps exactly the widgets whose row is 0 |
| Grid.SplitKeepsOrder | javascript/src/components/dashboard/Grid.jsx:28-29 | both filters distribute over concatenation, so each list keeps the input order of its widgets |
| Grid.SplitIsPartition | javascript/src/components/dashboard/Grid.jsx:28-29 | the two lists together are a permutation of the input widgets |
| Grid.Insert | javascript/src/components/dashboard/Grid.jsx:28 | inserting into a (row, col)-sorted list keeps it sorted and adds exactly the one widget |
| Grid.SortArranged | javascript/src/components/dashboard/Grid.jsx:110-120 | the sorted arranged list is ordered by (row, col) and is a permutation of its input |
| Grid.InsertKeepsTies | javascript/src/components/dashboard/Grid.jsx:110-120 | inserting a widget puts it in front of every widget with the same (row, col) |
| Grid.SortArrangedIsStable | javascript/src/components/dashboard/Grid.jsx:28 | the sort is stable: for every (row, col), the widgets with that key appear in input order |
| Grid.PositionedKeepsKeys | javascript/src/components/dashboard/Grid.jsx:28 | the row filter keeps every key group with a non-zero row whole and in order |
| Grid.NewGridState | javascript/src/components/dashboard/Grid.jsx:21-36 | the constructor's state: at least one column; arranged widgets positioned and sorted; disarranged widgets unpositioned and in input order; together a permutation of the widgets; the column count is `FittingColumns` of the viewport width; arranged widgets with equal (row, col) keep their input order |
| Grid.RowRange | javascript/src/components/dashboard/Grid.jsx:130-132 | the set of rows a footprint's height covers in one column |
| Grid.OccupySpec | javascript/src/components/dashboard/Grid.jsx:123-138 | after occupying a footprint, a cell is occupied iff it was before or lies in the footprint; the column count is unchanged |
| Grid.Occupy | javascript/src/components/dashboard/Grid.jsx:123-138 | the nested loops mark exactly the footprint occupied (equal to OccupySpec) |
| Grid.AreCellsOccupied | javascript/src/components/dashboard/Grid.jsx:160-174 | true iff some cell of the inclusive rectangle is occupied, a missing column counting as occupied; an empty rectangle is free |
| Grid.IsOccupied | javascript/src/components/dashboard/Grid.jsx:172-174 | `_isOccupied`: a cell is occupied when its column has no entry in the table or its row is in the column's set (no contract of its own; used by AreCellsOccupied and FreeFootprintInRange) |
| Grid.FreeFootprintInRange | javascript/src/components/dashboard/Grid.jsx:172-174 | a free footprint never reaches past the last column, because missing columns are occupied |
| Grid.FirstFreeUnique | javascript/src/components/dashboard/Grid.jsx:140-158 | the first free footprint in scan order is unique |
| Grid.FreeBelowRows | javascript/src/components/dashboard/Grid.jsx:141-150 | below every occupied row, any footprint that fits the columns is free (so the scan stops) |
| Grid.DeterminePosition | javascript/src/components/dashboard/Grid.jsx:140-158 | with `widget.width` in the wrap test: the result is the first free footprint at or after the desired cell in scan order, with the widget's width and height |
| Grid.DeterminePositionAsWritten | javascript/src/components/dashboard/Grid.jsx:143-149 | as written: a ReferenceError exactly when the desired footprint is blocked, and the desired cell otherwise |
| Grid.ColumnTop | javascript/src/components/dashboard/Grid.jsx:93 | the largest row of a column, or 0 for an empty column |
| Grid.TotalRows | javascript/src/components/dashboard/Grid.jsx:93 | one more than the largest occupied row over all columns, at least 1 |
| GridLayout.Occupancy | javascript/src/components/dashboard/Grid.jsx:59-91 | the table built by occupying the placed footprints one after another keeps the column count |
| GridLayout.OccupancyCovers | javascript/src/components/dashboard/Grid.jsx:59-91 | a cell of the table is occupied iff some placed footprint covers it |
| GridLayout.GroupRow | javascript/src/components/dashboard/Grid.jsx:63-67 | the cursor row for arranged widget k: how often the row value changed before it, at most k |
| GridLayout.GroupRowMonotone | javascript/src/components/dashboard/Grid.jsx:63-67 | the cursor row never moves up during the first loop |
| GridLayout.SortedRowsAscend | javascript/src/components/dashboard/Grid.jsx:28 | an arranged list sorted by (row, col) has ascending row values |
| GridLayout.SameGroupIffSameRow | javascript/src/components/dashboard/Grid.jsx:63-67 | in a row-sorted arranged list, two widgets are requested on the same grid row iff they share a row value |
| GridLayout.AutoStartRow | javascript/src/components/dashboard/Grid.jsx:77-79 | the row of the first auto request is at least 1 and below the row of every arranged group |
| GridLayout.Cursor | javascript/src/components/dashboard/Grid.jsx:54-90 | the (row, column) each widget is requested at: for arranged widgets, the group row and column 0 on a new row value, else the end of the previous footprint; then the auto start row and column 0; then the previous footprint's row and end (no contract of its own; Placed and the loop invariants use it) |
| GridLayout.PlacedIsSound | javascript/src/components/dashboard/Grid.jsx:60-91 | every placed footprint has its widget's size, stays inside the grid and shares no cell with another |
| GridLayout.PlacedIsUnique | javascript/src/components/dashboard/Grid.jsx:60-91 | the pass is deterministic: its specification admits one sequence of footprints |
| GridLayout.ProgressStep | javascript/src/components/dashboard/Grid.jsx:70-72 | placing the next widget at its first free footprint from the cursor and occupying it extends the pass state |
| GridLayout.LayoutIsSound | javascript/src/components/dashboard/Grid.jsx:60-95 | no overlap, no overflow, and totalRows is exactly enough for the lowest footprint (or 1) |
| GridLayout.PlaceArranged | javascript/src/components/dashboard/Grid.jsx:54-75 | the first loop places every arranged widget by the specification, starting a new row whenever the row value changes; its final cursor row yields the start row of the second loop |
| GridLayout.PlaceDisarranged | javascript/src/components/dashboard/Grid.jsx:77-91 | the second loop places every disarranged widget by the specification, starting one row past the last arranged group's cursor row (not past the rows the arranged widgets cover); it returns one cell per widget, each paired with its widget |
| GridLayout.Render | javascript/src/components/dashboard/Grid.jsx:46-99 | every widget gets one cell, arranged ones first, each at its first free footprint from the cursor; no overlap; no overflow; the rows and the height (totalRows * (rowSize + margin)) are correct |
| GridScenarios.EmptyGridKeepsRequest | javascript/src/components/dashboard/Grid.jsx:140-150 | on an empty grid the scan keeps the requested cell |
| GridScenarios.SecondAutoWidgetWraps | javascript/src/components/dashboard/Grid.jsx:143-149 | on a one-column grid with (1, 0) taken, the footprint at (1, 1) is blocked and the first free cell is (2, 0) |
| GridScenarios.AutoWidgetsStartAtRowOne | javascript/src/components/dashboard/Grid.jsx:77-91 | two 1x1 auto widgets on a one-column grid are placed at (1, 0) and, with the corrected wrap test, at (2, 0); as written the second request throws |
| GridScenarios.AutoWidgetBesideTallArranged | javascript/src/components/dashboard/Grid.jsx:59-91 | on two columns, a 1x2 arranged widget takes (0, 0); a 1x1 auto widget is requested at (1, 0), which is blocked, and lands beside it at (1, 1) |
| GridScenarios.ArrangedRowsGroup | javascript/src/components/dashboard/Grid.jsx:60-75 | arranged widgets with rows 1, 1, 2 on two columns go to (0, 0), (0, 1) and (1, 0) |
| GridScenarios.WideWidgetWraps | javascript/src/components/dashboard/Grid.jsx:140-150 | with the corrected wrap test, a two-wide widget on two columns with (0, 0) taken wraps to (1, 0); as written the blocked request throws |
| Routes.Split | javascript/src/routing/AppRouter.jsx:39-59 | splitting a path at `/` always yields at least one segment |
| Routes.SplitNoSlash | javascript/src/routing/AppRouter.jsx:39-59 | a string without `/` is a single segment |
| Routes.SplitSegmentsNoSlash | javascript/src/routing/AppRouter.jsx:39-59 | no segment contains `/` |
| Routes.SplitSnoc | javascript/src/routing/AppRouter.jsx:39-59 | appending `/` and a slash-free segment appends exactly that segment |
| Routes.MessageShow | javascript/src/routing/Routes.jsx:25 | starts with `/messages/`, then the segments index and message id |
| Routes.StreamEdit | javascript/src/routing/Routes.jsx:26 | starts with STREAMS + `/`, then the segments stream id and `edit` |
| Routes.StreamOutputs | javascript/src/routing/Routes.jsx:27 | starts with STREAMS + `/`, then the segments stream id and `outputs` |
| Routes.StreamAlerts | javascript/src/routing/Routes.jsx:28 | starts with STREAMS + `/`, then the segments stream id and `alerts` |
| Routes.StreamSearch | javascript/src/routing/Routes.jsx:29 | the stream's search path with the query string query, type and range, where the type parameter carries the range value |
| Routes.StreamSearchIgnoresType | javascript/src/routing/Routes.jsx:29 | the result does not depend on the type argument |
| Routes.StartpageSet | javascript/src/routing/Routes.jsx:30 | starts with `/startpage/set/`, then the segments type and id |
| Routes.DashboardShow | javascript/src/routing/Routes.jsx:32 | DASHBOARDS + `/` followed by exactly the dashboard id |
| Routes.UsersEdit | javascript/src/routing/Routes.jsx:21-22 | the users list path + `/edit/` followed by exactly the user name |
| Routes.Node | javascript/src/routing/Routes.jsx:34 | the nodes path + `/` followed by exactly the node id |
| Routes.GlobalInputExtractors | javascript/src/routing/Routes.jsx:36 | starts with the inputs path + `/`, then the segments input id and `extractors` |
| Routes.LocalInputExtractors | javascript/src/routing/Routes.jsx:37 | starts with the inputs path + `/`, then the segments node id, input id and `extractors` |
| Routes.ExportExtractors | javascript/src/routing/Routes.jsx:38 | the local extractor path followed by `/export` |
| Routes.ImportExtractors | javascript/src/routing/Routes.jsx:39 | the local extractor path followed by `/import` |
| Routes.EditInputExtractor | javascript/src/routing/Routes.jsx:41 | extends the local extractor path with the segments extractor id and `edit` |
| Routes.LocalInputExtractorsInjective | javascript/src/routing/Routes.jsx:37 | for slash-free ids, equal local extractor paths have equal node and input ids |
| Routes.GlobalAndLocalExtractorsDiffer | javascript/src/routing/Routes.jsx:36-37 | for slash-free ids, a global extractor path is never a local one |
| Routes.SlashMakesExtractorPathsAmbiguous | javascript/src/routing/Routes.jsx:37 | with a `/` inside an id, two different id pairs build the same path |
| Navigation.StartsAtIsOccurs | javascript/src/components/navigation/Navigation.jsx:24 | comparing character by character is comparing the slice |
| Navigation.IndexOfFromIsFirst | javascript/src/components/navigation/Navigation.jsx:24 | the search from an index finds the first occurrence at or after it, or -1 when there is none |
| Navigation.IndexOf | javascript/src/components/navigation/Navigation.jsx:24 | `String.prototype.indexOf` as a left-to-right search from index 0 (its contract is IndexOfIsFirst) |
| Navigation.IndexOfIsFirst | javascript/src/components/navigation/Navigation.jsx:24 | `indexOf` is -1 iff the substring does not occur, and otherwise the first index where it occurs |
| Navigation.IsActive | javascript/src/components/navigation/Navigation.jsx:23-25 | `_isActive`: `indexOf(prefix) == 0` on the request path (its contract is IsActiveIsPrefix) |
| Navigation.IsActiveIsPrefix | javascript/src/components/navigation/Navigation.jsx:23-25 | `_isActive` holds iff the request path starts with the prefix |
| Navigation.LastMatchIsLast | javascript/src/components/navigation/Navigation.jsx:27-62 | the rule table's result is "" when no rule matches, and otherwise the suffix of the last matching rule |
| Navigation.LastMatchEmpty | javascript/src/components/navigation/Navigation.jsx:27-62 | with non-empty suffixes, the result is "" iff no rule matches |
| Navigation.TitleSuffixIsLastMatch | javascript/src/components/navigation/Navigation.jsx:30-62 | the checks made in source order, each overriding the earlier ones, give the last matching rule's suffix |
| Navigation.SystemTitle | javascript/src/components/navigation/Navigation.jsx:27-65 | the title starts with "System" and is "System" + the suffix of the last matching check |
| Navigation.TitlePrefixesUnderSystem | javascript/src/components/navigation/Navigation.jsx:30-60 | every checked prefix starts with `/system` |
| Navigation.PlainTitleOutsideSystem | javascript/src/components/navigation/Navigation.jsx:27-64 | the title is exactly "System" iff the path does not start with `/system` |
| Navigation.PageCheckIsSubsumed | javascript/src/components/navigation/Navigation.jsx:30 | every path matching `/system?page=` also matches `/system` |
| Navigation.OverviewTitle | javascript/src/components/navigation/Navigation.jsx:30-32 | a path under `/system` and under no section gets " / Overview" |
| Navigation.SectionTitle | javascript/src/components/navigation/Navigation.jsx:33-62 | a path under any section prefix gets that section's suffix |
| Navigation.NodesTitle | javascript/src/components/navigation/Navigation.jsx:33-35 | paths under `/system/nodes` and under `/system/radios` both get " / Nodes" |
| Navigation.ContentPacksExportTitle | javascript/src/components/navigation/Navigation.jsx:30-56 | `/system/contentpacks/export` gets " / Content Packs", although `/system` matches too |

## Left out

- The browser shell of the grid is not modelled: the resize listener, the `window.innerWidth` read, `setState` and the building of `GridCell` elements. The viewport width is a parameter of `NewGridState`. The widget lists are taken once, at construction, as in the component.
- The rendered output is not modelled: the grid's JSX, the navigation bar's menus, and the permission checks of `PermissionsMixin`, which is not part of this model.
- The data stores, the chart adapter and the router wiring are outside this model: they are I/O and rendering.
- Grid.Render: requires every widget to have width and height of at least 1 and no more width than the grid has columns. With the corrected wrap test, a wider widget never finds a free footprint, so the scan never ends; as written, its first footprint is blocked by a missing column and the scan throws a ReferenceError. With a height below 1 the scanned rectangle is empty, so a footprint past the last column passes the scan. The component then grows its column list with undefined entries and fails when it measures the rows. A width below 1 places the widget at the cursor without occupying anything; this case is not modelled.
- Grid.FittingColumns: requires `columnSize + margin != 0`. The component divides by that sum, and JavaScript's `Infinity`/`NaN` results are not modelled.
- Grid.Occupy: requires a footprint of positive width to lie inside the table. A column past the end has no set to add rows to, and the component would fail there. Placed footprints always satisfy this.
- Array input is not modelled: the prop types admit a plain array of widgets, but render then fails with a TypeError at `this.state.arrangedWidgets.count()`, since arrays have no `count`. The model treats every widget list as an `Immutable.List`, so it has no error path for this case, and the array sort's lack of a stability guarantee does not arise.
- Grid.DeterminePosition: uses the length of the occupancy table as `fittingColumns`. The component builds the table with exactly that many columns, so the two agree.
- Numbers are integers: the pixel sizes (`rowSize`, `columnSize`, `margin`), the viewport width and the widget coordinates and sizes are `int`. JavaScript numbers can be fractional, so a fractional quotient before the floor at `Grid.jsx:103`, a fractional container height at `Grid.jsx:95` and fractional widget coordinates are not modelled.
- Widget ids, route ids and query values are plain strings. URL encoding is not modelled: the builders concatenate ids as they are.
- Routes segment facts: each builder states its segments only for ids without a `/`. With a `/` inside an id the segments shift; `Routes.SlashMakesExtractorPathsAmbiguous` exhibits this.
- The `Routes` path constants are modelled as constants. Only the ones that builders use are referred to by contracts.

## Findings

| source | as written | input that shows it | evidently intended | confidence | as-written member | corrected member |
|---|---|---|---|---|---|---|
| javascript/src/components/dashboard/Grid.jsx:144 | the wrap test reads `widgetWidth`, declared nowhere, so the scan throws a ReferenceError the first time the desired footprint is blocked | the second of two 1x1 auto widgets on a one-column grid, requested at (1, 1) after the first took (1, 0): (1, 1) is blocked (`GridScenarios.SecondAutoWidgetWraps`) | `effectiveColumn + widget.width < fittingColumns`; with it the scan finds (2, 0) | high, not executed | Grid.DeterminePositionAsWritten | Grid.DeterminePosition |
