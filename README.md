# Column-width layout of `useTableState`, in Dafny

This project models the column-width layout engine of React Stately's table state hook,
`useColumnResizeWidthState` in `packages/@react-stately/table/src/useTableState.ts`, and the
sort-direction toggle of the same hook. The model covers these parts:

- **Width parsing** (`width_parser.dfy`, module `WidthParser`).
  - `isStatic` and `parseWidth` turn a number or a `"<digits>%"` string into pixels, taken
    against the fixed 800-pixel table width.
  - `parseFractionalUnit` reads the flexible weight of `"flex-N"`.
  - `getMinWidth` and `getMaxWidth` read a column's bounds. The minimum defaults to 75 and the
    maximum to unbounded.
- **Flexible solver** (`flex_solver.dfy`, module `FlexSolver`).
  - `mapColumns` computes each flexible column's proportional target and its `delta` outside
    its bounds.
  - `getDynamicColumnWidths` sorts the columns by descending delta, with a stable sort.
  - `solveWidths` then clamps each column in turn against the shrinking space and weight.
  - Finally the columns are put back in their original order.
- **Partitioning** (`column_layout.dfy`, module `ColumnLayout`). `buildColumnWidths` does this:
  - a resized column keeps its committed width;
  - a static column is reserved at its parsed width;
  - every other column goes to the flexible pool, which shares what is left.
- **Resizing** (`column_resize.dfy`, module `ColumnResize`).
  - `calculateColumnWidths` clamps the dragged column's new width and marks the column as
    resized.
  - It then lays out the columns after it again, in the space the columns up to it leave.
  - The hook's two refs, the committed widths and the resized set, are the fields of the
    class `ColumnResizeState`.
- **Sorting** (`sort_direction.dfy`, module `SortDirections`). `sort(columnKey)` asks for
  ascending order on a new column and flips the direction on the current one.

The layout code can throw. The model gives every operation a `Result`:

- `UnsupportedWidth` stands for the `Error` that `parseWidth` throws.
- `TypeError` stands for the runtime errors the code runs into:
  - in `parseFractionalUnit`, calling `match` on a number, or indexing the `null` that `match`
    returns for a string with no `flex-<digits>` prefix;
  - in `isStatic`, calling `match` on the `undefined` width of a resized column with no
    committed width.

Errors are raised in the order the source evaluates them.

The loops of the source are methods proved against specification functions:

- `FlexSolver.SolveWidths` implements `solveWidths`.
- `ColumnLayout.BuildColumnWidths` implements `buildColumnWidths`. Its two loops are the methods
  `ReserveStaticColumns` and `SetSolvedWidths`.
- `ColumnResize.ColumnResizeState.CalculateColumnWidths` implements `calculateColumnWidths`.

The array methods the source calls (`reduce`, `map`, `sort`, `findIndex`, `slice`) are
functions on sequences.

Behaviour worth noting:

- **Clamp order.** Both clamps compute `max(min, min(x, max))`, so the minimum wins when
  the bounds cross.
- **No iteration until stable.** The solver is a single pass in descending-delta order. Each
  column is clamped against the space and weight left by the columns before it, and nothing
  is re-examined.
- **Resize takes a width.** `onColumnResize(column, deltaX)` passes `deltaX` on as the new
  width of the column. It is not added to the old width.
- **Unknown column.** Resizing a column whose key is not in the list makes every column
  "affected", laid out in the whole 800 pixels.
- **Weights.** A malformed fractional spec throws. The weight is
  always read from `defaultWidth`, even when `width` is a non-static string.
- **Default width.** A column with neither `width` nor `defaultWidth` is static at 75 pixels.

## Model

| member | source | states |
|---|---|---|
| WidthParser.IsStatic | packages/@react-stately/table/src/useTableState.ts:191-193 | `isStatic`: a number, or a string that `^(\d+)%$` matches; `ParseWidth` succeeds exactly when it holds |
| WidthParser.IsPercentage | packages/@react-stately/table/src/useTableState.ts:197-200 | the strings `^(\d+)%$` matches: one or more decimal digits and then `%`; `ParsePercentage` and `PercentageRoundTrip` state what they parse to |
| WidthParser.DigitsValue | packages/@react-stately/table/src/useTableState.ts:201 | `parseInt(digits, 10)` of a string of decimal digits; `DecimalStringRoundTrip` shows that it inverts the decimal notation |
| WidthParser.ParseWidth | packages/@react-stately/table/src/useTableState.ts:191-204 | succeeds exactly when `isStatic` holds; a number is returned unchanged; a parsed percentage is non-negative; every failure is the `parseWidth` error |
| WidthParser.ParsePercentage | packages/@react-stately/table/src/useTableState.ts:195-202 | `"<digits>%"` is static and parses to `800 * digits / 100` |
| WidthParser.PercentageRoundTrip | packages/@react-stately/table/src/useTableState.ts:195-202 | writing `p` as a percentage and parsing it back yields `8 * p` pixels |
| WidthParser.ParseWidthExamples | packages/@react-stately/table/src/useTableState.ts:191-204 | `"50%"` is 400 pixels; `"abc"` and `"%"` throw; a number passes through |
| WidthParser.DecimalStringRoundTrip | packages/@react-stately/table/src/useTableState.ts:201 | `parseInt` of the decimal notation of `n` is `n` |
| WidthParser.LeadingDigitsOfDigits | packages/@react-stately/table/src/useTableState.ts:268 | the digit run `\d+` consumes after `flex-` is exactly the written number when a non-digit follows |
| WidthParser.IsFlexUnit | packages/@react-stately/table/src/useTableState.ts:268 | the strings in which `(?<=^flex-)(\d+)` finds a match: `flex-` and at least one digit; `ParseFractionalUnit` succeeds on a non-empty string exactly when it holds (the empty string is falsy and weighs 1) |
| WidthParser.ParseFractionalUnit | packages/@react-stately/table/src/useTableState.ts:264-269 | succeeds exactly for a falsy spec or a `flex-<digit>…` string; a falsy spec weighs 1; anything else is a runtime `TypeError` |
| WidthParser.FlexUnitRoundTrip | packages/@react-stately/table/src/useTableState.ts:264-269 | `"flex-N"` followed by a non-digit weighs exactly `N` |
| WidthParser.ParseFractionalUnitExamples | packages/@react-stately/table/src/useTableState.ts:264-269 | absent and empty specs weigh 1, `"flex-3"` weighs 3, `"flex-"`, `"50%"` and a number throw |
| WidthParser.MinWidth | packages/@react-stately/table/src/useTableState.ts:271-275 | an absent minimum is 75; a present one succeeds exactly when static and a number is kept |
| WidthParser.MaxWidth | packages/@react-stately/table/src/useTableState.ts:277-281 | an absent maximum is unbounded (`None`) and only an absent one is; a present one succeeds exactly when static |
| FlexSolver.Clamp | packages/@react-stately/table/src/useTableState.ts:252-255 | the result is at least the minimum, at most the maximum when min ≤ max, the input itself when it is within bounds, and the minimum when the bounds cross |
| FlexSolver.Delta | packages/@react-stately/table/src/useTableState.ts:229-233 | the delta is non-negative, zero exactly when the target is within bounds, and at least the overshoot on either side |
| FlexSolver.Weights | packages/@react-stately/table/src/useTableState.ts:217-220 | the weights are read in order, one per column, and the read fails exactly when some column's weight cannot be parsed |
| FlexSolver.MapEntries | packages/@react-stately/table/src/useTableState.ts:222-235 | one entry per column with its key, index, weight, bounds and delta against its target; fails exactly when some bound cannot be read |
| FlexSolver.TotalWeightOfWeights | packages/@react-stately/table/src/useTableState.ts:217-220 | `remainingFractions` is the sum of the entries' weights |
| FlexSolver.MapColumns | packages/@react-stately/table/src/useTableState.ts:216-238 | succeeds exactly when every weight and bound can be read; the entries describe the columns with targets against the total weight, and every weight is positive |
| FlexSolver.WeightsPositive | packages/@react-stately/table/src/useTableState.ts:217-224 | without `flex-0` columns every weight and the total of a non-empty pool are positive, so the target's division is defined |
| FlexSolver.InsertByDelta | packages/@react-stately/table/src/useTableState.ts:209 | places an entry after every entry whose delta is at least its own, one step of a stable sort by descending delta; `InsertByDeltaPermutes` and `InsertByDeltaOrdered` state what it does |
| FlexSolver.SortByDelta | packages/@react-stately/table/src/useTableState.ts:209 | the stable sort by descending delta; `SortByDeltaPermutes` and `SortByDeltaOrdered` prove it a permutation that is ordered, with ties in input order |
| FlexSolver.InsertByDeltaPermutes | packages/@react-stately/table/src/useTableState.ts:209 | inserting into the sorted list adds exactly that entry |
| FlexSolver.SortByDeltaPermutes | packages/@react-stately/table/src/useTableState.ts:209 | sorting by delta is a permutation |
| FlexSolver.ProcessingOrderCons | packages/@react-stately/table/src/useTableState.ts:209 | an entry that precedes every entry of an ordered list may be put in front of it |
| FlexSolver.ProcessingOrderTail | packages/@react-stately/table/src/useTableState.ts:209 | the tail of an ordered list is ordered and follows its head |
| FlexSolver.InsertByDeltaOrdered | packages/@react-stately/table/src/useTableState.ts:209 | inserting an entry with a later index keeps the list in processing order |
| FlexSolver.SortByDeltaOrdered | packages/@react-stately/table/src/useTableState.ts:209 | entries given in index order come out by non-increasing delta, equal deltas in index order (a stable sort) |
| FlexSolver.TotalWeightAppend | packages/@react-stately/table/src/useTableState.ts:241-244 | appending an entry adds its weight to the total |
| FlexSolver.TotalWeightInsert | packages/@react-stately/table/src/useTableState.ts:241-244 | inserting an entry adds its weight to the total |
| FlexSolver.TotalWeightSorted | packages/@react-stately/table/src/useTableState.ts:241-244 | sorting keeps the total weight, so `solveWidths` starts from the same `remainingFractions` |
| FlexSolver.Solve | packages/@react-stately/table/src/useTableState.ts:240-262 | the widths `solveWidths` assigns, in processing order; `SolveWidths` is the loop proved equal to it, and `SolveWithinBounds`, `SolveProportional` and `LastEntryTakesRemainder` state its properties |
| FlexSolver.SolveWithinBounds | packages/@react-stately/table/src/useTableState.ts:246-259 | every assigned width is at least the column's minimum, and at most its maximum whenever min ≤ max |
| FlexSolver.SolveWidths | packages/@react-stately/table/src/useTableState.ts:240-262 | the loop, with its running space and running weight, assigns the widths of the specification `Solve` |
| FlexSolver.ShareOfShrunkPool | packages/@react-stately/table/src/useTableState.ts:249-258 | after an unclamped column takes its share, another column's share of the rest by the rest of the weight is its share of the whole |
| FlexSolver.WholePool | packages/@react-stately/table/src/useTableState.ts:249-250 | the only column left takes the whole space left |
| FlexSolver.SolveProportional | packages/@react-stately/table/src/useTableState.ts:240-262 | when no target needs clamping, each width is `weight / totalWeight * space` and the widths sum to the space |
| FlexSolver.LastEntryTakesRemainder | packages/@react-stately/table/src/useTableState.ts:246-259 | the last processed column gets the clamped leftover, and the widths sum to the space whenever that leftover is within its bounds |
| FlexSolver.PositionOf | packages/@react-stately/table/src/useTableState.ts:211 | finds the first entry with a given index, or reports that there is none |
| FlexSolver.RestoreOrder | packages/@react-stately/table/src/useTableState.ts:211 | position `i` of the result holds the entry whose index is `i`, with its solved width |
| FlexSolver.SortedEntriesFound | packages/@react-stately/table/src/useTableState.ts:209-211 | every original entry is found again in the sorted list at the position of its index |
| FlexSolver.SortedWeightsPositive | packages/@react-stately/table/src/useTableState.ts:209 | sorting keeps every weight positive |
| FlexSolver.DynamicColumnWidths | packages/@react-stately/table/src/useTableState.ts:206-214 | succeeds exactly when `mapColumns` does; one sized column per input column, back in input order under the same key |
| FlexSolver.DynamicWidthsWithinBounds | packages/@react-stately/table/src/useTableState.ts:206-214 | every returned width is at least the column's minimum and at most its maximum whenever min ≤ max |
| FlexSolver.GetDynamicColumnWidths | packages/@react-stately/table/src/useTableState.ts:206-214 | the two sorts around the solver loop produce the widths of the specification |
| FlexSolver.ProcessingOrderOfColumns | packages/@react-stately/table/src/useTableState.ts:206-211 | the solver visits the pool by non-increasing delta, ties in display order |
| FlexSolver.UnclampedColumnsShareSpace | packages/@react-stately/table/src/useTableState.ts:206-262 | when every delta is zero, each column gets its proportional share and the widths sum to the space |
| FlexSolver.UnclampedEntriesShareSpace | packages/@react-stately/table/src/useTableState.ts:209-211 | the proportional shares survive the sort, the solver and the sort back |
| FlexSolver.SharesSum | packages/@react-stately/table/src/useTableState.ts:240-262 | proportional shares of a non-empty pool add up to the whole space |
| FlexSolver.PartialShares | packages/@react-stately/table/src/useTableState.ts:249-250 | the shares of some columns add up to their weight's share of the space |
| FlexSolver.SumRealsAppend | packages/@react-stately/table/src/useTableState.ts:257 | the running total of assigned widths grows by each new width |
| ColumnLayout.DeclaredWidth | packages/@react-stately/table/src/useTableState.ts:168 | `props.width ?? props.defaultWidth ?? 75`; `BuildWidthsReserved` shows that a column declaring neither is reserved at 75 |
| ColumnLayout.LookedUpWidth | packages/@react-stately/table/src/useTableState.ts:168 | the committed width of a resized column (absent when none is committed) and the declared width of any other; `Classify` states the outcome of each case |
| ColumnLayout.Classify | packages/@react-stately/table/src/useTableState.ts:167-175 | throws exactly for a resized column with no committed width; a resized column is reserved at its committed width; a static one at its parsed width; the rest are flexible |
| ColumnLayout.StaticPass | packages/@react-stately/table/src/useTableState.ts:165-176 | the pool holds only affected columns, and it is exactly the columns that are neither resized nor static, in order (`FlexibleColumns`) |
| ColumnLayout.StaticPassSucceeds | packages/@react-stately/table/src/useTableState.ts:165-176 | the first loop succeeds exactly when every resized column has a committed width, and fails with a `TypeError` otherwise |
| ColumnLayout.StaticPassPartition | packages/@react-stately/table/src/useTableState.ts:165-176 | the pool is the flexible columns in order, and the space left is the available space minus every reserved width |
| ColumnLayout.StaticPassReservedKeys | packages/@react-stately/table/src/useTableState.ts:169-172 | every non-flexible column is reserved, and only affected columns are |
| ColumnLayout.StaticPassReservedWidths | packages/@react-stately/table/src/useTableState.ts:166-176 | with distinct keys, a flexible column is not reserved and every other column is reserved at the width its classification gives |
| ColumnLayout.FlexibleColumnsSound | packages/@react-stately/table/src/useTableState.ts:173-175 | the pool only holds flexible affected columns |
| ColumnLayout.FlexibleColumnsUnique | packages/@react-stately/table/src/useTableState.ts:162 | with distinct column keys, the pool holds no key twice |
| ColumnLayout.FlexibleColumnsComplete | packages/@react-stately/table/src/useTableState.ts:173-175 | every flexible affected column is in the pool |
| ColumnLayout.PoolPosition | packages/@react-stately/table/src/useTableState.ts:173-175 | gives the position of a flexible column in the pool |
| ColumnLayout.StaticPassErrorPersists | packages/@react-stately/table/src/useTableState.ts:166-176 | once a column throws, the whole loop throws the same error |
| ColumnLayout.AssignAll | packages/@react-stately/table/src/useTableState.ts:182-185 | the map the second loop builds; `AssignAllKeys` and `AssignAllValues` state its keys and values, and `SetSolvedWidths` is the loop proved equal to it |
| ColumnLayout.AssignAllStep | packages/@react-stately/table/src/useTableState.ts:182-185 | each iteration of the second loop sets one more pool width |
| ColumnLayout.AssignAllKeys | packages/@react-stately/table/src/useTableState.ts:182-185 | the second loop adds exactly the keys of the pool to the reserved widths |
| ColumnLayout.AssignAllValues | packages/@react-stately/table/src/useTableState.ts:182-185 | with distinct pool keys, each pool column gets its solved width and every reserved width is kept |
| ColumnLayout.BuildWidths | packages/@react-stately/table/src/useTableState.ts:160-189 | the layout of the affected columns; `BuildColumnWidths` is the method proved equal to it, and `BuildWidthsSucceeds`, `BuildWidthsKeys`, `BuildWidthsReserved`, `BuildWidthsPool` and `BuildWidthsFlexibleBounds` state its properties |
| ColumnLayout.BuildColumnWidths | packages/@react-stately/table/src/useTableState.ts:160-189 | the first loop, the solver over a non-empty pool and the second loop compute the widths of the specification `BuildWidths`, and its error when one is thrown |
| ColumnLayout.ReserveStaticColumns | packages/@react-stately/table/src/useTableState.ts:161-176 | the first loop, with its running map, pool and space, computes the first pass `StaticPass`: the same reserved widths, the same pool in order, the same space left, and the same error |
| ColumnLayout.SetSolvedWidths | packages/@react-stately/table/src/useTableState.ts:181-185 | the second loop writes the solved widths, in order, over the reserved ones |
| ColumnLayout.PoolReadableIff | packages/@react-stately/table/src/useTableState.ts:178-181 | every flexible affected column can be read exactly when every pool column can |
| ColumnLayout.BuildWidthsSteps | packages/@react-stately/table/src/useTableState.ts:178-188 | with an empty pool the reserved widths are returned; otherwise the solved widths are written over them, and the call fails exactly when the solver does |
| ColumnLayout.BuildWidthsSucceeds | packages/@react-stately/table/src/useTableState.ts:160-189 | succeeds exactly when every resized column has a committed width and every flexible column's weight and bounds can be read |
| ColumnLayout.SolvedKeys | packages/@react-stately/table/src/useTableState.ts:180-185 | the solver returns the keys of the pool, distinct when the pool's are |
| ColumnLayout.StaticPassKeys | packages/@react-stately/table/src/useTableState.ts:166-176 | the reserved keys and the pool's keys together are the affected keys, and with distinct keys they do not overlap |
| ColumnLayout.BuildWidthsKeys | packages/@react-stately/table/src/useTableState.ts:160-189 | the result has exactly one entry per affected column and no others |
| ColumnLayout.BuildWidthsKeepReserved | packages/@react-stately/table/src/useTableState.ts:178-186 | with distinct keys, the pool's widths never overwrite a reserved width |
| ColumnLayout.BuildWidthsReserved | packages/@react-stately/table/src/useTableState.ts:166-172 | with distinct keys, a resized column keeps its committed width; a static column gets its parsed width; a column with no `width` and no `defaultWidth` is static at 75 |
| ColumnLayout.BuildWidthsPool | packages/@react-stately/table/src/useTableState.ts:163-185 | with distinct keys, the flexible columns get the solver's widths for the space left after every reserved width |
| ColumnLayout.BuildWidthsFlexibleBounds | packages/@react-stately/table/src/useTableState.ts:178-186 | with distinct keys, every flexible column's width is at least its minimum, and at most its maximum whenever min ≤ max |
| ColumnLayout.ExampleStaticPass | packages/@react-stately/table/src/useTableState.ts:165-176 | in the table `a: 200`, `b: flex-1`, `c: flex-1`, the first loop reserves 200 for `a` and leaves 600 to `b` and `c` |
| ColumnLayout.ExampleEntries | packages/@react-stately/table/src/useTableState.ts:216-238 | that pool weighs 2 and neither share needs clamping |
| ColumnLayout.ExamplePool | packages/@react-stately/table/src/useTableState.ts:206-214 | `b` and `c` get 300 pixels each |
| ColumnLayout.BuildWidthsExample | packages/@react-stately/table/src/useTableState.ts:160-189 | that table lays out as `{a: 200, b: 300, c: 300}` |
| ColumnLayout.BoundedEntryFields | packages/@react-stately/table/src/useTableState.ts:216-238 | in the pool `x: flex-1, min 100, max 150` and `y: flex-1`, both weigh 1; `x` keeps its bounds and `y` gets the default minimum of 75 |
| ColumnLayout.BoundedMapColumns | packages/@react-stately/table/src/useTableState.ts:216-238 | over 800 pixels each share is 400, so `x` overshoots its maximum by 250 and `y` is within bounds |
| ColumnLayout.BoundedSolve | packages/@react-stately/table/src/useTableState.ts:240-262 | `x` is placed first and clamped to 150; `y`, alone with the 650 pixels left, takes all of them |
| ColumnLayout.BoundedPoolExample | packages/@react-stately/table/src/useTableState.ts:206-214 | a column whose share exceeds its maximum gets the maximum and the excess goes to its sibling: `x` 150, `y` 650 |
| ColumnLayout.FixedZeroWeightExample | packages/@react-stately/table/src/useTableState.ts:166-172 | a column of width 100 whose `defaultWidth` is `flex-0` is reserved at 100 pixels: its weight is never read |
| ColumnResize.ClampedWidth | packages/@react-stately/table/src/useTableState.ts:141-144 | the dragged column's width is `max(min, min(newWidth, max))`: the requested width when it is within bounds, the minimum when it is at or below the minimum or when the maximum is at or below the minimum, the maximum when min ≤ max ≤ newWidth; so it is at least the minimum, and at most the maximum when min ≤ max; it throws exactly when a bound cannot be read |
| ColumnResize.FindIndex | packages/@react-stately/table/src/useTableState.ts:151 | the first position holding the key, or -1 when no column has it |
| ColumnResize.FindIndexFound | packages/@react-stately/table/src/useTableState.ts:151 | `findIndex` finds a position exactly when some column has the key |
| ColumnResize.SpaceLeft | packages/@react-stately/table/src/useTableState.ts:153 | the `reduce` that subtracts each kept width from the start; `SpaceLeftSum` shows it is the start minus the sum of the widths |
| ColumnResize.PrefixWidths | packages/@react-stately/table/src/useTableState.ts:153 | the committed widths of the kept columns, in order |
| ColumnResize.SpaceLeftSum | packages/@react-stately/table/src/useTableState.ts:153 | the `reduce` leaves the starting space minus the sum of the widths |
| ColumnResize.Kept | packages/@react-stately/table/src/useTableState.ts:153 | `columns.slice(0, resizeIndex + 1)`; `KeptAndAffected` and `KeptEndsAtKey` state what it holds |
| ColumnResize.Affected | packages/@react-stately/table/src/useTableState.ts:152 | `columns.slice(resizeIndex + 1)`; `KeptAndAffected`, `AffectedExcludesKey` and `KeptKeysNotAffected` state what it holds |
| ColumnResize.KeptAndAffected | packages/@react-stately/table/src/useTableState.ts:151-153 | the kept columns followed by the affected ones are the whole list |
| ColumnResize.KeptEndsAtKey | packages/@react-stately/table/src/useTableState.ts:151-153 | the dragged column is the last kept one; when no column has its key, nothing is kept and every column is affected |
| ColumnResize.AffectedExcludesKey | packages/@react-stately/table/src/useTableState.ts:152 | with distinct keys, the dragged column is never affected |
| ColumnResize.KeptKeysNotAffected | packages/@react-stately/table/src/useTableState.ts:151-152 | with distinct keys, no kept column shares its key with an affected one |
| ColumnResize.Resize | packages/@react-stately/table/src/useTableState.ts:138-158 | a bound that cannot be read changes nothing; otherwise the key joins the resized set; a relayout that throws leaves the committed widths unchanged |
| ColumnResize.AvailableSpace | packages/@react-stately/table/src/useTableState.ts:153 | the space left to the affected columns once the dragged column took its new width; `AvailableSpaceSum` states its value |
| ColumnResize.Relayout | packages/@react-stately/table/src/useTableState.ts:147-156 | `buildColumnWidths` over the affected columns in the available space, with the dragged column marked as resized; `RelayoutKeys`, `RelayoutKeepsResized` and `RelayoutUnknownColumn` state its properties |
| ColumnResize.RelayoutSteps | packages/@react-stately/table/src/useTableState.ts:147-156 | the relayout is `buildColumnWidths` over `columns.slice(resizeIndex + 1)` in the `reduce` over `columns.slice(0, resizeIndex + 1)`, and marking the column keeps every pool column weighted |
| ColumnResize.AvailableSpaceSum | packages/@react-stately/table/src/useTableState.ts:153 | the affected columns get 800 minus the widths of the kept columns, the dragged one counted at its new width |
| ColumnResize.RelayoutUnknownColumn | packages/@react-stately/table/src/useTableState.ts:151-153 | for a column not in the list, every column is laid out again in the whole 800 pixels |
| ColumnResize.ResizeSucceeds | packages/@react-stately/table/src/useTableState.ts:138-158 | a resize completes exactly when the dragged column's bounds and every flexible affected column's weight and bounds can be read |
| ColumnResize.RelayoutKeys | packages/@react-stately/table/src/useTableState.ts:152-156 | with distinct keys, the relayout sets exactly the affected columns, never the dragged one |
| ColumnResize.ResizeSetsWidth | packages/@react-stately/table/src/useTableState.ts:140-144 | with distinct keys, after a completed resize the dragged column has its clamped width, and the committed keys are the old ones plus the dragged column's |
| ColumnResize.ResizeKeepsEarlierColumns | packages/@react-stately/table/src/useTableState.ts:151-156 | with distinct keys, every column before the dragged one keeps its width |
| ColumnResize.ResizeRelaysOutAffected | packages/@react-stately/table/src/useTableState.ts:152-156 | with distinct keys, every affected column gets the relayout's width |
| ColumnResize.RelayoutKeepsResized | packages/@react-stately/table/src/useTableState.ts:168 | with distinct keys, the relayout keeps the committed width of every resized affected column |
| ColumnResize.ResizeKeepsResizedColumns | packages/@react-stately/table/src/useTableState.ts:147-168 | with distinct keys, a column resized earlier keeps its width when another column is resized |
| ColumnResize.ColumnResizeState.constructor | packages/@react-stately/table/src/useTableState.ts:123-129 | the first layout puts every column in the whole table with nothing resized, giving one width per column |
| ColumnResize.ColumnResizeState.ColumnWidth | packages/@react-stately/table/src/useTableState.ts:89-91 | a key has a width exactly when it is committed, and every column of a valid state has one |
| ColumnResize.ColumnResizeState.CalculateColumnWidths | packages/@react-stately/table/src/useTableState.ts:138-158 | the new widths, resized set and outcome are those of `Resize`, and every column still has a committed width |
| SortDirections.Opposite | packages/@react-stately/table/src/useTableState.ts:56-59 | each direction maps to the other one |
| SortDirections.OppositeInvolution | packages/@react-stately/table/src/useTableState.ts:56-59 | flipping twice gives back the direction |
| SortDirections.SortRequest | packages/@react-stately/table/src/useTableState.ts:108-115 | the request names the pressed column; pressing the sorted column flips its direction; any other column, or no sort, asks for ascending |
| SortDirections.SortTwiceRestores | packages/@react-stately/table/src/useTableState.ts:108-115 | pressing the sorted column twice restores the descriptor |
| SortDirections.SortNewColumnThenToggle | packages/@react-stately/table/src/useTableState.ts:108-115 | pressing a new column asks for ascending, then pressing it again asks for descending |

## Left out

- React hooks (`useState`, `useRef`, `useMemo`, `useCollection`, `useGridState`) and the
  re-render that `setColumnWidths` and `setResizedColumns` trigger are not modelled. The two
  refs are the fields of `ColumnResizeState`.
- The collection and selection handling of `useTableState` (`TableCollection`, selection
  manager, disabled keys) is foreign code and is not part of this model.
- `onSortChange` is a callback of the parent. `SortRequest` is the descriptor handed to it.
- The first layout reads `resizedColumns` before the hook declares it. The model reads an
  absent set, that is, the first layout has nothing resized.
- The column list of a state is fixed (`ColumnResizeState.columns` is a `const`). The hook
  receives a new list on every render while the widths are computed once, so a column added
  later has no width. That case is not modelled.
- Widths are exact `real`s. IEEE-754 rounding, `NaN` and `Infinity` are not modelled, and an
  absent maximum is `None`.
- ColumnResize.Resize: requires every column to have a committed width, so the `reduce` over
  the kept columns never reads `undefined` and never yields `NaN`. The state's invariant
  `Valid` guarantees this for every reachable state.
- FlexSolver.MapColumns: requires that no pool column weighs 0 (`"flex-0"`). The source divides
  by a zero remaining weight only in two cases: every pool column weighs 0 (`mapColumns`,
  packages/@react-stately/table/src/useTableState.ts:224), or the columns `solveWidths` has not yet processed all weigh 0 (packages/@react-stately/table/src/useTableState.ts:249-250). A pool that
  mixes `flex-0` with positive weights can lay out without such a division, for example
  `[flex-0, flex-1]` in 600 pixels gives 75 and 525; the model does not cover such a pool.
  `BuildWidths`, `BuildColumnWidths`, `Relayout`, `Resize`, the invariant `Valid` and the
  constructor require this only of the columns that reach the pool (`PoolWeighted`). The weight
  of a static or resized column is never read, and `FixedZeroWeightExample` lays out such a
  column.
- ColumnResize.ColumnResizeState.constructor: requires distinct column keys and a first layout
  that does not throw. In the source, a throwing first layout aborts the render.
- The two in-place `Array.sort` calls are modelled on sequences: a stable insertion sort by
  descending delta, then the entry with index `i` at position `i`. Sorting in place and
  aliasing of the column objects are not modelled.
- The source collects the flexible columns in a `Set` of column nodes, which drops a node
  that appears twice (useTableState.ts:162, :174); the model keeps them in a sequence. The two
  agree whenever the column keys are distinct, which `ColumnResizeState.Valid` requires; a
  node can appear twice only in a call to `BuildWidths` on a sequence that repeats it.
- The iteration order of JavaScript `Map`s is not modelled; widths are a Dafny `map`.
