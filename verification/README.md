# GridResponsive layout pass in Dafny

This project models the width-driven layout pass of `GridResponsive`, a
responsive grid for Xamarin.Forms, and proves properties of that model. When
the grid gets a width, the pass does the following:

1. It sorts the width into one of four tiers: extra-small, small, medium or
   large. Three thresholds decide the tier (`Breakpoints`).
2. It resolves each child's column span for that tier. An extra-small span
   applies to the wider tiers too. A wider tier's span overrides it only when
   that span is declared and positive (`Spans`).
3. It gives every child without an explicit order key the next automatic key:
   0, 1, 2, … in encounter order (`Orders`).
4. It visits declared rows 0 up to the largest declared row. For each row it
   takes that row's children and stable-sorts them by key (`Grouping`).
5. It packs each group left to right with a column cursor. A child that does
   not fit wraps to a new output row, and every group ends on a fresh output
   row (`Packing`).
6. It writes each placed child's row, column and column span (`LayoutPass`).

Each child's declaration is modelled as follows:

- The `GridLayout` record (four optional spans and an optional key) is the
  datatype `GridLayouts.GridLayout`, with `Nullable` fields (the source's `int?`).
- A child is `GridLayouts.Child`, which pairs that record with the child's
  declared row.

The pass itself is modelled as follows:

- It is the pure function `LayoutPass.OnSizeAllocated`. It takes the grid
  settings, the width, the children and their current cells. It returns the
  cells after the pass, keyed by child index.
- The placements the pass makes, in the order it makes them, are
  `LayoutPass.Pass`.

The packing rules are stated once, independently of the packing code:

- `Packing.PlacedAfter` is the cursor rule.
- `Packing.Follows` is the rule between neighbouring placements.
- `Packing.PackedFrom` is the rule for a whole pass.
- `Packing.InPassOrder` is the order of visits: by declared row, then by key,
  then by encounter order.

`Packing.PackSpec` proves that the packing code obeys these rules and visits
every child of a row 0 or more exactly as often as it occurs.
`PackingRules.PackedDetermined` shows that the rules fix every position. The
remaining lemmas in `PackingRules` derive the grid's shape from the rules:

- Rows are monotone.
- Declared rows are kept apart.
- Column rules hold.
- Wrapping happens exactly when the next child does not fit.
- When no child has a negative span, an oversized child gets a row of its own.

Widths and thresholds are `real` and are compared directly. Column counts,
spans, rows and keys are unbounded integers.

When no child has a negative span, a child wider than the grid never shares
an output row (`PackingRules.OversizedAlone`). The test
`col + view.ColumnSpan > Columns` (GridResponsive.cs:144) also holds at cursor
0, so such a child always starts a new output row. When it opens its declared
row's group, the output row that group opened on stays empty, whatever the
spans (`PackingRules.OversizedOpenerLeavesRowEmpty`).
`Packing.OversizedExample` and `LayoutPass.OversizedPassExample` state this
concretely. A negative span moves the cursor back, so a later oversized child
can then fit on the current row (`Packing.NegativeSpanExample`).

## Model

| member | source | states |
|---|---|---|
| Breakpoints.LayoutType | Xamarin.Forms.GridResponsive/GridResponsive.cs:165-183 | the tier is 1..4. It is 1 exactly when the width is at most the extra-small threshold. It is 2 exactly when it exceeds that but not the small one. It is 3 exactly when it exceeds both but not the medium one. It is 4 exactly when it exceeds all three. The first threshold that matches wins. |
| Breakpoints.LayoutTypeIsLeastWithin | Xamarin.Forms.GridResponsive/GridResponsive.cs:165-183 | the tier is the first band whose upper threshold the width does not exceed. No earlier band holds the width. |
| Breakpoints.AscendingBands | Xamarin.Forms.GridResponsive/GridResponsive.cs:165-183 | with non-decreasing thresholds, the tier is one plus the number of thresholds exceeded. Tier 3 is exactly small < width <= medium, and tier 4 is exactly width > medium. |
| Breakpoints.LayoutTypeMonotone | Xamarin.Forms.GridResponsive/GridResponsive.cs:167-182 | a wider width never gets a lower tier. This holds for any thresholds, not only ascending ones. |
| Breakpoints.SmallUnreachableWhenBelowExtraSmall | Xamarin.Forms.GridResponsive/GridResponsive.cs:167-175 | when the small threshold is not above the extra-small one, tier 2 is never chosen. |
| Breakpoints.DefaultBoundaries | Xamarin.Forms.GridResponsive/GridResponsiveGlobal.cs:12-14 | with the default 400/800/1200 thresholds, widths 399, 400, 401, 800, 801, 1200 and 1201 fall into tiers 1, 1, 2, 2, 3, 3 and 4. |
| Spans.ColumnSpan | Xamarin.Forms.GridResponsive/GridResponsive.cs:196-218 | the span equals the cascading reference definition: the highest reached tier's positive declared span, else the tier below's. The result is either the extra-small span (default 1) or positive. |
| Spans.HighestOverrideWins | Xamarin.Forms.GridResponsive/GridResponsive.cs:202-215 | suppose tier k is in 2..current, declares a positive span, and no higher reached tier does. Then the span is tier k's value. |
| Spans.NoOverrideFallsBack | Xamarin.Forms.GridResponsive/GridResponsive.cs:200-217 | when no reached tier from 2 up declares a positive span, the span is the extra-small span, or 1 if that is absent. At tier 1 it is always so. |
| Spans.SpanComesFromReachedTier | Xamarin.Forms.GridResponsive/GridResponsive.cs:200-217 | the span is always either the extra-small default or the positive value of some reached tier from 2 up. Absent, zero and negative spans never override. |
| Spans.CascadeExample | Xamarin.Forms.GridResponsive/GridResponsive.cs:200-217 | extra-small 2, small 0, medium 4 gives spans 2, 2, 4, 4 at the four tiers. Small's 0 does not override. |
| Spans.UndeclaredSpansOne | Xamarin.Forms.GridResponsive/GridResponsive.cs:200 | a child that declares nothing spans one column at every tier. |
| Orders.AutoOrders | Xamarin.Forms.GridResponsive/GridResponsive.cs:110-122 | an explicit key is kept. A keyless child gets the next key, i.e. the start plus the number of keyless children before it. |
| Orders.AutoOrdersIncrease | Xamarin.Forms.GridResponsive/GridResponsive.cs:118-122 | automatic keys strictly increase in encounter order. |
| Orders.AutoOrdersRange | Xamarin.Forms.GridResponsive/GridResponsive.cs:110-122 | starting from 0, automatic keys lie in 0 up to (but not including) the number of keyless children. |
| Orders.AutoOrderExamples | Xamarin.Forms.GridResponsive/GridResponsive.cs:110-122 | two keyless children get 0 and 1. Explicit key 5 followed by a keyless child gives 5 and 0. |
| Grouping.WhereSpec | Xamarin.Forms.GridResponsive/GridResponsive.cs:138 | `Where`, the selection of one declared row, keeps every child of that row as often as it occurs and drops all others. Encounter order is kept. |
| Grouping.InsertSpec | Xamarin.Forms.GridResponsive/GridResponsive.cs:138 | `Insert`, one step of the sort, adds exactly the new child. It keeps the group sorted by key with ties in encounter order when the new child was met first. |
| Grouping.OrderBySpec | Xamarin.Forms.GridResponsive/GridResponsive.cs:138 | `OrderBy`, the sort by key, permutes its input. On children in encounter order it sorts by key, and equal keys stay in encounter order (stability). |
| Grouping.RowGroupSpec | Xamarin.Forms.GridResponsive/GridResponsive.cs:138 | `RowGroup`, the selection followed by the sort, holds exactly the children of its row, each as often as it occurs. It is stably sorted by key. |
| Grouping.SortedIsUnique | Xamarin.Forms.GridResponsive/GridResponsive.cs:138 | two stably sorted arrangements of the same children are equal. The group is what any stable sort by key gives. |
| Grouping.GroupedCounts | Xamarin.Forms.GridResponsive/GridResponsive.cs:134-138 | `Grouped`, the row groups of declared rows lo..hi one after another, meets every child of those rows exactly as often as it occurs, and no other child. |
| Packing.MaxRow | Xamarin.Forms.GridResponsive/GridResponsive.cs:134 | the result is an upper bound of all declared rows and is attained by some child. |
| Packing.PackGroupRules | Xamarin.Forms.GridResponsive/GridResponsive.cs:140-155 | `PackGroup` packs one group: each child follows the cursor rule from the previous child's end on the previous child's output row. It goes at the cursor when it fits and at column 0 of the next output row otherwise. The span is unchanged and the group's order is kept. |
| Packing.PackRowsViews | Xamarin.Forms.GridResponsive/GridResponsive.cs:136-158 | `PackRows`, the loop over declared rows row..rows, visits exactly the row groups one after another. |
| Packing.PackRowsWithin | Xamarin.Forms.GridResponsive/GridResponsive.cs:136-138 | `PackRows` over declared rows row..rows places only children of those declared rows. |
| Packing.PackRowsPacked | Xamarin.Forms.GridResponsive/GridResponsive.cs:133-158 | `PackRows` obeys the cursor rule. Across groups the cursor resets to 0 and the output row advances once per declared row passed. |
| Packing.PackRowsOrdered | Xamarin.Forms.GridResponsive/GridResponsive.cs:136-155 | `PackRows` places children by declared row, then by key, then in encounter order. |
| Packing.PackSpec | Xamarin.Forms.GridResponsive/GridResponsive.cs:133-158 | `Pack`, the loop over declared rows 0 up to `MaxRow`, obeys the rules from output row 0, in processing order. Every child of a declared row 0 or more is placed exactly as often as it occurs. A child of a negative row is never placed. |
| Packing.WrapExample | Xamarin.Forms.GridResponsive/GridResponsive.cs:144-154 | spans 5 and 5 in 8 columns are placed at (0,0,5) and (1,0,5). |
| Packing.OversizedExample | Xamarin.Forms.GridResponsive/GridResponsive.cs:144-154 | a span-10 child alone in row 0 of 8 columns is placed at (1,0,10). |
| Packing.NegativeSpanExample | Xamarin.Forms.GridResponsive/GridResponsive.cs:144-154 | after a span of -5 at cursor 0, a span-10 child in 8 columns stays on row 0 at column -5, because -5 + 10 > 8 is false. |
| Packing.OrderExample | Xamarin.Forms.GridResponsive/GridResponsive.cs:138-155 | key 0 met second is placed before key 5 met first, at columns 0 and 1 of row 0. |
| Packing.GapExample | Xamarin.Forms.GridResponsive/GridResponsive.cs:136-158 | a lone child of declared row 2 lands on output row 2. A child of row -1 is not placed. |
| PackingRules.RowsNonDecreasing | Xamarin.Forms.GridResponsive/GridResponsive.cs:133-158 | output rows never decrease along the processing order. |
| PackingRules.GroupsSeparated | Xamarin.Forms.GridResponsive/GridResponsive.cs:133-158 | every child of a lower declared row sits on a strictly lower output row than every child of a higher declared row. |
| PackingRules.Columns | Xamarin.Forms.GridResponsive/GridResponsive.cs:140-154 | see the list after this table. |
| PackingRules.WrapsWhenFull | Xamarin.Forms.GridResponsive/GridResponsive.cs:144-148 | within a group, a child stays on its neighbour's output row exactly when neighbour end + span <= Columns. Otherwise it moves down exactly one row. |
| PackingRules.ColumnNonNegative | Xamarin.Forms.GridResponsive/GridResponsive.cs:140-154 | with no negative spans, every column is at least 0 and the span is kept. |
| PackingRules.OversizedAlone | Xamarin.Forms.GridResponsive/GridResponsive.cs:144-154 | with no negative spans, a child wider than the grid goes to column 0. The output row advances both before and after it. It is never clamped. |
| PackingRules.OversizedOpenerLeavesRowEmpty | Xamarin.Forms.GridResponsive/GridResponsive.cs:140-157 | a child wider than the grid that is first in its declared row's group goes to column 0, one output row below where the group opened. No child at all is placed on that opening row, whatever the spans. |
| PackingRules.RowAtLeastDeclared | Xamarin.Forms.GridResponsive/GridResponsive.cs:133-158 | every declared row passed advances the output row at least once. A child's output row is at least its declared row's offset from the start. |
| PackingRules.PackedDetermined | Xamarin.Forms.GridResponsive/GridResponsive.cs:140-158 | two placement sequences over the same children in the same order that both obey the rules are identical. The rules determine the layout. |
| LayoutPass.BuildLayouts | Xamarin.Forms.GridResponsive/GridResponsive.cs:108-131 | one record per child, in encounter order. Each record carries the child's index, declared row and cascaded span for the tier. Its key is the explicit key, or else the number of keyless children before it. |
| LayoutPass.ApplyKeeps | Xamarin.Forms.GridResponsive/GridResponsive.cs:150-152 | `Apply` writes the placements' cells in order: a child no placement writes keeps its cell. |
| LayoutPass.ApplyLastWins | Xamarin.Forms.GridResponsive/GridResponsive.cs:150-152 | under `Apply`, a child's last placement decides its cell. |
| LayoutPass.PassRules | Xamarin.Forms.GridResponsive/GridResponsive.cs:104-158 | `Pass` builds the records and packs them. For a positive width and a nonempty child list, its placements obey the packing rules from output row 0 in processing order. |
| LayoutPass.PassPlacesEachOnce | Xamarin.Forms.GridResponsive/GridResponsive.cs:108-158 | for a positive width, `Pass` places each child of a declared row 0 or more exactly once, with its own record. No other child is placed. |
| LayoutPass.OnSizeAllocated | Xamarin.Forms.GridResponsive/GridResponsive.cs:96-163 | see the list after this table. |
| LayoutPass.LayoutsExample | Xamarin.Forms.GridResponsive/GridResponsive.cs:110-131 | explicit key 5 is kept, and the keyless child after it gets key 0. |
| LayoutPass.WrapPassExample | Xamarin.Forms.GridResponsive/GridResponsive.cs:96-163 | at width 300 in the default grid, two span-5 children get cells (0,0,5) and (1,0,5). |
| LayoutPass.OversizedPassExample | Xamarin.Forms.GridResponsive/GridResponsive.cs:96-163 | at width 300 in the default grid, a span-10 child gets cell (1,0,10). |
| LayoutPass.NoWidthExample | Xamarin.Forms.GridResponsive/GridResponsive.cs:98-102 | at width 0 the cells are unchanged. |

`PackingRules.Columns` states these facts:

- Every placement keeps the child's span.
- A child at a column above 0 ends within the grid.
- The first child of an output row is at column 0.
- A child on its neighbour's row starts at the neighbour's end, and both
  children are in the same declared row.

`LayoutPass.OnSizeAllocated` states these facts, gathered in the predicate
`LayoutPass.CellsAfterPass`:

- With no children, or a width of 0 or less, all cells are unchanged.
- A child of a negative declared row keeps its cell.
- Every other child gets the cell of its one placement.
- That cell's span is the cascaded span for the width's tier.
- That cell's row is at least the child's declared row.

## Left out

- The bindable-property layer is not modelled. That covers `SetValue`,
  `GetValue`, `InvalidateLayout`, `BatchBegin`/`BatchCommit`,
  `base.OnSizeAllocated` and the `ColumnDefinitions` rebuild in
  `OnPropertyChanged`. It is framework glue. The model takes the children's
  declarations as plain values and returns the cells instead of writing them.
- `SetResponsiveRow` stores the row under the column property. The model gives
  each child an independent declared row, which is what `GetResponsiveRow`
  reads.
- The `MaxWidth*` getters read the stored `double` through an `(int)` cast.
  The model compares the width against the threshold values directly, as
  reals. It does not model that cast or what it does at run time.
- Widths are `real`, not IEEE doubles. No floating-point rounding is modelled.
- Spans, rows, keys and the column count are unbounded integers. The model
  does not wrap around at 32 bits. The code's 32-bit `int` can overflow in
  these places:
  - `col + view.ColumnSpan` (GridResponsive.cs:144 and 154). For example, a
    span near `int.MaxValue` after a child of span 1 gives a negative sum. The
    code then keeps that child at the cursor, where `Packing.PlacedAfter`
    wraps it.
  - `rowReal++` (lines 147 and 157).
  - `order++` (line 121), which needs 2^31 keyless children.

  Explicit keys are only compared, never used in arithmetic.
- The row loop at GridResponsive.cs:136 never ends when the largest declared
  row is `int.MaxValue`. `row <= rows` still holds once `row++` wraps around.
  `Packing.PackRows` always ends, because it decreases `rows - row + 1`. So
  the model gives a result for inputs on which the code does not return.
- The writes `SetColumn`, `SetColumnSpan` and `SetRow` (lines 150-152) are
  modelled as unconditional updates in `LayoutPass.Apply`. Xamarin.Forms'
  own `Grid` validates these attached properties. Those host checks are not
  modelled: a column span below 1, or a negative column or row, may be
  rejected by the host part-way through the batch. For zero or negative spans
  (which `Spans.BaseSpan` keeps, as line 200 does) and the negative columns
  they lead to, the model's cells are what the pass computes. They are not
  necessarily what the host accepts.
- The process-wide defaults are used only as the `DefaultGrid` constant: 8
  columns and thresholds 400/800/1200. The spacings are not modelled.
- Height, measurement and rendering are left out because the pass does not
  use them.
- The pass over a fixed input has one result, because the model is a pure
  function. Repeated size changes with the same width therefore give the same
  cells, and no separate lemma states it.
