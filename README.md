# QuiltView layout engine in Dafny

QuiltView is a collection-view layout that packs variably sized blocks
(a whole number of cells wide and high) into a grid. The grid is bounded
across the scroll direction, the *restricted* dimension, and unbounded
along it, the *unrestricted* dimension. This project models the layout
object `QuiltView` of `QuiltView/Classes/QuiltView.swift`:

- the two grid indexes: cell to occupant, and item to block origin;
- the first-fit block placer (`placeBlockAtIndex`, `traversepublicTiles`,
  `traverseTilesForPoint`), together with the first-free-cell frontier and
  the furthest-block-point setter;
- the two fill drivers that walk items in order from the last item placed
  (`fillInBlocksToUnrestrictedRow`, `fillInBlocksToIndexPath`);
- the layout callbacks: `prepare`, `prepare(forCollectionViewUpdates:)`,
  `invalidateLayout`, `layoutAttributesForItem`,
  `layoutAttributesForElements` with its one-rectangle cache, and
  `collectionViewContentSize`;
- the integer geometry: the clamped restricted extent, the centring
  padding, item frames and the content size.

Modules:

- `Geometry`: points, cells, sizes and rectangles; the axis swap; the
  truncating division; the frame arithmetic.
- `Items`: the item identifier `IndexPath`, its canonical order, and the
  delegate that supplies block sizes and insets.
- `Visit`: the order in which the drivers offer items, as a function of
  the item counts and the cursor, with the drivers' stop conditions.
- `Packing`: the occupancy grid, the placer's first-fit specification, and
  the invariants a placement keeps.
- `Quilt`: the class `QuiltLayout`, whose fields are the layout's state and
  whose methods are its operations, proved against the functions and
  predicates above.

Class state and how each method is specified:

- Each method changes only the fields it names in `modifies`.
- The invariant `Consistent()` holds between calls. It says:
  - occupied cells are non-negative and within the furthest point;
  - the two indexes agree;
  - every item occupies exactly its block;
  - every placed item is at or before the cursor.
- The placer is specified by `IsFirstFit` and `IsFirstFree` on the old
  grid.
- The drivers are specified by the walk `VisitOrder(counts, cursor)`:
  - `StopsAtTarget` describes where the index-path driver stops.
  - `StopsAtRow` describes where the row-driven driver stops.
  - `Recorded` states what a run of placements changed: the old cells and
    origins stay, the placed items are the old ones plus the run, the log
    grew by the run, and the cursor moved to the run's last item. Together
    with `Consistent()` this means the grid grew by exactly the run's blocks.
  - `PlacedStep` states one placement: the item lands at its first fit from
    the old frontier's row, the new first free cell is found, exactly its
    block is marked, and the furthest point, log and cursor advance.
  - `Traced` lists the states a run went through, each pair one
    `PlacedStep`, with the frontier after each. `RunPlaced` (index-path
    driver) and `RowFilled` (row-driven driver, with the z-indices and the
    stop test) tie such a trace to the states before and after.

Swift's `a..<b` traps when `a > b`. The drivers build such a range when
the cursor's row is not below a later section's item count. A forced
unwrap of a missing index path also traps. The model returns an `aborted`
flag in both cases, with the state as it was at the trap.

Where the layout's specification and its code disagree, the model follows
the code:

- A fill to the same row is not idempotent. Every call places at least the
  next item the walk offers (`Visit.StopsAtRowPlacesFirst`).
- An empty visible rectangle still covers one row of the grid.
- The visible-rectangle query walks its row band as written, which can
  leave out rows the rectangle reaches (see "Findings"). The corrected band
  and what it reports are proved beside it, but the query does not use it.
- `invalidateLayout` writes zero through the max-setter, so the furthest
  point keeps its value. It does not clear the z-indices or the placement
  log either.
- From the second section on, a driver starts at the row after the
  cursor's row, not at 0. Leading rows of later sections are therefore
  never offered.
- The index-path driver's stop test is `section >= target.section &&
  row > target.row`, which is not the canonical order.

## Model

| member | source | states |
|---|---|---|
| Geometry.ToCell | QuiltView/Classes/QuiltView.swift:373-381 | the axis swap from view points to (restricted, unrestricted) cells is undone by ToPoint |
| Geometry.MaxPoint | QuiltView/Classes/QuiltView.swift:52-61 | the stored furthest point is at least both the old and the new point in each component, and equals one of them there |
| Geometry.TruncDiv | QuiltView/Classes/QuiltView.swift:429 | Swift's Int division truncates toward zero: the quotient times the divisor lies within one divisor of the dividend, on the dividend's side of zero |
| Geometry.ClampedCountBounds | QuiltView/Classes/QuiltView.swift:466-486 | the restricted extent is the number of whole cells in the content when one fits, with less than a cell left over, and 1 otherwise |
| Geometry.Padding | QuiltView/Classes/QuiltView.swift:429-441 | the padding centres the band of extent cells in the content: the two margins differ by at most one pixel, the odd pixel going after the band when it fits and before it when it overhangs, where both margins are at most zero |
| Geometry.Frame | QuiltView/Classes/QuiltView.swift:420-452 | every item frame is at least one cell wide and high |
| Geometry.InsetRect | QuiltView/Classes/QuiltView.swift:145 | zero insets leave a frame as it is, and insets that fit keep the rectangle inside the frame |
| Geometry.FramesOverlapIffBlocksOverlap | QuiltView/Classes/QuiltView.swift:420-452 | two pixel frames share a pixel exactly when the two grid blocks share a cell |
| Geometry.FrameWithinBand | QuiltView/Classes/QuiltView.swift:429-447 | a block within the restricted extent has a frame inside the centred band, and inside the content when the band fits |
| Geometry.ContentCoversFrame | QuiltView/Classes/QuiltView.swift:93-101 | the content size reaches the far edge of every block whose far corner is within the furthest point |
| Geometry.ContentSize | QuiltView/Classes/QuiltView.swift:93-101 | the content extent across the scroll direction and at least one cell along it for a non-negative furthest point; Geometry.ContentCoversFrame shows it reaches every block within the furthest point |
| Geometry.SourceRowBand | QuiltView/Classes/QuiltView.swift:116-118 | the rows the query walks, as written, are never empty for a rectangle of non-negative length |
| Geometry.SourceRowBandMissesRow | QuiltView/Classes/QuiltView.swift:116-118 | with 314-pixel cells, a rectangle at 300 of length 800 reaches row 3, but the band as written is rows 0 to 2 |
| Geometry.SourceRowBandCovers | QuiltView/Classes/QuiltView.swift:116-118 | what the band as written does cover: every row the rectangle reaches that starts no more than the rectangle's length past the start of its first row |
| Geometry.RowBand | QuiltView/Classes/QuiltView.swift:116-118 | the corrected band, up to the row of the rectangle's far edge, is non-empty and starts at a non-negative row |
| Geometry.RowBandCovers | QuiltView/Classes/QuiltView.swift:116-118 | every row that a rectangle at a non-negative offset reaches lies in the corrected band |
| Items.BlockSizeOf | QuiltView/Classes/QuiltView.swift:455-462 | without a delegate every block is 1 x 1 |
| Items.InsetsOf | QuiltView/Classes/QuiltView.swift:138-141 | without a delegate every item has zero insets |
| Visit.Rows | QuiltView/Classes/QuiltView.swift:211 | the row range lo ..< hi of a section holds hi - lo items |
| Visit.WalkStart | QuiltView/Classes/QuiltView.swift:208 | a driver starts at the cursor's section with nothing visited, and a cursor section beyond the section count makes the walk trap at once |
| Visit.WalkAtTrap | QuiltView/Classes/QuiltView.swift:211 | a section whose row range starts past its count ends the walk in a trap, after everything visited so far |
| Visit.WalkAtStep | QuiltView/Classes/QuiltView.swift:238-251 | rows placed in a section extend the walk's visited prefix, the next row is the walk's next item, and a finished section hands over to the next one with the cursor on its last row |
| Visit.VisitOrderAscending | QuiltView/Classes/QuiltView.swift:238-249 | drivers offer only items the data source reports, strictly after the cursor and in strictly increasing canonical order, so no item is offered twice |
| Visit.SingleSectionResumes | QuiltView/Classes/QuiltView.swift:208-211 | with one section a driver resumes right after the cursor and offers every later row |
| Visit.LaterSectionSkipsLeadingRows | QuiltView/Classes/QuiltView.swift:208-211 | from no cursor, the second section starts at the first section's count: its leading rows are never offered, and the row after them is |
| Visit.DecreasingSectionTraps | QuiltView/Classes/QuiltView.swift:208-211 | when the first section is longer than the second, the walk traps right after the first section |
| Visit.StopsAtRowPlacesFirst | QuiltView/Classes/QuiltView.swift:208-227 | a row-driven fill places the first item its walk offers before it tests the frontier |
| Visit.PastTargetIsAfter | QuiltView/Classes/QuiltView.swift:242 | the index-path driver's stop test fires only on items after the target in canonical order |
| Visit.StopsAtTargetPlacesTarget | QuiltView/Classes/QuiltView.swift:242-249 | on an ascending walk the index-path driver places its target whenever the walk offers it |
| Packing.FitsIsFree | QuiltView/Classes/QuiltView.swift:259-274 | a block that passes the per-cell check has no occupied cell, so marking it overwrites nothing |
| Packing.PlacedBlocksDisjoint | QuiltView/Classes/QuiltView.swift:258-287 | two distinct placed items have blocks that share no cell |
| Packing.FitsBeyondFurthest | QuiltView/Classes/QuiltView.swift:335 | past the furthest point every block fits on restricted line 0, which bounds the unbounded scan |
| Packing.FirstFitUnique | QuiltView/Classes/QuiltView.swift:329-360 | the first-fit origin is unique, so placement is deterministic |
| Packing.FirstFreeNotAfterFit | QuiltView/Classes/QuiltView.swift:347-352 | the first free cell recorded by the scan is at or before the chosen origin |
| Packing.StampKeepsBounded | QuiltView/Classes/QuiltView.swift:282-286 | marking a block keeps every occupied cell within the furthest point raised to the block's far corner |
| Packing.StampKeepsIndexed | QuiltView/Classes/QuiltView.swift:281-286 | marking a block and recording its origin keeps the two indexes in agreement |
| Packing.StampKeepsFootprints | QuiltView/Classes/QuiltView.swift:281-286 | a first placement keeps every item's footprint exactly its block |
| Packing.FirstFitPlaceable | QuiltView/Classes/QuiltView.swift:262-273 | the first fit found from a non-negative row lies on lines 0 .. extent - 1 and its block is free |
| Packing.ItemsInBandExact | QuiltView/Classes/QuiltView.swift:293-309 | the band walk finds exactly the placed items whose block has a cell in the band |
| Packing.FarCornerWithinFurthest | QuiltView/Classes/QuiltView.swift:52-61 | every placed block's far corner is within the furthest point |
| Quilt.PlacementKeepsLayout | QuiltView/Classes/QuiltView.swift:281-286 | a placement keeps the grid invariant with the furthest point raised to the block's far corner, and a first placement keeps footprints exact |
| Quilt.AfterCursorUnplaced | QuiltView/Classes/QuiltView.swift:211-216 | an item after the cursor has not been placed, so a driver's placement is always a first one |
| Quilt.CursorAdvances | QuiltView/Classes/QuiltView.swift:214-216 | placing the item after the cursor and moving the cursor to it keeps every placement at or before the cursor |
| Quilt.ZIndexOf | QuiltView/Classes/QuiltView.swift:220 | an existing item's z-index lies above the base and at most the base plus its section's count |
| Quilt.ZIndexDecreasesAlongSection | QuiltView/Classes/QuiltView.swift:220 | within a section an earlier item is stacked above a later one |
| Quilt.ZForSpec | QuiltView/Classes/QuiltView.swift:218-223 | stamping a run gives each of its items its z-index, adds no other key and leaves every other entry unchanged |
| Quilt.QuiltLayout.constructor | QuiltView/Classes/QuiltView.swift:24-88 | a new layout scrolls vertically with 314-pixel cells, nothing placed, no cursor, a zero frontier and furthest point, and no cached query |
| Quilt.QuiltLayout.IndexPathForPosition | QuiltView/Classes/QuiltView.swift:373-381 | a point has an occupant exactly when its cell is in the grid |
| Quilt.QuiltLayout.OccupantCoversPoint | QuiltView/Classes/QuiltView.swift:373-381 | the occupant of a point is exactly the placed item whose block covers it |
| Quilt.QuiltLayout.SetPosition | QuiltView/Classes/QuiltView.swift:383-396 | the point's cell now holds the item, and no other cell changes |
| Quilt.QuiltLayout.SetIndexPath | QuiltView/Classes/QuiltView.swift:398-408 | the item's origin is recorded and the item is appended to the placement log |
| Quilt.QuiltLayout.ClearPositions | QuiltView/Classes/QuiltView.swift:368-371 | both indexes are emptied |
| Quilt.QuiltLayout.SetFurthestBlockPoint | QuiltView/Classes/QuiltView.swift:52-61 | the furthest point becomes the componentwise maximum of its old value and the new point |
| Quilt.QuiltLayout.InvalidateLayout | QuiltView/Classes/QuiltView.swift:169-179 | restores the invariant with nothing placed, a zero frontier, no cursor and no cached query, while the furthest point, the z-indices and the log keep their values |
| Quilt.QuiltLayout.SetScrollDirection | QuiltView/Classes/QuiltView.swift:30-34 | a new scroll direction invalidates the layout, even when it is unchanged |
| Quilt.QuiltLayout.SetItemBlockSize | QuiltView/Classes/QuiltView.swift:24-28 | a new cell size invalidates the layout, even when it is unchanged |
| Quilt.QuiltLayout.CheckTilesForPoint | QuiltView/Classes/QuiltView.swift:259-274 | the column-major walk of a block accepts exactly when every cell is free and on a line below the extent, or the block starts on line 0 |
| Quilt.QuiltLayout.MarkTilesForPoint | QuiltView/Classes/QuiltView.swift:282-286 | marks exactly the block's cells as the item's, changing no occupied cell, and raises the furthest point to the block's far corner |
| Quilt.QuiltLayout.MarkColumn | QuiltView/Classes/QuiltView.swift:315-322 | one column of the block walk marks its cells and raises the furthest point to the column's bottom cell |
| Quilt.QuiltLayout.ScanRow | QuiltView/Classes/QuiltView.swift:337-356 | one row of the scan finds the first fit in the row, or extends "no fit before" to the next row, and records the first free cell |
| Quilt.QuiltLayout.TraversePublicTiles | QuiltView/Classes/QuiltView.swift:329-366 | the scan ends, with the first-fit origin from the frontier's row and the frontier moved to the first free cell from that row |
| Quilt.QuiltLayout.FillBlock | QuiltView/Classes/QuiltView.swift:280-288 | records the origin, logs the item, stamps exactly its block, raises the furthest point, and keeps the invariant |
| Quilt.QuiltLayout.PlaceBlockAtIndex | QuiltView/Classes/QuiltView.swift:254-290 | always succeeds, places the item at the first fit, moves the frontier forward, stamps only the item's block and keeps the invariant |
| Quilt.QuiltLayout.PlaceAndRecord | QuiltView/Classes/QuiltView.swift:246-249 | a driver step places the item after the cursor for the first time and makes it the cursor; the step is one `PlacedStep`: first fit from the old frontier's row, the new first free cell, the block stamped, the furthest point raised, the log and cursor advanced |
| Quilt.QuiltLayout.FillRowsToIndexPath | QuiltView/Classes/QuiltView.swift:241-250 | places a section's rows in order and stops exactly before the first row past the target; each row is one `PlacedStep` from the state before it, recorded in the trace |
| Quilt.QuiltLayout.FillSectionToIndexPath | QuiltView/Classes/QuiltView.swift:238-251 | one section of the index-path driver traps, stops past the target, or hands over to the next section, with the states and frontiers of its placements |
| Quilt.QuiltLayout.FillInBlocksToIndexPath | QuiltView/Classes/QuiltView.swift:232-252 | places a prefix of the walk from the cursor, none of it past the target; it stops at the first item past the target, or at the walk's end, and aborts exactly when the walk traps; the states run from the old state to the new one, each step one `PlacedStep` of the next item |
| Quilt.QuiltLayout.FillIndexPathSectionStep | QuiltView/Classes/QuiltView.swift:238-251 | one pass of the index-path driver's section loop extends the trace of the fill so far by that section's placements, states and frontiers |
| Quilt.TracedKeepsOrigin | QuiltView/Classes/QuiltView.swift:246-249 | later placements of a run leave each earlier item's origin where its own step put it |
| Quilt.RunPlacedOrigin | QuiltView/Classes/QuiltView.swift:246-249 | every item a traced run places ends at its first fit from the state it was placed from |
| Quilt.QuiltLayout.StampRow | QuiltView/Classes/QuiltView.swift:218-223 | the z-index map gains the row's entry, base + count - row |
| Quilt.QuiltLayout.FillRowStep | QuiltView/Classes/QuiltView.swift:212-225 | one row-driven step places the row, makes it the cursor, stamps its z-index and reads the frontier, extending the fill's trace by exactly that placement's state and frontier |
| Quilt.QuiltLayout.FillRowsToUnrestrictedRow | QuiltView/Classes/QuiltView.swift:211-228 | places and stamps a section's rows, stopping right after the first placement whose frontier reaches the end row; each placement is one `PlacedStep` from the state before it, and the frontier after each is recorded |
| Quilt.QuiltLayout.FillSectionToUnrestrictedRow | QuiltView/Classes/QuiltView.swift:208-229 | one section of the row-driven fill traps, stops at the end row, or hands over to the next section, with the states and frontiers of its placements |
| Quilt.QuiltLayout.FillSectionStep | QuiltView/Classes/QuiltView.swift:208-229 | one pass of the section loop extends the trace of the fill so far by that section's placements, states and frontiers |
| Quilt.QuiltLayout.FillInBlocksToUnrestrictedRow | QuiltView/Classes/QuiltView.swift:201-230 | places and stamps a prefix of the walk from the cursor; it stops only right after the frontier reaches the end row, and otherwise goes through the walk, aborting exactly when the walk traps; the states run from the old state to the new one, each step one `PlacedStep` of the next item, with its frontier recorded |
| Quilt.PlacedStepDeterministic | QuiltView/Classes/QuiltView.swift:254-290 | a placement step is a function of the state before it: two steps placing the same item from the same state reach the same state |
| Quilt.TracedDeterministic | QuiltView/Classes/QuiltView.swift:201-230 | a run of placements determines the states it passes through and the frontiers it reads |
| Quilt.RowFillStopsAtFirstReach | QuiltView/Classes/QuiltView.swift:225-227 | in a row-driven fill every placement but the last leaves the frontier short of the end row, and a fill that stops before the walk's end does so on the first placement that reaches it |
| Quilt.QuiltLayout.PositionForIndexPath | QuiltView/Classes/QuiltView.swift:410-418 | an unplaced item is filled up to first; the result is the item's origin, or zero if it still has none, and the item is placed exactly when it was before or the walk offers it; an item placed by this call sits at its first fit, and the fill is traced step by step |
| Quilt.QuiltLayout.FrameForIndexPath | QuiltView/Classes/QuiltView.swift:420-452 | the frame is the item's origin and block size scaled by the cell size, with the centring padding on the restricted axis; an item placed by this call sits at its first fit |
| Quilt.QuiltLayout.PlacedFramesDisjoint | QuiltView/Classes/QuiltView.swift:420-452 | frames of two distinct placed items share no pixel |
| Quilt.QuiltLayout.ContentCoversPlacedFrames | QuiltView/Classes/QuiltView.swift:93-101 | the content size reaches the far edge of every placed item's frame along the scroll direction |
| Quilt.QuiltLayout.CollectionViewContentSize | QuiltView/Classes/QuiltView.swift:93-101 | the content size is the content extent across the scroll direction and at least one cell along it; its partner Quilt.QuiltLayout.ContentCoversPlacedFrames shows it reaches every placed frame |
| Quilt.QuiltLayout.LayoutAttributesForItem | QuiltView/Classes/QuiltView.swift:137-153 | the attributes are the item's frame less its insets, with its stamped z-index or 0; an item placed by this call sits at its first fit |
| Quilt.QuiltLayout.TraverseTilesBetweenUnrestrictedDimension | QuiltView/Classes/QuiltView.swift:293-309 | the walk over rows begin ..< end and every restricted line collects exactly the occupants of that band |
| Quilt.QuiltLayout.QueryBandFindsVisibleItems | QuiltView/Classes/QuiltView.swift:112-130 | the band as written reports every placed item whose frame meets the query rectangle along the scroll direction and starts no more than the rectangle's length past the start of the rectangle's first row |
| Quilt.QuiltLayout.CorrectedBandFindsVisibleItems | QuiltView/Classes/QuiltView.swift:116-118 | with the corrected band, every placed item whose frame meets a query rectangle of non-negative offset and positive length along the scroll direction is reported |
| Quilt.SourceQueryMissesPlacedItem | QuiltView/Classes/QuiltView.swift:116-130 | four stacked one-cell items, 314-pixel cells, rectangle at 300 of length 800: the fourth item's frame meets the rectangle, but the band as written does not report it |
| Quilt.QuiltLayout.ReportBand | QuiltView/Classes/QuiltView.swift:122-134 | the result is the attributes of every occupant of the band, and it is cached |
| Quilt.QuiltLayout.QueryVisibleRect | QuiltView/Classes/QuiltView.swift:112-134 | records the rectangle, fills to the end of the band as written, and returns and caches the band's attributes; it aborts exactly on a trap or an inverted band; the fill's trace runs from the old state to the new one |
| Quilt.QuiltLayout.LayoutAttributesForElements | QuiltView/Classes/QuiltView.swift:104-135 | without a delegate the answer is empty; the previous rectangle gets the cached answer with nothing placed; any other rectangle is queried with the band as written, with the fill's trace |
| Quilt.QuiltLayout.Prepare | QuiltView/Classes/QuiltView.swift:181-197 | without a delegate nothing happens; otherwise the fill runs to one row past the visible area's far edge, with the fill's trace |
| Quilt.QuiltLayout.PrepareForUpdate | QuiltView/Classes/QuiltView.swift:162-166 | an insert or a move fills up to its index path, placing it at its first fit when the walk offers it, and traps when it carries none; other actions change nothing; the fill is traced step by step |
| Quilt.QuiltLayout.PrepareForCollectionViewUpdates | QuiltView/Classes/QuiltView.swift:159-167 | a batch with no insert or move places nothing, a batch that does not abort has an index path on every insert and move, and every placement of the batch is one traced `PlacedStep` |

## Left out

- `shouldInvalidateLayout(forBoundsChange:)` (QuiltView.swift:155-157) compares UIKit frame sizes. The collection view's frame is not part of this model.
- UIKit objects and calls: `super` calls, the weak delegate lookup and its `responds(to:)` test, and `UICollectionViewLayoutAttributes`. An item's attributes are its index path, frame and z-index. `transform3D` is left out: it only mirrors the z-index.
- The collection view's frame less its content insets is two constants, `contentWidth` and `contentHeight`. Prepare's scroll frame is the parameters `offset` and `frameSize`. The data source's item counts are a field set at construction, with no method that changes them.
- Floating point: every `CGFloat` is modelled by the integer it holds. Cell sizes and block sizes are positive integers, and each `Int(...)` conversion of a quotient is a truncating division.
- Swift's fixed-width `Int` is modelled as unbounded. No overflow is modelled in the frame arithmetic, the z-index or the scan, whose `>= 0` loop test never fails before the scan finds room.
- `DEBUG` prints, the `didShowMessage` flags and `className` are diagnostics only.
- `isVertical()` is the boolean field `vertical`.
- Quilt.QuiltLayout.PrepareForCollectionViewUpdates: the batch contract is weaker than the per-item one. It does not repeat, for each item of the batch, the walk and stop conditions that PrepareForUpdate states.
- Geometry.FrameWithinBand: it covers only blocks inside the restricted extent. A block wider than the extent is accepted on line 0 and sticks out of the band, so no such bound holds for every placed item.
- `preLayoutEverything` (QuiltView.swift:67) is a private flag that starts false and is never set. The model makes it the constant `PreLayoutEverything`, false, so the fill-everything mode at lines 120 and 196 is never taken.
- Negative content extents are not modelled. `contentWidth` and `contentHeight` are `nat`. In the source, `Int(...)` truncates toward zero. Insets that exceed the frame by less than one cell give 0, which the clamp at line 471 raises to 1. Insets that exceed it by a full cell or more give a negative count, which escapes the `size == 0` test. The `0..<extent` loops at lines 297 and 337 then trap.
- A delegate that implements only one of its two optional methods is not modelled. `Items.Delegate` always supplies both. In the source, the `responds(to:)` test compared with `nil` (lines 139 and 457) always passes, so the forced call of the missing method traps.

## Findings

| source | as written | input that shows it | evidently intended | confidence | as-written member | corrected member |
|---|---|---|---|---|---|---|
| QuiltView/Classes/QuiltView.swift:116-118 | the visible-rectangle query walks `Int(length / cell) + 1` rows from `Int(origin / cell)`, ignoring where in its first row the rectangle starts | cell 314, origin 300, length 800: the rectangle covers pixels 300 to 1099 and reaches row 3 (pixels 942 to 1255), but the band is rows 0 to 2, so an item only in row 3 is not reported | walk up to and including the row of the rectangle's far edge, `Int((origin + length) / cell)` | medium, not executed | Quilt.SourceQueryMissesPlacedItem | Quilt.QuiltLayout.CorrectedBandFindsVisibleItems |
