# Masonry grid generator of pixi-gallery, in Dafny

The gallery page lays its images out on a random masonry grid. A `Grid`
starts with one rectangle covering the whole `gridColumns × gridRows` region
(grid units) and keeps a FIFO queue of pending rectangles. `splitCurrentRect`
takes the front rectangle. It picks the cut side: the width when `w > h`,
otherwise the height. If that side is longer than `2 * gridMin`, it cuts the
rectangle at a random integer in `[gridMin, side - gridMin]` and queues both
halves at the back. Otherwise it moves the rectangle to the output and repeats.
`generateRects` calls the step until the queue is empty and returns the output.

The class exists twice with identical code: `src/grid.js:1-55` (the exported
module) and `src/index.js:67-121` (the copy the page runs). One model covers
both. The page derives the grid from the window size (`gridSize = 50`,
`gridMin = 3`, five windows wide and high), draws one image tile per rectangle,
tests tiles against the viewport, and clamps panning.

Files:

- `geometry.dfy` (`Geometry`): rectangles, the cells they cover, and per-cell
  counts. An *exact cover* means each cell of the region is covered exactly once
  and no cell outside it is covered. `Tiles` is an exact cover whose areas also
  sum to `gridColumns * gridRows`. `ExactCoverIffPartition` proves that an exact
  cover is the same as a set of positive rectangles that are pairwise disjoint,
  lie inside the region, and cover all of it.
- `randomness.dfy` (`Randomness`): `Math.random()` is modelled as a rational in
  `[0, 1)`, and `randomInRange` as the exact floor of that rational times the
  range width.
- `grid.dfy` (`GridModel`): the generator state, the step, the driving loop, and
  the invariants (tiling, size bounds, a decreasing potential).
- `app.dfy` (`App`): the `index.js` helpers that consume the generator's output.
- `wrappers.dfy` (`Wrappers`): `Result`.

Randomness is a parameter. One `splitCurrentRect` call draws at most once, so
the step takes one `Math.random()` value. `generateRects` takes a stream
`rnd: nat -> Random`, and its i-th call uses `rnd(i)`. For a fixed stream the
output is fixed.

## Model

| member | source | states |
|---|---|---|
| Randomness.RandomInRange | src/index.js:124-126 | when `min <= max`, the result lies in `[min, max]` |
| Randomness.RandomInRangeReachesEveryValue | src/index.js:124-126 | every integer in `[min, max]` is produced by some `Math.random()` value, so both ends are reachable |
| GridModel.Split | src/grid.js:26-39 | the children share no cell; for a cut point in `[0, side]` they cover exactly the parent's cells; their areas sum to the parent's; the first child keeps the parent's origin and has length `size` on the cut axis; the second child starts `size` units further along that axis and has the remaining length; the other side and the other origin coordinate are unchanged; the width is cut exactly when `w > h`, so a square is cut along its height |
| GridModel.SplitCurrentRect | src/index.js:89-111 | the settings are unchanged; an empty queue leaves the state unchanged; the output list only grows at its end |
| GridModel.SplitCurrentRectFinalizesAll | src/grid.js:40-42 | when no queued rectangle has a cut side above `2 * gridMin`, one call moves the whole queue, in order, to the output and empties the queue |
| GridModel.SplitCurrentRectCutsFirstSplittable | src/grid.js:24-43 | when position k holds the first rectangle that can be cut, one call finalizes positions `0..k-1` in order, removes position k, and appends its two children (first, then second) after the rest of the queue |
| GridModel.ChildrenReplaceParent | src/grid.js:30-39 | a rectangle whose cut side exceeds `2 * gridMin` is replaced by two children that cover the same cells and area; both children's cut-axis lengths are at least `gridMin`; positivity and the at-least-`gridMin` bound carry over to the children |
| GridModel.NewGridTiling | src/grid.js:14-19 | for `GridModel.NewGrid`, the constructor's state, the single queued rectangle tiles a non-empty region |
| GridModel.NewGridSizeBounds | src/grid.js:14-19 | when the region is at least `gridMin` on each side, the initial state meets the size bounds |
| GridModel.SplitCurrentRectKeepsTiling | src/grid.js:31-42 | with `gridMin >= 1`, a step keeps the output followed by the queue an exact tiling of the region |
| GridModel.SplitCurrentRectKeepsSizeBounds | src/grid.js:30-41 | with `gridMin >= 1`, a step keeps every queued rectangle at least `gridMin` on each side and every finalized one between `gridMin` and `2 * gridMin` on each side |
| GridModel.ChildrenWeighOneLess | src/grid.js:31-39 | a cut lowers the queue's potential by exactly one |
| GridModel.SplitCurrentRectLowersPotential | src/grid.js:24-44 | with `gridMin >= 1`, every call on a non-empty queue strictly lowers the potential, so the generator stops |
| GridModel.GenerateRects | src/index.js:115-120 | the loop ends with an empty queue and returns the output list; the output only grows; tiling and size bounds of the starting state carry over to the result; a queue with nothing to cut is returned as it is |
| GridModel.Generate | src/grid.js:8-54 | for `gridMin >= 1`, a fresh grid's result tiles any non-empty region exactly; when the region is at least `gridMin` on each side, every rectangle is between `gridMin` and `2 * gridMin` on each side; a region whose cut side is at most `2 * gridMin` comes back whole |
| GridModel.ZeroMinimumCanRequeueParent | src/grid.js:30-39 | with `gridMin = 0`, a draw of 0 puts an exact copy of the parent back in the queue, which is why termination needs `gridMin >= 1` |
| GridModel.UnsplittableRegionStaysWhole | src/grid.js:30-42 | a 4 × 4 region with `gridMin = 4` is returned as the single rectangle `(0, 0, 4, 4)` |
| GridModel.DoubleMinimumIsNotCut | src/grid.js:30-42 | an 8 × 4 region with `gridMin = 4` (cut side exactly `2 * gridMin`) is returned whole |
| GridModel.JustSplittableRegionIsCutOnce | src/grid.js:26-42 | a 9 × 4 region with `gridMin = 4` is cut once across its width into two height-4 rectangles whose widths are at least 4 and sum to 9, and both are then finalized |
| GridModel.GridJsSplitCurrentRect | src/grid.js:31 | the `grid.js` step succeeds exactly when no queued rectangle needs cutting, and then agrees with the working step |
| GridModel.GridJsFailsOnJustSplittableRegion | src/grid.js:31 | the `grid.js` step throws `ReferenceError` on a 9 × 4 region with `gridMin = 4` |
| App.UnitsToCover | src/index.js:167-168 | `Math.ceil(len / 50)` is the least n with `len <= n * 50` |
| App.InitLayout | src/index.js:166-175 | the grid is five window-covering unit counts wide and high, so a window of positive size gives `gridColumns, gridRows >= 5 > gridMin`; `widthRest` is the overhang in `[0, 50)`; `centerX` puts the window's span at the middle of the grid; the offsets are non-negative |
| App.InitGrid | src/index.js:166-179 | for any window of positive size, the generated rectangles tile the grid and each is 3 to 6 units on a side; the image tiles of `initRectsAndImages` (src/index.js:258-261) are at least 130 pixels on a side and pairwise non-overlapping |
| App.TileSprite | src/index.js:258-261 | a tile starts at its rectangle's pixel origin and ends `imagePadding` pixels short of the far edges; a rectangle at least `gridMin` on a side gives a side of at least `3 * 50 - 20 = 130` pixels |
| App.DisjointRectsGiveDisjointSprites | src/index.js:258-261 | disjoint grid rectangles give non-overlapping image tiles, at least `imagePadding` pixels apart on the separating side |
| App.ViewportTestIsOverlap | src/index.js:494-501 | for non-negative sizes, `App.RectIntersectsWithViewport` (the four comparisons of `rectIntersectsWithViewport`) holds exactly when the closed pixel interval of the rectangle meets `[0, width]` on x and `[0, height]` on y |
| App.ClampPan | src/index.js:572-573 | when the allowed range contains 0, the result lies in `[-(center + rest), center + imagePadding]`; a value already in that range is unchanged |
| App.ClampPanIsClamp | src/index.js:572 | when the allowed range contains 0, the two-branch clamp equals the ordinary clamp to that range |
| App.ClampPanIdempotent | src/index.js:572 | clamping twice is the same as clamping once |
| App.AppPanRangeContainsZero | src/index.js:172-175 | for the page's own settings, both pan ranges contain 0, so the clamp properties apply on both axes |

## Left out

- Floating point: `Math.random()` is an exact rational in `[0, 1)`, and `Math.floor(u * n)` is computed without rounding. Pointer positions, `container.x`/`container.y` and the eased pan offsets are modelled as integers.
- Randomness.RandomInRange: states the range and that every value is reachable, not that the distribution is uniform, because the model has no probabilities.
- GridModel.SplitCurrentRect: the call-stack depth of the source's recursion is not modelled. The finalize branch calls itself once for each rectangle it finalizes in a row (src/grid.js:42), and the last call finalizes the whole remaining queue. On a very large window that queue can hold thousands of rectangles, and the engine may then throw `RangeError` (maximum call stack size exceeded). The model's step is a total function, so the tiling claims of `GridModel.Generate` and `App.InitGrid` assume the engine's stack is deep enough.
- GridModel.GenerateRects and GridModel.Generate require `gridMin >= 1`. The source does not check this. With `gridMin = 0`, a draw of 0 can requeue a rectangle unchanged forever, and a terminating model cannot express that divergence (see `GridModel.ZeroMinimumCanRequeueParent`).
- The source performs no input validation. There is no `InvalidConfiguration` error and no failure of the random source. The model follows the code: tiling holds for any non-empty region, and the size bounds hold when both sides are at least `gridMin`.
- `gridSize` is stored by the constructor but never used by the generator, and the model carries it unchanged.
- The GLSL shaders, all PIXI sprite, graphics, stage and filter construction, and the ticker easing and alpha fading of `checkRectsAndImages` are left out. They are calls into the rendering library and floating-point animation.
- `loadTextureForImage` (fetch, abort, URL de-duplication) is left out because it is network I/O.
- The detail view, download, close, slider and checkbox handlers, and `adaptFilters` are left out. They are UI and library calls with no logic of their own.
- `src/filtergallery.js` is left out. It is renderer and GUI setup plus float scaling.
- `onPointerDown` and `onPointerUp` only record pointer state, and the model leaves them out. `onPointerTap` builds the detail image URL and opens the detail view; like the other detail-view handlers it is UI with no logic of its own. Of `onPointerMove`, only the clamp (line 572, and its y-axis twin on line 573) is modelled.

## Findings

| source | as written | input that shows it | evidently intended | confidence | as-written member | corrected member |
|---|---|---|---|---|---|---|
| src/grid.js:31 | `splitCurrentRect` calls `randomInRange`, but `grid.js` neither defines nor imports it; only `src/index.js:124-126` defines it | `new Grid(10, 9, 4, 4).generateRects()` from the exported module, or any region with a cut side above `2 * gridMin`, throws `ReferenceError` | the step draws the cut with `randomInRange` as in `src/index.js:97,124-126` | medium (not executed) | GridModel.GridJsSplitCurrentRect, GridModel.GridJsFailsOnJustSplittableRegion | GridModel.SplitCurrentRect, with GridModel.SplitCurrentRectKeepsTiling |
