/** The integer geometry of the gallery page around the generator: the grid
    settings derived from the window size, the image tile drawn for each
    rectangle, the viewport visibility test, and the clamp on panning. */
module App {
  import opened Geometry
  import opened Randomness
  import opened GridModel

  /** Side of one grid unit, in pixels. */
  const GridSize: int := 50
  /** Minimum side of a rectangle, in grid units. */
  const GridMin: int := 3
  /** Gap left between neighbouring image tiles, in pixels. */
  const ImagePadding: int := 20

  /** `Math.ceil(len / gridSize)`: the number of grid units needed to span len pixels. */
  function UnitsToCover(len: int): (n: int)
    ensures (n - 1) * GridSize < len <= n * GridSize
  {
    -((-len) / GridSize)
  }

  /** The grid settings `initGrid` derives from the window size. */
  datatype Layout = Layout(gridColumnsCount: int, gridRowsCount: int,
                           gridColumns: int, gridRows: int,
                           widthRest: int, heightRest: int,
                           centerX: int, centerY: int)

  /** `initGrid` without the generator call: the grid is five windows wide and
      five windows high, and the window starts out over its centre. */
  function InitLayout(width: int, height: int): (l: Layout)
    ensures (l.gridColumnsCount - 1) * GridSize < width <= l.gridColumnsCount * GridSize
    ensures (l.gridRowsCount - 1) * GridSize < height <= l.gridRowsCount * GridSize
    ensures l.gridColumns == 5 * l.gridColumnsCount && l.gridRows == 5 * l.gridRowsCount
    ensures width >= 1 ==> l.gridColumns >= 5 && l.gridColumns > GridMin
    ensures height >= 1 ==> l.gridRows >= 5 && l.gridRows > GridMin
    ensures 0 <= l.widthRest < GridSize && 0 <= l.heightRest < GridSize
    ensures width + l.widthRest == l.gridColumnsCount * GridSize
    ensures height + l.heightRest == l.gridRowsCount * GridSize
    ensures 2 * l.centerX + l.gridColumnsCount * GridSize == l.gridColumns * GridSize
    ensures 2 * l.centerY + l.gridRowsCount * GridSize == l.gridRows * GridSize
    ensures width >= 0 ==> l.centerX >= 0
    ensures height >= 0 ==> l.centerY >= 0
  {
    var columnsCount := UnitsToCover(width);
    var rowsCount := UnitsToCover(height);
    var columns := columnsCount * 5;
    var rows := rowsCount * 5;
    assert columns * GridSize / 2 == 125 * columnsCount && columnsCount * GridSize / 2 == 25 * columnsCount;
    assert rows * GridSize / 2 == 125 * rowsCount && rowsCount * GridSize / 2 == 25 * rowsCount;
    Layout(columnsCount, rowsCount, columns, rows,
           columnsCount * GridSize - width, rowsCount * GridSize - height,
           columns * GridSize / 2 - columnsCount * GridSize / 2,
           rows * GridSize / 2 - rowsCount * GridSize / 2)
  }

  /** Position and size of an image Sprite, in pixels. */
  datatype Sprite = Sprite(x: int, y: int, width: int, height: int)

  /** The image tile `initRectsAndImages` places on a rectangle: it starts at the
      rectangle's pixel origin and stops ImagePadding pixels short of its far edges. */
  function TileSprite(r: Rect): (s: Sprite)
    ensures s.x == r.x * GridSize && s.y == r.y * GridSize
    ensures s.x + s.width + ImagePadding == (r.x + r.w) * GridSize
    ensures s.y + s.height + ImagePadding == (r.y + r.h) * GridSize
    ensures r.w >= GridMin ==> s.width >= GridMin * GridSize - ImagePadding > 0
    ensures r.h >= GridMin ==> s.height >= GridMin * GridSize - ImagePadding > 0
  {
    Sprite(r.x * GridSize, r.y * GridSize, r.w * GridSize - ImagePadding, r.h * GridSize - ImagePadding)
  }

  /** The half-open pixel boxes of two sprites do not overlap. */
  predicate SpritesDisjoint(a: Sprite, b: Sprite)
  {
    a.x + a.width <= b.x || b.x + b.width <= a.x || a.y + a.height <= b.y || b.y + b.height <= a.y
  }

  /** Disjoint grid rectangles give disjoint image tiles, with a gap of at least
      ImagePadding pixels on the side that separates them. */
  lemma DisjointRectsGiveDisjointSprites(a: Rect, b: Rect)
    requires Disjoint(a, b)
    ensures SpritesDisjoint(TileSprite(a), TileSprite(b))
    ensures var sa, sb := TileSprite(a), TileSprite(b);
            || sa.x + sa.width + ImagePadding <= sb.x
            || sb.x + sb.width + ImagePadding <= sa.x
            || sa.y + sa.height + ImagePadding <= sb.y
            || sb.y + sb.height + ImagePadding <= sa.y
  {
    var sa := TileSprite(a);
    var sb := TileSprite(b);
    if a.x + a.w <= b.x {
      assert (a.x + a.w) * GridSize <= b.x * GridSize;
    } else if b.x + b.w <= a.x {
      assert (b.x + b.w) * GridSize <= a.x * GridSize;
    } else if a.y + a.h <= b.y {
      assert (a.y + a.h) * GridSize <= b.y * GridSize;
    } else {
      assert (b.y + b.h) * GridSize <= a.y * GridSize;
    }
  }

  /** `initGrid` followed by the tiles of `initRectsAndImages`: for any window of
      positive size the rectangles tile the grid, each is 3 to 6 units on a side,
      and their image tiles are at least 130 pixels on a side and never overlap. */
  method InitGrid(width: int, height: int, rnd: nat -> Random)
    returns (l: Layout, rects: seq<Rect>, sprites: seq<Sprite>)
    ensures l == InitLayout(width, height)
    ensures |sprites| == |rects| && forall i :: 0 <= i < |rects| ==> sprites[i] == TileSprite(rects[i])
    ensures width >= 1 && height >= 1 ==>
              && Tiles(rects, l.gridColumns, l.gridRows)
              && (forall i :: 0 <= i < |rects| ==> WithinBounds(rects[i], GridMin))
              && (forall i :: 0 <= i < |sprites| ==> sprites[i].width >= 130 && sprites[i].height >= 130)
              && (forall i, j :: 0 <= i < j < |sprites| ==> SpritesDisjoint(sprites[i], sprites[j]))
  {
    l := InitLayout(width, height);
    rects := Generate(GridSize, l.gridColumns, l.gridRows, GridMin, rnd);
    sprites := [];
    var k := 0;
    while k < |rects|
      invariant 0 <= k <= |rects|
      invariant |sprites| == k && forall i :: 0 <= i < k ==> sprites[i] == TileSprite(rects[i])
    {
      sprites := sprites + [TileSprite(rects[k])];
      k := k + 1;
    }
    if width >= 1 && height >= 1 {
      ExactCoverIffPartition(rects, l.gridColumns, l.gridRows);
      forall i, j | 0 <= i < j < |sprites|
        ensures SpritesDisjoint(sprites[i], sprites[j])
      {
        DisjointRectsGiveDisjointSprites(rects[i], rects[j]);
      }
    }
  }

  /** `rectIntersectsWithViewport`: the rectangle's pixel span, shifted by the
      container offset, reaches the window [0, width] × [0, height]. */
  function RectIntersectsWithViewport(r: Rect, containerX: int, containerY: int,
                                      width: int, height: int): bool
  {
    r.x * GridSize + containerX <= width &&
    0 <= (r.x + r.w) * GridSize + containerX &&
    r.y * GridSize + containerY <= height &&
    0 <= (r.y + r.h) * GridSize + containerY
  }

  predicate InInterval(t: int, lo: int, hi: int)
  {
    lo <= t <= hi
  }

  /** The closed intervals [lo1, hi1] and [lo2, hi2] share a point. */
  ghost predicate IntervalsMeet(lo1: int, hi1: int, lo2: int, hi2: int)
  {
    exists t :: InInterval(t, lo1, hi1) && InInterval(t, lo2, hi2)
  }

  /** The visibility test is an interval-overlap test on each axis. */
  lemma ViewportTestIsOverlap(r: Rect, containerX: int, containerY: int, width: int, height: int)
    requires r.w >= 0 && r.h >= 0 && width >= 0 && height >= 0
    ensures RectIntersectsWithViewport(r, containerX, containerY, width, height) <==>
              && IntervalsMeet(r.x * GridSize + containerX, (r.x + r.w) * GridSize + containerX, 0, width)
              && IntervalsMeet(r.y * GridSize + containerY, (r.y + r.h) * GridSize + containerY, 0, height)
  {
    var loX, hiX := r.x * GridSize + containerX, (r.x + r.w) * GridSize + containerX;
    var loY, hiY := r.y * GridSize + containerY, (r.y + r.h) * GridSize + containerY;
    if RectIntersectsWithViewport(r, containerX, containerY, width, height) {
      var tx := if loX < 0 then 0 else loX;
      var ty := if loY < 0 then 0 else loY;
      assert InInterval(tx, loX, hiX) && InInterval(tx, 0, width);
      assert InInterval(ty, loY, hiY) && InInterval(ty, 0, height);
    }
  }

  /** The pan clamp of `onPointerMove` on one axis: a positive offset is capped at
      center + ImagePadding, any other at -(center + rest). */
  function ClampPan(diff: int, center: int, rest: int): (d: int)
    ensures -(center + rest) <= 0 <= center + ImagePadding ==>
              -(center + rest) <= d <= center + ImagePadding
    ensures -(center + rest) <= diff <= center + ImagePadding ==> d == diff
  {
    if diff > 0 then
      (if diff < center + ImagePadding then diff else center + ImagePadding)
    else
      (if diff > -(center + rest) then diff else -(center + rest))
  }

  /** Clamping v to [lo, hi]. */
  function Clamp(v: int, lo: int, hi: int): int
  {
    if v < lo then lo else if v > hi then hi else v
  }

  /** When the allowed range contains 0, the pan clamp is the ordinary clamp to
      [-(center + rest), center + ImagePadding]. */
  lemma ClampPanIsClamp(diff: int, center: int, rest: int)
    requires -(center + rest) <= 0 <= center + ImagePadding
    ensures ClampPan(diff, center, rest) == Clamp(diff, -(center + rest), center + ImagePadding)
  {
  }

  /** Clamping an already clamped offset changes nothing. */
  lemma ClampPanIdempotent(diff: int, center: int, rest: int)
    requires -(center + rest) <= 0 <= center + ImagePadding
    ensures ClampPan(ClampPan(diff, center, rest), center, rest) == ClampPan(diff, center, rest)
  {
  }

  /** In the app the allowed pan range always contains 0, on both axes. */
  lemma AppPanRangeContainsZero(width: int, height: int)
    requires width >= 0 && height >= 0
    ensures var l := InitLayout(width, height);
            && -(l.centerX + l.widthRest) <= 0 <= l.centerX + ImagePadding
            && -(l.centerY + l.heightRest) <= 0 <= l.centerY + ImagePadding
  {
  }
}
