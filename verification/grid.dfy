/** The random masonry layout generator: the `Grid` class. A queue of pending
    rectangles starts with the whole region; each step finalizes the
    rectangles too small to cut and cuts the first one that is large enough
    in two at a random position. */
module GridModel {
  import opened Geometry
  import opened Randomness
  import opened Wrappers

  /** State of one generator: its settings, the finalized rectangles `rects` and
      the queue `currentRects` of rectangles still to be examined. */
  datatype Grid = Grid(gridSize: int, gridColumns: int, gridRows: int, gridMin: int,
                       rects: seq<Rect>, currentRects: seq<Rect>)

  /** The constructor: nothing finalized, the whole region queued. */
  function NewGrid(gridSize: int, gridColumns: int, gridRows: int, gridMin: int): Grid
  {
    Grid(gridSize, gridColumns, gridRows, gridMin, [], [Rect(0, 0, gridColumns, gridRows)])
  }

  /** Two states carry the same settings. */
  predicate SameSettings(g: Grid, g': Grid)
  {
    g'.gridSize == g.gridSize && g'.gridColumns == g.gridColumns &&
    g'.gridRows == g.gridRows && g'.gridMin == g.gridMin
  }

  /** The width is cut only when it is strictly the longer side. */
  predicate CutVertical(r: Rect)
  {
    r.w > r.h
  }

  /** Length of the side that would be cut. */
  function CutSide(r: Rect): int
  {
    if CutVertical(r) then r.w else r.h
  }

  /** r is cut, rather than finalized, when it is taken from the queue. */
  predicate Splittable(r: Rect, gridMin: int)
  {
    CutSide(r) > gridMin * 2
  }

  /** Cuts r across its cut side: the first child keeps the first `size` units
      of that side, the second child the rest. */
  function Split(r: Rect, size: int): (children: (Rect, Rect))
    ensures forall px, py :: !(Contains(children.0, px, py) && Contains(children.1, px, py))
    ensures 0 <= size <= CutSide(r) ==>
              forall px, py :: Contains(r, px, py) <==>
                Contains(children.0, px, py) || Contains(children.1, px, py)
    ensures Area(children.0) + Area(children.1) == Area(r)
    ensures CutVertical(r) ==>
              children.0.h == r.h == children.1.h && children.0.w == size &&
              children.0.w + children.1.w == r.w
    ensures !CutVertical(r) ==>
              children.0.w == r.w == children.1.w && children.0.h == size &&
              children.0.h + children.1.h == r.h
    ensures children.0.x == r.x && children.0.y == r.y
    ensures CutVertical(r) ==> children.1.x == r.x + size && children.1.y == r.y
    ensures !CutVertical(r) ==> children.1.x == r.x && children.1.y == r.y + size
  {
    if CutVertical(r) then
      assert size * r.h + (r.w - size) * r.h == r.w * r.h;
      (r.(w := size), r.(x := r.x + size, w := r.w - size))
    else
      assert r.w * size + r.w * (r.h - size) == r.w * r.h;
      (r.(h := size), r.(y := r.y + size, h := r.h - size))
  }

  /** The two rectangles that replace r when it is cut at the position drawn from u. */
  function Children(r: Rect, gridMin: int, u: Random): seq<Rect>
  {
    var c := Split(r, RandomInRange(gridMin, CutSide(r) - gridMin, u));
    [c.0, c.1]
  }

  /** Position k holds the first rectangle of q that will be cut. */
  predicate FirstSplittableAt(q: seq<Rect>, gridMin: int, k: int)
  {
    0 <= k < |q| && Splittable(q[k], gridMin) &&
    forall i :: 0 <= i < k ==> !Splittable(q[i], gridMin)
  }

  predicate NoneSplittable(q: seq<Rect>, gridMin: int)
  {
    forall i :: 0 <= i < |q| ==> !Splittable(q[i], gridMin)
  }

  /** `splitCurrentRect`: takes the front rectangle; finalizes it and repeats while
      it is too small to cut; cuts the first large enough one, using one value
      u of `Math.random()`, and queues both children at the back. */
  function SplitCurrentRect(g: Grid, u: Random): (g': Grid)
    decreases |g.currentRects|
    ensures SameSettings(g, g')
    ensures g.currentRects == [] ==> g' == g
    ensures g.rects <= g'.rects
  {
    if |g.currentRects| == 0 then g
    else
      var current := g.currentRects[0];
      if Splittable(current, g.gridMin) then
        g.(currentRects := g.currentRects[1..] + Children(current, g.gridMin, u))
      else
        SplitCurrentRect(g.(rects := g.rects + [current], currentRects := g.currentRects[1..]), u)
  }

  /** When no queued rectangle is large enough to cut, one step finalizes the
      whole queue in order. */
  lemma {:induction false} SplitCurrentRectFinalizesAll(g: Grid, u: Random)
    requires NoneSplittable(g.currentRects, g.gridMin)
    ensures SplitCurrentRect(g, u).rects == g.rects + g.currentRects
    ensures SplitCurrentRect(g, u).currentRects == []
    decreases |g.currentRects|
  {
    if |g.currentRects| == 0 {
      assert g.rects + g.currentRects == g.rects;
    } else {
      var g1 := g.(rects := g.rects + [g.currentRects[0]], currentRects := g.currentRects[1..]);
      assert NoneSplittable(g1.currentRects, g.gridMin) by {
        forall i | 0 <= i < |g1.currentRects|
          ensures !Splittable(g1.currentRects[i], g.gridMin)
        {
          assert g1.currentRects[i] == g.currentRects[i + 1];
        }
      }
      SplitCurrentRectFinalizesAll(g1, u);
      assert g.rects + g.currentRects == g1.rects + g1.currentRects;
    }
  }

  /** When position k holds the first rectangle large enough to cut, one step
      finalizes the rectangles before it in queue order and replaces it by its
      two children at the back of the queue. */
  lemma {:induction false} SplitCurrentRectCutsFirstSplittable(g: Grid, u: Random, k: int)
    requires FirstSplittableAt(g.currentRects, g.gridMin, k)
    ensures SplitCurrentRect(g, u).rects == g.rects + g.currentRects[..k]
    ensures SplitCurrentRect(g, u).currentRects ==
              g.currentRects[k + 1..] + Children(g.currentRects[k], g.gridMin, u)
    decreases k
  {
    if k == 0 {
      assert g.currentRects[..0] == [];
      assert g.rects + [] == g.rects;
    } else {
      var g1 := g.(rects := g.rects + [g.currentRects[0]], currentRects := g.currentRects[1..]);
      assert !Splittable(g.currentRects[0], g.gridMin);
      assert FirstSplittableAt(g1.currentRects, g.gridMin, k - 1) by {
        forall i | 0 <= i < k - 1
          ensures !Splittable(g1.currentRects[i], g.gridMin)
        {
          assert g1.currentRects[i] == g.currentRects[i + 1];
        }
        assert g1.currentRects[k - 1] == g.currentRects[k];
      }
      SplitCurrentRectCutsFirstSplittable(g1, u, k - 1);
      assert g.rects + g.currentRects[..k] == g1.rects + g1.currentRects[..k - 1];
      assert g.currentRects[k + 1..] == g1.currentRects[k..];
    }
  }

  /** The finalized rectangles followed by the queued ones tile the region. */
  ghost predicate Tiling(g: Grid)
  {
    Tiles(g.rects + g.currentRects, g.gridColumns, g.gridRows)
  }

  /** Queued rectangles are at least gridMin on each side; finalized ones are
      also at most 2 * gridMin. */
  ghost predicate SizeBounds(g: Grid)
  {
    && (forall i :: 0 <= i < |g.currentRects| ==>
          g.currentRects[i].w >= g.gridMin && g.currentRects[i].h >= g.gridMin)
    && (forall i :: 0 <= i < |g.rects| ==> WithinBounds(g.rects[i], g.gridMin))
  }

  predicate WithinBounds(r: Rect, gridMin: int)
  {
    gridMin <= r.w <= 2 * gridMin && gridMin <= r.h <= 2 * gridMin
  }

  /** The freshly constructed generator tiles a non-empty region with its one rectangle. */
  lemma NewGridTiling(gridSize: int, gridColumns: int, gridRows: int, gridMin: int)
    requires gridColumns >= 1 && gridRows >= 1
    ensures Tiling(NewGrid(gridSize, gridColumns, gridRows, gridMin))
  {
    var g := NewGrid(gridSize, gridColumns, gridRows, gridMin);
    var r := Rect(0, 0, gridColumns, gridRows);
    assert g.rects + g.currentRects == [r];
    assert [r][1..] == [];
    forall px, py
      ensures Count([r], px, py) == if InRegion(gridColumns, gridRows, px, py) then 1 else 0
    {
    }
    assert TotalArea([r]) == gridColumns * gridRows;
    assert ExactCover([r], gridColumns, gridRows);
  }

  lemma NewGridSizeBounds(gridSize: int, gridColumns: int, gridRows: int, gridMin: int)
    requires gridColumns >= gridMin && gridRows >= gridMin
    ensures SizeBounds(NewGrid(gridSize, gridColumns, gridRows, gridMin))
  {
  }

  /** Cutting a rectangle whose cut side exceeds 2 * gridMin leaves two children at
      least gridMin on each side that replace it cell for cell and area for area. */
  lemma ChildrenReplaceParent(r: Rect, gridMin: int, u: Random)
    requires gridMin >= 1 && Splittable(r, gridMin)
    ensures var c := Children(r, gridMin, u);
            && (forall px, py :: Count(c, px, py) == Count([r], px, py))
            && TotalArea(c) == TotalArea([r])
            && (r.w >= gridMin && r.h >= gridMin ==>
                  c[0].w >= gridMin && c[0].h >= gridMin && c[1].w >= gridMin && c[1].h >= gridMin)
            && (Positive(r) ==> Positive(c[0]) && Positive(c[1]))
            && (CutVertical(r) ==> c[0].w >= gridMin && c[1].w >= gridMin)
            && (!CutVertical(r) ==> c[0].h >= gridMin && c[1].h >= gridMin)
  {
    var c := Children(r, gridMin, u);
    forall px, py
      ensures Count(c, px, py) == Count([r], px, py)
    {
      assert c[1..][1..] == [];
      assert [r][1..] == [];
    }
    assert c[1..][1..] == [];
    assert [r][1..] == [];
  }

  /** A step keeps the tiling: finalizing only moves a rectangle from the queue
      to the output, and a cut replaces one rectangle by two that cover the same cells. */
  lemma {:induction false} SplitCurrentRectKeepsTiling(g: Grid, u: Random)
    requires g.gridMin >= 1 && Tiling(g)
    ensures Tiling(SplitCurrentRect(g, u))
    decreases |g.currentRects|
  {
    if |g.currentRects| > 0 {
      var current := g.currentRects[0];
      var rest := g.currentRects[1..];
      var all := g.rects + g.currentRects;
      assert all == g.rects + [current] + rest;
      if Splittable(current, g.gridMin) {
        var c := Children(current, g.gridMin, u);
        var all' := g.rects + (rest + c);
        assert all' == g.rects + rest + c;
        ChildrenReplaceParent(current, g.gridMin, u);
        forall px, py
          ensures Count(all', px, py) == Count(all, px, py)
        {
          CountAppend(g.rects + rest, c, px, py);
          CountAppend(g.rects, rest, px, py);
          CountAppend(g.rects + [current], rest, px, py);
          CountAppend(g.rects, [current], px, py);
        }
        TotalAreaAppend(g.rects + rest, c);
        TotalAreaAppend(g.rects, rest);
        TotalAreaAppend(g.rects + [current], rest);
        TotalAreaAppend(g.rects, [current]);
        assert Positive(current) by {
          assert current == all[|g.rects|];
        }
        forall i | 0 <= i < |all'|
          ensures Positive(all'[i])
        {
          if i < |g.rects| {
            assert all'[i] == all[i];
          } else if i < |g.rects| + |rest| {
            assert all'[i] == all[i + 1];
          }
        }
      } else {
        var g1 := g.(rects := g.rects + [current], currentRects := rest);
        assert g1.rects + g1.currentRects == all;
        SplitCurrentRectKeepsTiling(g1, u);
      }
    }
  }

  /** A step keeps the size bounds: only rectangles whose cut side is at most
      2 * gridMin are finalized, and cuts leave both children at least gridMin. */
  lemma {:induction false} SplitCurrentRectKeepsSizeBounds(g: Grid, u: Random)
    requires g.gridMin >= 1 && SizeBounds(g)
    ensures SizeBounds(SplitCurrentRect(g, u))
    decreases |g.currentRects|
  {
    if |g.currentRects| > 0 {
      var current := g.currentRects[0];
      var rest := g.currentRects[1..];
      if Splittable(current, g.gridMin) {
        ChildrenReplaceParent(current, g.gridMin, u);
        var q := rest + Children(current, g.gridMin, u);
        forall i | 0 <= i < |q|
          ensures q[i].w >= g.gridMin && q[i].h >= g.gridMin
        {
          if i < |rest| {
            assert q[i] == g.currentRects[i + 1];
          }
        }
      } else {
        var g1 := g.(rects := g.rects + [current], currentRects := rest);
        assert WithinBounds(current, g.gridMin);
        assert forall i :: 0 <= i < |rest| ==> rest[i] == g.currentRects[i + 1];
        SplitCurrentRectKeepsSizeBounds(g1, u);
      }
    }
  }

  /** Weight of a queued rectangle; a cut turns one weight into two that sum to
      one less, so the total bounds the number of remaining steps. */
  function Weight(r: Rect): nat
  {
    2 * AtLeastOne(r.w) * AtLeastOne(r.h) - 1
  }

  function AtLeastOne(n: int): nat
  {
    if n >= 1 then n else 1
  }

  function Potential(q: seq<Rect>): nat
  {
    if |q| == 0 then 0 else Weight(q[0]) + Potential(q[1..])
  }

  lemma {:induction false} PotentialAppend(a: seq<Rect>, b: seq<Rect>)
    ensures Potential(a + b) == Potential(a) + Potential(b)
  {
    if |a| == 0 {
      assert a + b == b;
    } else {
      assert (a + b)[1..] == a[1..] + b;
      PotentialAppend(a[1..], b);
    }
  }

  /** Cutting lowers the total weight by exactly one. */
  lemma ChildrenWeighOneLess(r: Rect, gridMin: int, u: Random)
    requires gridMin >= 1 && Splittable(r, gridMin)
    ensures Potential(Children(r, gridMin, u)) == Weight(r) - 1
  {
    var c := Children(r, gridMin, u);
    ChildrenReplaceParent(r, gridMin, u);
    assert c[1..][1..] == [];
    assert Potential(c[1..]) == Weight(c[1]) + Potential(c[1..][1..]);
    var a := AtLeastOne(r.w);
    var b := AtLeastOne(r.h);
    if CutVertical(r) {
      assert a == c[0].w + c[1].w;
      assert AtLeastOne(c[0].h) == b == AtLeastOne(c[1].h);
      assert 2 * c[0].w * b + 2 * c[1].w * b == 2 * (c[0].w + c[1].w) * b;
    } else {
      assert b == c[0].h + c[1].h;
      assert AtLeastOne(c[0].w) == a == AtLeastOne(c[1].w);
      assert 2 * a * c[0].h + 2 * a * c[1].h == 2 * a * (c[0].h + c[1].h);
    }
  }

  /** With gridMin >= 1 every step on a non-empty queue lowers the potential,
      so the generator stops. */
  lemma {:induction false} SplitCurrentRectLowersPotential(g: Grid, u: Random)
    requires g.gridMin >= 1 && |g.currentRects| > 0
    ensures Potential(SplitCurrentRect(g, u).currentRects) < Potential(g.currentRects)
    decreases |g.currentRects|
  {
    var current := g.currentRects[0];
    var rest := g.currentRects[1..];
    if Splittable(current, g.gridMin) {
      var c := Children(current, g.gridMin, u);
      ChildrenWeighOneLess(current, g.gridMin, u);
      PotentialAppend(rest, c);
      assert SplitCurrentRect(g, u).currentRects == rest + c;
    } else if |rest| > 0 {
      var g1 := g.(rects := g.rects + [current], currentRects := rest);
      SplitCurrentRectLowersPotential(g1, u);
    }
  }

  /** `generateRects`: calls `splitCurrentRect` until the queue is empty, the i-th
      call drawing from the i-th value rnd(i) of `Math.random()`, and returns the
      finalized rectangles. */
  method GenerateRects(g0: Grid, rnd: nat -> Random) returns (rects: seq<Rect>, g: Grid)
    requires g0.gridMin >= 1
    ensures g.currentRects == [] && rects == g.rects && SameSettings(g0, g)
    ensures g0.rects <= rects
    ensures Tiling(g0) ==> Tiles(rects, g0.gridColumns, g0.gridRows)
    ensures SizeBounds(g0) ==> forall i :: 0 <= i < |rects| ==> WithinBounds(rects[i], g0.gridMin)
    ensures NoneSplittable(g0.currentRects, g0.gridMin) ==> rects == g0.rects + g0.currentRects
  {
    g := g0;
    var i: nat := 0;
    while |g.currentRects| > 0
      invariant SameSettings(g0, g)
      invariant g0.rects <= g.rects
      invariant Tiling(g0) ==> Tiling(g)
      invariant SizeBounds(g0) ==> SizeBounds(g)
      invariant i == 0 ==> g == g0
      invariant i > 0 && NoneSplittable(g0.currentRects, g0.gridMin) ==>
                  g.rects == g0.rects + g0.currentRects && g.currentRects == []
      decreases Potential(g.currentRects)
    {
      var u := rnd(i);
      if NoneSplittable(g.currentRects, g.gridMin) {
        SplitCurrentRectFinalizesAll(g, u);
      }
      SplitCurrentRectLowersPotential(g, u);
      if Tiling(g) {
        SplitCurrentRectKeepsTiling(g, u);
      }
      if SizeBounds(g) {
        SplitCurrentRectKeepsSizeBounds(g, u);
      }
      g := SplitCurrentRect(g, u);
      i := i + 1;
    }
    rects := g.rects;
    assert g.rects + g.currentRects == rects;
  }

  /** `new Grid(gridSize, gridColumns, gridRows, gridMin).generateRects()`: for
      gridMin >= 1 the result tiles the region, and when the region is at least
      gridMin on each side every rectangle is between gridMin and 2 * gridMin on
      each side. */
  method Generate(gridSize: int, gridColumns: int, gridRows: int, gridMin: int, rnd: nat -> Random)
    returns (rects: seq<Rect>)
    requires gridMin >= 1
    ensures gridColumns >= 1 && gridRows >= 1 ==> Tiles(rects, gridColumns, gridRows)
    ensures gridColumns >= gridMin && gridRows >= gridMin ==>
              forall i :: 0 <= i < |rects| ==> WithinBounds(rects[i], gridMin)
    ensures !Splittable(Rect(0, 0, gridColumns, gridRows), gridMin) ==>
              rects == [Rect(0, 0, gridColumns, gridRows)]
  {
    var g0 := NewGrid(gridSize, gridColumns, gridRows, gridMin);
    if gridColumns >= 1 && gridRows >= 1 {
      NewGridTiling(gridSize, gridColumns, gridRows, gridMin);
    }
    if gridColumns >= gridMin && gridRows >= gridMin {
      NewGridSizeBounds(gridSize, gridColumns, gridRows, gridMin);
    }
    var g;
    rects, g := GenerateRects(g0, rnd);
  }

  /** With gridMin = 0 a draw of 0 queues an exact copy of the rectangle being
      cut, so the queue can stay non-empty forever: termination needs gridMin >= 1. */
  lemma ZeroMinimumCanRequeueParent()
    ensures var g := NewGrid(50, 1, 1, 0);
            SplitCurrentRect(g, Fraction(0, 1)).currentRects[1] == g.currentRects[0]
  {
    var g := NewGrid(50, 1, 1, 0);
    assert FirstSplittableAt(g.currentRects, 0, 0);
    SplitCurrentRectCutsFirstSplittable(g, Fraction(0, 1), 0);
  }

  /** A region exactly gridMin on each side is returned whole. */
  lemma UnsplittableRegionStaysWhole(u: Random)
    ensures var g := SplitCurrentRect(NewGrid(10, 4, 4, 4), u);
            g.rects == [Rect(0, 0, 4, 4)] && g.currentRects == []
  {
    assert NoneSplittable(NewGrid(10, 4, 4, 4).currentRects, 4);
    SplitCurrentRectFinalizesAll(NewGrid(10, 4, 4, 4), u);
  }

  /** A cut side of exactly 2 * gridMin is not cut. */
  lemma DoubleMinimumIsNotCut(u: Random)
    ensures var g := SplitCurrentRect(NewGrid(10, 8, 4, 4), u);
            g.rects == [Rect(0, 0, 8, 4)] && g.currentRects == []
  {
    assert NoneSplittable(NewGrid(10, 8, 4, 4).currentRects, 4);
    SplitCurrentRectFinalizesAll(NewGrid(10, 8, 4, 4), u);
  }

  /** A 9 × 4 region with gridMin 4 is cut once across its width into two
      rectangles of height 4, and both are then finalized. */
  lemma JustSplittableRegionIsCutOnce(u: Random, u': Random)
    ensures var g1 := SplitCurrentRect(NewGrid(10, 9, 4, 4), u);
            var g2 := SplitCurrentRect(g1, u');
            && g1.rects == [] && |g1.currentRects| == 2
            && g1.currentRects[0].w + g1.currentRects[1].w == 9
            && g1.currentRects[0].w >= 4 && g1.currentRects[1].w >= 4
            && g1.currentRects[0].h == 4 == g1.currentRects[1].h
            && g2.rects == g1.currentRects && g2.currentRects == []
  {
    var g0 := NewGrid(10, 9, 4, 4);
    assert FirstSplittableAt(g0.currentRects, 4, 0);
    SplitCurrentRectCutsFirstSplittable(g0, u, 0);
    ChildrenReplaceParent(g0.currentRects[0], 4, u);
    var g1 := SplitCurrentRect(g0, u);
    assert g1.currentRects == Children(g0.currentRects[0], 4, u);
    assert NoneSplittable(g1.currentRects, 4);
    SplitCurrentRectFinalizesAll(g1, u');
  }

  /** Failure raised by the JavaScript engine. */
  datatype Fault = ReferenceError(name: string)

  /** `splitCurrentRect` as written in src/grid.js, which calls `randomInRange`
      without defining or importing it: finalizing works, but reaching a
      rectangle that must be cut throws. */
  function GridJsSplitCurrentRect(g: Grid): (res: Result<Grid, Fault>)
    decreases |g.currentRects|
    ensures res.Success? <==> NoneSplittable(g.currentRects, g.gridMin)
    ensures res.Success? ==> forall u: Random :: res.value == SplitCurrentRect(g, u)
  {
    if |g.currentRects| == 0 then Success(g)
    else
      var current := g.currentRects[0];
      if Splittable(current, g.gridMin) then
        Failure(ReferenceError("randomInRange"))
      else
        var g1 := g.(rects := g.rects + [current], currentRects := g.currentRects[1..]);
        assert NoneSplittable(g.currentRects, g.gridMin) <==> NoneSplittable(g1.currentRects, g.gridMin);
        GridJsSplitCurrentRect(g1)
  }

  /** The exported src/grid.js generator cannot lay out a 9 × 4 region with
      gridMin 4, which the same class in src/index.js cuts into two tiles. */
  lemma GridJsFailsOnJustSplittableRegion()
    ensures GridJsSplitCurrentRect(NewGrid(10, 9, 4, 4)) == Failure(ReferenceError("randomInRange"))
  {
    assert Splittable(NewGrid(10, 9, 4, 4).currentRects[0], 4);
  }
}
