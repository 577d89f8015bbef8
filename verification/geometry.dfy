/** Rectangles in grid units, the cells they cover, and what it means for a
    sequence of rectangles to tile a region exactly. */
module Geometry {

  /** A tile region: origin (x, y) and size w × h, all in grid units. */
  datatype Rect = Rect(x: int, y: int, w: int, h: int)

  /** Cell (px, py), the unit square [px, px+1) × [py, py+1), lies inside r. */
  predicate Contains(r: Rect, px: int, py: int)
  {
    r.x <= px < r.x + r.w && r.y <= py < r.y + r.h
  }

  /** Both sides are at least one grid unit long, so r covers at least one cell. */
  predicate Positive(r: Rect)
  {
    r.w >= 1 && r.h >= 1
  }

  /** Interval test: a and b are separated along x or along y. */
  predicate Disjoint(a: Rect, b: Rect)
  {
    a.x + a.w <= b.x || b.x + b.w <= a.x || a.y + a.h <= b.y || b.y + b.h <= a.y
  }

  function Area(r: Rect): int
  {
    r.w * r.h
  }

  /** The cell (px, py) belongs to the region [0, cols) × [0, rows). */
  predicate InRegion(cols: int, rows: int, px: int, py: int)
  {
    0 <= px < cols && 0 <= py < rows
  }

  /** r lies inside the region [0, cols) × [0, rows). */
  predicate Inside(r: Rect, cols: int, rows: int)
  {
    0 <= r.x && r.x + r.w <= cols && 0 <= r.y && r.y + r.h <= rows
  }

  /** For positive rectangles the interval test means exactly "no shared cell". */
  lemma DisjointMeansNoSharedCell(a: Rect, b: Rect)
    requires Positive(a) && Positive(b)
    ensures Disjoint(a, b) <==> forall px, py :: !(Contains(a, px, py) && Contains(b, px, py))
  {
    if !Disjoint(a, b) {
      var px := if a.x < b.x then b.x else a.x;
      var py := if a.y < b.y then b.y else a.y;
      assert Contains(a, px, py) && Contains(b, px, py);
    }
  }

  /** Number of rectangles of s that cover the cell (px, py). */
  function Count(s: seq<Rect>, px: int, py: int): nat
  {
    if |s| == 0 then 0
    else (if Contains(s[0], px, py) then 1 else 0) + Count(s[1..], px, py)
  }

  function TotalArea(s: seq<Rect>): int
  {
    if |s| == 0 then 0 else Area(s[0]) + TotalArea(s[1..])
  }

  lemma {:induction false} CountAppend(a: seq<Rect>, b: seq<Rect>, px: int, py: int)
    ensures Count(a + b, px, py) == Count(a, px, py) + Count(b, px, py)
  {
    if |a| == 0 {
      assert a + b == b;
    } else {
      assert (a + b)[1..] == a[1..] + b;
      CountAppend(a[1..], b, px, py);
    }
  }

  lemma {:induction false} TotalAreaAppend(a: seq<Rect>, b: seq<Rect>)
    ensures TotalArea(a + b) == TotalArea(a) + TotalArea(b)
  {
    if |a| == 0 {
      assert a + b == b;
    } else {
      assert (a + b)[1..] == a[1..] + b;
      TotalAreaAppend(a[1..], b);
    }
  }

  /** A cell is counted exactly when some rectangle of s covers it. */
  lemma {:induction false} CountPositiveIffCovered(s: seq<Rect>, px: int, py: int)
    ensures Count(s, px, py) >= 1 <==> exists i :: 0 <= i < |s| && Contains(s[i], px, py)
  {
    if |s| > 0 {
      CountPositiveIffCovered(s[1..], px, py);
      if Count(s[1..], px, py) >= 1 {
        var i :| 0 <= i < |s[1..]| && Contains(s[1..][i], px, py);
        assert Contains(s[i + 1], px, py);
      }
      if exists i :: 0 <= i < |s| && Contains(s[i], px, py) {
        var i :| 0 <= i < |s| && Contains(s[i], px, py);
        if i > 0 {
          assert Contains(s[1..][i - 1], px, py);
        }
      }
    }
  }

  /** A cell is counted twice or more exactly when two different rectangles of s cover it. */
  lemma {:induction false} CountTwiceIffSharedCell(s: seq<Rect>, px: int, py: int)
    ensures Count(s, px, py) >= 2 <==>
            exists i, j :: 0 <= i < j < |s| && Contains(s[i], px, py) && Contains(s[j], px, py)
  {
    if |s| > 0 {
      var t := s[1..];
      CountTwiceIffSharedCell(t, px, py);
      CountPositiveIffCovered(t, px, py);
      if Count(s, px, py) >= 2 {
        if Contains(s[0], px, py) {
          var j :| 0 <= j < |t| && Contains(t[j], px, py);
          assert Contains(s[0], px, py) && Contains(s[j + 1], px, py);
        } else {
          var i, j :| 0 <= i < j < |t| && Contains(t[i], px, py) && Contains(t[j], px, py);
          assert Contains(s[i + 1], px, py) && Contains(s[j + 1], px, py);
        }
      }
      if exists i, j :: 0 <= i < j < |s| && Contains(s[i], px, py) && Contains(s[j], px, py) {
        var i, j :| 0 <= i < j < |s| && Contains(s[i], px, py) && Contains(s[j], px, py);
        assert Contains(t[j - 1], px, py);
        if i > 0 {
          assert Contains(t[i - 1], px, py);
        }
      }
    }
  }

  /** Every rectangle of s is positive and every cell is covered once inside the
      region and never outside it. */
  ghost predicate ExactCover(s: seq<Rect>, cols: int, rows: int)
  {
    && (forall i :: 0 <= i < |s| ==> Positive(s[i]))
    && (forall px, py :: Count(s, px, py) == if InRegion(cols, rows, px, py) then 1 else 0)
  }

  /** The rectangles of s are positive, pairwise disjoint, inside the region, and
      together cover every cell of it. */
  ghost predicate Partition(s: seq<Rect>, cols: int, rows: int)
  {
    && (forall i :: 0 <= i < |s| ==> Positive(s[i]))
    && (forall i, j :: 0 <= i < j < |s| ==> Disjoint(s[i], s[j]))
    && (forall i :: 0 <= i < |s| ==> Inside(s[i], cols, rows))
    && (forall px, py :: InRegion(cols, rows, px, py) ==>
          exists i :: 0 <= i < |s| && Contains(s[i], px, py))
  }

  /** An exact tiling: an exact cover whose areas add up to the region's area. */
  ghost predicate Tiles(s: seq<Rect>, cols: int, rows: int)
  {
    ExactCover(s, cols, rows) && TotalArea(s) == cols * rows
  }

  /** The cell-count formulation and the geometric one say the same thing. */
  lemma ExactCoverIffPartition(s: seq<Rect>, cols: int, rows: int)
    ensures ExactCover(s, cols, rows) <==> Partition(s, cols, rows)
  {
    if ExactCover(s, cols, rows) {
      forall i, j | 0 <= i < j < |s|
        ensures Disjoint(s[i], s[j])
      {
        DisjointMeansNoSharedCell(s[i], s[j]);
        forall px, py
          ensures !(Contains(s[i], px, py) && Contains(s[j], px, py))
        {
          CountTwiceIffSharedCell(s, px, py);
        }
      }
      forall i | 0 <= i < |s|
        ensures Inside(s[i], cols, rows)
      {
        var r := s[i];
        assert Contains(r, r.x, r.y);
        assert Contains(r, r.x + r.w - 1, r.y + r.h - 1);
        CountPositiveIffCovered(s, r.x, r.y);
        CountPositiveIffCovered(s, r.x + r.w - 1, r.y + r.h - 1);
      }
      forall px, py | InRegion(cols, rows, px, py)
        ensures exists i :: 0 <= i < |s| && Contains(s[i], px, py)
      {
        CountPositiveIffCovered(s, px, py);
      }
    }
    if Partition(s, cols, rows) {
      forall px, py
        ensures Count(s, px, py) == if InRegion(cols, rows, px, py) then 1 else 0
      {
        CountPositiveIffCovered(s, px, py);
        CountTwiceIffSharedCell(s, px, py);
        if Count(s, px, py) >= 2 {
          var i, j :| 0 <= i < j < |s| && Contains(s[i], px, py) && Contains(s[j], px, py);
          DisjointMeansNoSharedCell(s[i], s[j]);
        }
        if Count(s, px, py) >= 1 {
          var i :| 0 <= i < |s| && Contains(s[i], px, py);
          assert Inside(s[i], cols, rows);
        }
      }
    }
  }
}
