/** DrawingView: how the heatmap overlay is drawn, one grey cell per grid value. */
module Drawing {
  import opened Geometry
  import opened Optional
  import GridIndex

  /** The value clamped into [0, 1], as draw(_:) clamps its local alpha. */
  function Clamp(value: real): (alpha: real)
    ensures 0.0 <= alpha <= 1.0
    ensures 0.0 <= value <= 1.0 ==> alpha == value
    ensures value > 1.0 ==> alpha == 1.0
    ensures value < 0.0 ==> alpha == 0.0
  {
    if value > 1.0 then 1.0 else if value < 0.0 then 0.0 else value
  }

  /** The grey level of a cell, UIColor(white: 1 - alpha): darker for higher values. */
  function Lightness(value: real): (white: real)
    ensures 0.0 <= white <= 1.0
    ensures 0.0 <= value <= 1.0 ==> white == 1.0 - value
  {
    1.0 - Clamp(value)
  }

  /** The lightness never grows as the value grows. */
  lemma LightnessIsAntitone(a: real, b: real)
    requires a <= b
    ensures Lightness(b) <= Lightness(a)
  {
  }

  /** A cell's extent: the view's extent divided by the number of cells along
      that axis (only used when there is at least one cell). */
  function CellSize(extent: real, count: nat): real
  {
    if count == 0 then 0.0 else extent / count as real
  }

  /** Where cell number i starts along an axis whose cells are extent long. */
  function Offset(i: nat, extent: real): real
  {
    i as real * extent
  }

  /** The rectangle of cell (i, j): origin (i * w, j * h), extent w by h. */
  function CellRect(i: nat, j: nat, w: real, h: real): Rect
  {
    Rect(Offset(i, w), Offset(j, h), w, h)
  }

  /** A filled cell: where it is and how light its grey is. */
  datatype DrawnCell = DrawnCell(rect: Rect, lightness: real)

  /** Every row of the heatmap is as long as the first (the source indexes
      heatmap[i][j] for every j below heatmap.first.count). */
  ghost predicate Rectangular(hm: seq<seq<real>>)
  {
    forall i :: 0 <= i < |hm| ==> |hm[i]| == |hm[0]|
  }

  /** heatmap_w: heatmap.count. */
  function ColumnCount(hm: seq<seq<real>>): nat
  {
    |hm|
  }

  /** heatmap_h: heatmap.first?.count ?? 0. */
  function RowCount(hm: seq<seq<real>>): nat
  {
    if |hm| == 0 then 0 else |hm[0]|
  }

  /** The cell draw(_:) fills for (i, j): at CellRect(i, j, w, h), grey of heatmap[i][j]. */
  function CellAt(hm: seq<seq<real>>, size: Size, i: nat, j: nat): DrawnCell
    requires Rectangular(hm) && i < ColumnCount(hm) && j < RowCount(hm)
  {
    var w := CellSize(size.width, ColumnCount(hm));
    var h := CellSize(size.height, RowCount(hm));
    DrawnCell(CellRect(i, j, w, h), Lightness(hm[i][j]))
  }

  /** Cell k of the cells drawn so far is cell (k % heatmap_w, k / heatmap_w). */
  ghost predicate DrawnInOrder(cells: seq<DrawnCell>, hm: seq<seq<real>>, size: Size)
    requires Rectangular(hm)
  {
    forall k :: 0 <= k < |cells| ==>
      && ColumnCount(hm) > 0
      && k % ColumnCount(hm) < ColumnCount(hm) && k / ColumnCount(hm) < RowCount(hm)
      && cells[k] == CellAt(hm, size, k % ColumnCount(hm), k / ColumnCount(hm))
  }

  /** Drawing cell (i, j) next, at flat position j * heatmap_w + i, keeps the order. */
  lemma DrawNextCell(cells: seq<DrawnCell>, hm: seq<seq<real>>, size: Size, i: nat, j: nat)
    requires Rectangular(hm) && i < ColumnCount(hm) && j < RowCount(hm)
    requires |cells| == j * ColumnCount(hm) + i && DrawnInOrder(cells, hm, size)
    ensures DrawnInOrder(cells + [CellAt(hm, size, i, j)], hm, size)
  {
    GridIndex.FlatIndexDecodes(j, i, ColumnCount(hm));
    var next := cells + [CellAt(hm, size, i, j)];
    forall k | 0 <= k < |next|
      ensures k % ColumnCount(hm) < ColumnCount(hm) && k / ColumnCount(hm) < RowCount(hm)
      ensures next[k] == CellAt(hm, size, k % ColumnCount(hm), k / ColumnCount(hm))
    {
      if k < |cells| {
        assert next[k] == cells[k];
      }
    }
  }

  class DrawingView {
    var heatmap: Option<seq<seq<real>>>
    var bounds: Size
    /** setNeedsDisplay() has been asked for since the view was made. */
    var needsDisplay: bool

    constructor (bounds: Size)
      ensures heatmap == None && this.bounds == bounds && !needsDisplay
    {
      heatmap := None;
      this.bounds := bounds;
      needsDisplay := false;
    }

    /** Assigning heatmap: its didSet asks for a redraw. */
    method SetHeatmap(newValue: Option<seq<seq<real>>>)
      modifies this
      ensures heatmap == newValue && needsDisplay && bounds == old(bounds)
    {
      heatmap := newValue;
      needsDisplay := true;
    }

    /** draw(_:): with no heatmap nothing is filled; otherwise every cell (i, j)
        is filled exactly once, row j by row j, cell k being (k % heatmap_w, k / heatmap_w). */
    method Draw() returns (cells: seq<DrawnCell>)
      requires heatmap.Some? ==> Rectangular(heatmap.value)
      ensures heatmap.None? ==> cells == []
      ensures heatmap.Some? ==>
        var hm := heatmap.value;
        && |cells| == ColumnCount(hm) * RowCount(hm)
        && (forall k :: 0 <= k < |cells| ==>
              k % ColumnCount(hm) < ColumnCount(hm) && k / ColumnCount(hm) < RowCount(hm) &&
              cells[k] == CellAt(hm, bounds, k % ColumnCount(hm), k / ColumnCount(hm)))
        && (forall i: nat, j: nat :: i < ColumnCount(hm) && j < RowCount(hm) ==>
              GridIndex.Flat(j, i, ColumnCount(hm)) < |cells| &&
              cells[GridIndex.Flat(j, i, ColumnCount(hm))] == CellAt(hm, bounds, i, j))
    {
      cells := [];
      if heatmap.None? {
        return;
      }
      var hm := heatmap.value;
      var heatmapW := |hm|;
      var heatmapH := if |hm| == 0 then 0 else |hm[0]|;
      var w := CellSize(bounds.width, heatmapW);
      var h := CellSize(bounds.height, heatmapH);
      for j := 0 to heatmapH
        invariant |cells| == j * heatmapW
        invariant DrawnInOrder(cells, hm, bounds)
      {
        for i := 0 to heatmapW
          invariant |cells| == j * heatmapW + i
          invariant DrawnInOrder(cells, hm, bounds)
        {
          var value := hm[i][j];
          var alpha := Clamp(value);
          var rect := CellRect(i, j, w, h);
          assert DrawnCell(rect, 1.0 - alpha) == CellAt(hm, bounds, i, j);
          DrawNextCell(cells, hm, bounds, i, j);
          cells := cells + [DrawnCell(rect, 1.0 - alpha)];
        }
        assert j * heatmapW + heatmapW == (j + 1) * heatmapW;
      }
      forall i: nat, j: nat | i < heatmapW && j < heatmapH
        ensures GridIndex.Flat(j, i, heatmapW) < |cells| && cells[GridIndex.Flat(j, i, heatmapW)] == CellAt(hm, bounds, i, j)
      {
        GridIndex.FlatIndexInRange(j, i, heatmapW, heatmapH);
        GridIndex.FlatIndexDecodes(j, i, heatmapW);
      }
    }
  }

  // The cells of a cols-by-rows grid over a width-by-height view tile it.

  lemma ScaleMonotone(a: real, b: real, c: real)
    requires a <= b && c >= 0.0
    ensures a * c <= b * c
  {
  }

  /** Every cell lies inside the view's bounds. */
  lemma CellsInsideBounds(cols: nat, rows: nat, width: real, height: real, i: nat, j: nat)
    requires i < cols && j < rows && width >= 0.0 && height >= 0.0
    ensures Inside(CellRect(i, j, CellSize(width, cols), CellSize(height, rows)), width, height)
  {
    CellWithinAxis(i, cols, width);
    CellWithinAxis(j, rows, height);
  }

  /** Along one axis, cell i of count cells lies within [0, extent]. */
  lemma CellWithinAxis(i: nat, count: nat, extent: real)
    requires i < count && extent >= 0.0
    ensures CellSize(extent, count) >= 0.0
    ensures 0.0 <= Offset(i, CellSize(extent, count))
    ensures Offset(i, CellSize(extent, count)) + CellSize(extent, count) <= extent
  {
    var c := CellSize(extent, count);
    assert count as real * c == extent;
    ScaleMonotone((i + 1) as real, count as real, c);
    assert i as real * c + c == (i + 1) as real * c;
  }

  /** Two different cells never overlap. */
  lemma CellsDisjoint(cols: nat, rows: nat, width: real, height: real, i1: nat, j1: nat, i2: nat, j2: nat)
    requires i1 < cols && j1 < rows && i2 < cols && j2 < rows && width > 0.0 && height > 0.0
    requires i1 != i2 || j1 != j2
    ensures !Intersects(CellRect(i1, j1, CellSize(width, cols), CellSize(height, rows)),
                        CellRect(i2, j2, CellSize(width, cols), CellSize(height, rows)))
  {
    var w, h := CellSize(width, cols), CellSize(height, rows);
    assert w > 0.0 && h > 0.0;
    if i1 < i2 {
      ColumnsApart(i1, j1, i2, j2, w, h);
    } else if i2 < i1 {
      ColumnsApart(i2, j2, i1, j1, w, h);
    } else if j1 < j2 {
      RowsApart(i1, j1, i2, j2, w, h);
    } else {
      RowsApart(i2, j2, i1, j1, w, h);
    }
  }

  /** A cell ends, along x, no later than any cell of a later column starts. */
  lemma ColumnsApart(i1: nat, j1: nat, i2: nat, j2: nat, w: real, h: real)
    requires i1 < i2 && w > 0.0 && h > 0.0
    ensures MaxX(CellRect(i1, j1, w, h)) <= MinX(CellRect(i2, j2, w, h))
  {
    CellsApart(i1, i2, w);
  }

  /** A cell ends, along y, no later than any cell of a later row starts. */
  lemma RowsApart(i1: nat, j1: nat, i2: nat, j2: nat, w: real, h: real)
    requires j1 < j2 && w > 0.0 && h > 0.0
    ensures MaxY(CellRect(i1, j1, w, h)) <= MinY(CellRect(i2, j2, w, h))
  {
    CellsApart(j1, j2, h);
  }

  /** Along one axis, a cell ends no later than any later cell starts. */
  lemma CellsApart(a: nat, b: nat, extent: real)
    requires a < b && extent > 0.0
    ensures Offset(a, extent) + extent <= Offset(b, extent)
  {
    ScaleMonotone((a + 1) as real, b as real, extent);
    assert (a + 1) as real * extent == a as real * extent + extent;
  }

  /** Every point of the view lies in some cell: the one whose indices are the
      point's coordinates divided by the cell extent, rounded down. */
  lemma CellsCoverBounds(cols: nat, rows: nat, width: real, height: real, px: real, py: real)
    requires cols > 0 && rows > 0
    requires 0.0 <= px < width && 0.0 <= py < height
    ensures var i, j := (px / CellSize(width, cols)).Floor, (py / CellSize(height, rows)).Floor;
      && 0 <= i < cols && 0 <= j < rows
      && Covers(CellRect(i, j, CellSize(width, cols), CellSize(height, rows)), px, py)
  {
    var w, h := CellSize(width, cols), CellSize(height, rows);
    CoverAxis(cols, width, px);
    CoverAxis(rows, height, py);
  }

  /** One axis of CellsCoverBounds. */
  lemma CoverAxis(count: nat, extent: real, p: real)
    requires count > 0 && 0.0 <= p < extent
    ensures var s := CellSize(extent, count); var i := (p / s).Floor;
      0 <= i < count && i as real * s <= p < i as real * s + s
  {
    var s := CellSize(extent, count);
    assert s > 0.0;
    var q := p / s;
    var i := q.Floor;
    assert i as real <= q < i as real + 1.0;
    ScaleMonotone(i as real, q, s);
    calc {
      p;
      == q * s;
      < { assert (i as real + 1.0) * s - q * s == (i as real + 1.0 - q) * s; }
        (i as real + 1.0) * s;
      == i as real * s + s;
    }
    assert 0.0 <= q;
    assert q < count as real by {
      assert extent == count as real * s;
      if q >= count as real {
        ScaleMonotone(count as real, q, s);
        assert false;
      }
    }
  }
}
