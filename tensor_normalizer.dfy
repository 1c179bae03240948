/** convertTo2DArray: a depth model's raw confidence tensor becomes a
    normalized heatmap grid and a binary grid cut at 0.5. */
module TensorNormalizer {
  import GridIndex

  /** Double.greatestFiniteMagnitude, (2^53 - 1) * 2^971, written out exactly. */
  const GreatestFiniteMagnitude: real := 179769313486231570814527423731704356798070567525844996598917476803157260780028538760589558632766878171540458953514382464234321326889464182768467546703537516986049910576551282076245490090389328944075868508455133942304583236903222948165808559332123348274797826204144723168738177180919299881250404026184124858368.0

  /** A real no larger in magnitude than greatestFiniteMagnitude: the range of
      the finite IEEE doubles, without their rounding. */
  type Double = x: real | -GreatestFiniteMagnitude <= x <= GreatestFiniteMagnitude

  /** An MLMultiArray: its shape and its elements in flat order. */
  datatype Tensor = Tensor(shape: seq<nat>, data: seq<Double>)

  /** What convertTo2DArray hands back. DegenerateRange stands for the case the
      source divides by a zero or non-finite range (see README). */
  datatype Conversion =
    | Converted(heatmap: seq<seq<real>>, binary: seq<seq<int>>)
    | DegenerateRange

  /** shape[1], which the source calls heatmap_w. */
  function HeatmapW(t: Tensor): nat
    requires |t.shape| >= 3
  {
    t.shape[1]
  }

  /** shape[2], which the source calls heatmap_h. */
  function HeatmapH(t: Tensor): nat
    requires |t.shape| >= 3
  {
    t.shape[2]
  }

  /** Every flat subscript i * heatmap_h + j the source reads exists (the
      source traps otherwise). */
  predicate Readable(t: Tensor)
  {
    |t.shape| >= 3 ==> t.shape[1] * t.shape[2] <= |t.data|
  }

  /** The confidence read for column i and row j: flat subscript i * heatmap_h + j. */
  function Confidence(t: Tensor, i: nat, j: nat): Double
    requires |t.shape| >= 3 && Readable(t)
    requires i < HeatmapW(t) && j < HeatmapH(t)
  {
    GridIndex.FlatIndexInRange(i, j, HeatmapH(t), HeatmapW(t));
    t.data[GridIndex.Flat(i, j, HeatmapH(t))]
  }

  /** The confidences the first pass reads, in the order it reads them: the
      loops over i then j visit the flat subscripts 0 ..< heatmap_w * heatmap_h
      in increasing order. */
  function Plane(t: Tensor): seq<Double>
    requires |t.shape| >= 3 && Readable(t)
  {
    t.data[..HeatmapW(t) * HeatmapH(t)]
  }

  /** The value the first pass leaves in a cell: the confidence if it is
      positive, else the initial 0. */
  function Kept(c: real): real
  {
    if c > 0.0 then c else 0.0
  }

  /** minimumValue after the first pass has read s, one step per element. */
  function RunningMin(s: seq<Double>): real
  {
    if s == [] then GreatestFiniteMagnitude
    else
      var m, c := RunningMin(s[..|s| - 1]), s[|s| - 1];
      if c > 0.0 && m > c then c else m
  }

  /** maximumValue after the first pass has read s, one step per element. */
  function RunningMax(s: seq<Double>): real
  {
    if s == [] then -GreatestFiniteMagnitude
    else
      var m, c := RunningMax(s[..|s| - 1]), s[|s| - 1];
      if c > 0.0 && m < c then c else m
  }

  /** Reading one more confidence is one step of the running minimum and maximum. */
  lemma RunningStep(s: seq<Double>, n: nat)
    requires n < |s|
    ensures RunningMin(s[..n + 1]) ==
      if s[n] > 0.0 && RunningMin(s[..n]) > s[n] then s[n] else RunningMin(s[..n])
    ensures RunningMax(s[..n + 1]) ==
      if s[n] > 0.0 && RunningMax(s[..n]) < s[n] then s[n] else RunningMax(s[..n])
  {
    assert s[..n + 1][..n] == s[..n];
  }

  ghost predicate HasPositive(s: seq<real>)
  {
    exists k :: 0 <= k < |s| && s[k] > 0.0
  }

  /** m is the least of the positive elements of s. */
  ghost predicate IsPositiveMin(m: real, s: seq<real>)
  {
    && (exists k :: 0 <= k < |s| && s[k] > 0.0 && s[k] == m)
    && (forall k :: 0 <= k < |s| && s[k] > 0.0 ==> m <= s[k])
  }

  /** m is the greatest of the positive elements of s. */
  ghost predicate IsPositiveMax(m: real, s: seq<real>)
  {
    && (exists k :: 0 <= k < |s| && s[k] > 0.0 && s[k] == m)
    && (forall k :: 0 <= k < |s| && s[k] > 0.0 ==> s[k] <= m)
  }

  /** The running minimum is exactly the least positive confidence; the
      non-positive ones never reach it. With no positive confidence the
      sentinel stays. */
  lemma {:induction false} RunningMinIsPositiveMin(s: seq<Double>)
    ensures HasPositive(s) ==> IsPositiveMin(RunningMin(s), s)
    ensures !HasPositive(s) ==> RunningMin(s) == GreatestFiniteMagnitude
  {
    if s != [] {
      var p, c := s[..|s| - 1], s[|s| - 1];
      assert s == p + [c];
      RunningMinIsPositiveMin(p);
      var m := RunningMin(p);
      assert forall k :: 0 <= k < |p| ==> s[k] == p[k];
      if HasPositive(p) {
        var k0 :| 0 <= k0 < |p| && p[k0] > 0.0 && p[k0] == m;
        assert s[k0] == m;
        if c > 0.0 && m > c {
          assert s[|s| - 1] == c;
        }
      } else if c > 0.0 {
        assert s[|s| - 1] == c;
        assert RunningMin(s) == c;
      } else {
        assert !HasPositive(s);
      }
    }
  }

  /** The running maximum is exactly the greatest positive confidence; the
      non-positive ones never reach it. With no positive confidence the
      sentinel stays. */
  lemma {:induction false} RunningMaxIsPositiveMax(s: seq<Double>)
    ensures HasPositive(s) ==> IsPositiveMax(RunningMax(s), s)
    ensures !HasPositive(s) ==> RunningMax(s) == -GreatestFiniteMagnitude
  {
    if s != [] {
      var p, c := s[..|s| - 1], s[|s| - 1];
      assert s == p + [c];
      RunningMaxIsPositiveMax(p);
      var m := RunningMax(p);
      assert forall k :: 0 <= k < |p| ==> s[k] == p[k];
      if HasPositive(p) {
        var k0 :| 0 <= k0 < |p| && p[k0] > 0.0 && p[k0] == m;
        assert s[k0] == m;
        if c > 0.0 && m < c {
          assert s[|s| - 1] == c;
        }
      } else if c > 0.0 {
        assert s[|s| - 1] == c;
        assert RunningMax(s) == c;
      } else {
        assert !HasPositive(s);
      }
    }
  }

  /** The rescale divides by a positive range. */
  predicate HasRange(t: Tensor)
    requires |t.shape| >= 3 && Readable(t)
  {
    RunningMax(Plane(t)) > RunningMin(Plane(t))
  }

  /** The range is positive exactly when the plane holds two different
      positive confidences; otherwise (none positive, or all positive ones
      equal) the source's division is degenerate. */
  lemma HasRangeIffTwoDistinctPositives(t: Tensor)
    requires |t.shape| >= 3 && Readable(t)
    ensures HasRange(t) <==>
      exists k1, k2 :: 0 <= k1 < |Plane(t)| && 0 <= k2 < |Plane(t)| && 0.0 < Plane(t)[k1] < Plane(t)[k2]
  {
    var s := Plane(t);
    RunningMinIsPositiveMin(s);
    RunningMaxIsPositiveMax(s);
    if HasRange(t) {
      assert HasPositive(s);
      var k1 :| 0 <= k1 < |s| && s[k1] > 0.0 && s[k1] == RunningMin(s);
      var k2 :| 0 <= k2 < |s| && s[k2] > 0.0 && s[k2] == RunningMax(s);
      assert 0.0 < s[k1] < s[k2];
    }
  }

  /** The grid the first pass leaves: heatmap_h rows of heatmap_w cells, cell
      [j][i] holding Kept of the confidence at i * heatmap_h + j. */
  function FilteredGrid(t: Tensor): seq<seq<real>>
    requires |t.shape| >= 3 && Readable(t)
  {
    seq(HeatmapH(t), j requires 0 <= j < HeatmapH(t) =>
      seq(HeatmapW(t), i requires 0 <= i < HeatmapW(t) => Kept(Confidence(t, i, j))))
  }

  /** The grid has h rows of w cells. */
  ghost predicate Shaped<T>(g: seq<seq<T>>, w: nat, h: nat)
  {
    |g| == h && forall j :: 0 <= j < h ==> |g[j]| == w
  }

  /** Two grids of the same shape that agree cell by cell are equal. */
  lemma SameGrid<T>(a: seq<seq<T>>, b: seq<seq<T>>, w: nat, h: nat)
    requires Shaped(a, w, h) && Shaped(b, w, h)
    requires forall j, i :: 0 <= j < h && 0 <= i < w ==> a[j][i] == b[j][i]
    ensures a == b
  {
    forall j | 0 <= j < h
      ensures a[j] == b[j]
    {
    }
  }

  /** Every cell rescaled by (v - lo) / gap, as the second pass does. */
  function Rescale(g: seq<seq<real>>, lo: real, gap: real): seq<seq<real>>
    requires gap != 0.0
  {
    seq(|g|, j requires 0 <= j < |g| =>
      seq(|g[j]|, i requires 0 <= i < |g[j]| => (g[j][i] - lo) / gap))
  }

  /** Every cell cut at 0.5, as the third pass does. */
  function Binarize(g: seq<seq<real>>): seq<seq<int>>
  {
    seq(|g|, j requires 0 <= j < |g| =>
      seq(|g[j]|, i requires 0 <= i < |g[j]| => if g[j][i] >= 0.5 then 1 else 0))
  }

  /** The normalized heatmap of a tensor with a positive range. */
  function NormalizedGrid(t: Tensor): seq<seq<real>>
    requires |t.shape| >= 3 && Readable(t) && HasRange(t)
  {
    Rescale(FilteredGrid(t), RunningMin(Plane(t)), RunningMax(Plane(t)) - RunningMin(Plane(t)))
  }

  /** What convertTo2DArray returns for a tensor. */
  function ConversionOf(t: Tensor): Conversion
    requires Readable(t)
  {
    if |t.shape| < 3 then Converted([], [])
    else if !HasRange(t) then DegenerateRange
    else Converted(NormalizedGrid(t), Binarize(NormalizedGrid(t)))
  }

  /** First pass (the nested loops over i and j): reads every confidence,
      keeps the positive ones in the grid and tracks their minimum and maximum. */
  method FilterPass(t: Tensor) returns (grid: seq<seq<real>>, minimumValue: real, maximumValue: real)
    requires |t.shape| >= 3 && Readable(t)
    ensures grid == FilteredGrid(t)
    ensures forall j, i :: 0 <= j < HeatmapH(t) && 0 <= i < HeatmapW(t) ==>
      grid[j][i] == if Confidence(t, i, j) > 0.0 then Confidence(t, i, j) else 0.0
    ensures minimumValue == RunningMin(Plane(t)) && maximumValue == RunningMax(Plane(t))
    ensures HasPositive(Plane(t)) ==>
      IsPositiveMin(minimumValue, Plane(t)) && IsPositiveMax(maximumValue, Plane(t))
    ensures !HasPositive(Plane(t)) ==>
      minimumValue == GreatestFiniteMagnitude && maximumValue == -GreatestFiniteMagnitude
  {
    var w, h := t.shape[1], t.shape[2];
    grid := seq(h, _ => seq(w, _ => 0.0));
    minimumValue := GreatestFiniteMagnitude;
    maximumValue := -GreatestFiniteMagnitude;
    ghost var read := 0;  // how many flat subscripts have been read, in order
    for i := 0 to w
      invariant Shaped(grid, w, h)
      invariant forall j', i' :: 0 <= j' < h && 0 <= i' < w ==>
        grid[j'][i'] == if i' < i then Kept(Confidence(t, i', j')) else 0.0
      invariant read == i * h && read <= w * h
      invariant minimumValue == RunningMin(t.data[..read])
      invariant maximumValue == RunningMax(t.data[..read])
    {
      assert i * h + h == (i + 1) * h;
      GridIndex.MultiplyMonotone(i + 1, w, h);
      for j := 0 to h
        invariant Shaped(grid, w, h)
        invariant forall j', i' :: 0 <= j' < h && 0 <= i' < w ==>
          grid[j'][i'] == if i' < i || (i' == i && j' < j) then Kept(Confidence(t, i', j')) else 0.0
        invariant read == i * h + j && i * h + h <= w * h
        invariant minimumValue == RunningMin(t.data[..read])
        invariant maximumValue == RunningMax(t.data[..read])
      {
        GridIndex.FlatIndexInRange(i, j, h, w);
        var index := GridIndex.Flat(i, j, h);
        var confidence := t.data[index];
        RunningStep(t.data, read);
        read := read + 1;
        if !(confidence > 0.0) {
          continue;
        }
        grid := grid[j := grid[j][i := confidence]];
        if minimumValue > confidence {
          minimumValue := confidence;
        }
        if maximumValue < confidence {
          maximumValue := confidence;
        }
      }
    }
    SameGrid(grid, FilteredGrid(t), w, h);
    RunningMinIsPositiveMin(Plane(t));
    RunningMaxIsPositiveMax(Plane(t));
  }

  /** Second pass: every cell becomes (v - minimumValue) / minmaxGap. */
  method RescalePass(grid: seq<seq<real>>, w: nat, h: nat, minimumValue: real, minmaxGap: real)
    returns (rescaled: seq<seq<real>>)
    requires Shaped(grid, w, h) && minmaxGap != 0.0
    ensures rescaled == Rescale(grid, minimumValue, minmaxGap)
  {
    rescaled := grid;
    for i := 0 to w
      invariant Shaped(rescaled, w, h)
      invariant forall j', i' :: 0 <= j' < h && 0 <= i' < w ==>
        rescaled[j'][i'] == if i' < i then (grid[j'][i'] - minimumValue) / minmaxGap else grid[j'][i']
    {
      for j := 0 to h
        invariant Shaped(rescaled, w, h)
        invariant forall j', i' :: 0 <= j' < h && 0 <= i' < w ==>
          rescaled[j'][i'] ==
            if i' < i || (i' == i && j' < j) then (grid[j'][i'] - minimumValue) / minmaxGap else grid[j'][i']
      {
        rescaled := rescaled[j := rescaled[j][i := (rescaled[j][i] - minimumValue) / minmaxGap]];
      }
    }
    SameGrid(rescaled, Rescale(grid, minimumValue, minmaxGap), w, h);
  }

  /** Third pass: a fresh integer grid whose cell is 1 where the normalized
      cell is at least 0.5 and 0 elsewhere. */
  method BinarizePass(grid: seq<seq<real>>, w: nat, h: nat) returns (binary: seq<seq<int>>)
    requires Shaped(grid, w, h)
    ensures binary == Binarize(grid)
    ensures Shaped(binary, w, h)
    ensures forall j, i :: 0 <= j < h && 0 <= i < w ==>
      (binary[j][i] == 1 <==> grid[j][i] >= 0.5) && (binary[j][i] == 0 || binary[j][i] == 1)
  {
    binary := seq(h, _ => seq(w, _ => 0));
    for i := 0 to w
      invariant Shaped(binary, w, h)
      invariant forall j', i' :: 0 <= j' < h && 0 <= i' < w ==>
        binary[j'][i'] == if i' < i && grid[j'][i'] >= 0.5 then 1 else 0
    {
      for j := 0 to h
        invariant Shaped(binary, w, h)
        invariant forall j', i' :: 0 <= j' < h && 0 <= i' < w ==>
          binary[j'][i'] == if (i' < i || (i' == i && j' < j)) && grid[j'][i'] >= 0.5 then 1 else 0
      {
        if grid[j][i] >= 0.5 {
          binary := binary[j := binary[j][i := 1]];
        } else {
          binary := binary[j := binary[j][i := 0]];
        }
      }
    }
    SameGrid(binary, Binarize(grid), w, h);
  }

  /** convertTo2DArray: with fewer than three dimensions, two empty grids;
      with a degenerate range, DegenerateRange; otherwise the normalized grid
      and its binary cut, both heatmap_h rows of heatmap_w cells. */
  method ConvertTo2DArray(t: Tensor) returns (r: Conversion)
    requires Readable(t)
    ensures r == ConversionOf(t)
    ensures |t.shape| < 3 ==> r == Converted([], [])
    ensures |t.shape| >= 3 ==> (r.DegenerateRange? <==> !HasRange(t))
    ensures |t.shape| >= 3 && r.Converted? ==>
      && HasRange(t)
      && r.heatmap == NormalizedGrid(t)
      && r.binary == Binarize(NormalizedGrid(t))
      && Shaped(r.heatmap, HeatmapW(t), HeatmapH(t))
      && Shaped(r.binary, HeatmapW(t), HeatmapH(t))
  {
    if |t.shape| < 3 {
      return Converted([], []);
    }
    var w, h := t.shape[1], t.shape[2];
    var grid, minimumValue, maximumValue := FilterPass(t);
    var minmaxGap := maximumValue - minimumValue;
    if minmaxGap <= 0.0 {
      return DegenerateRange;
    }
    grid := RescalePass(grid, w, h, minimumValue, minmaxGap);
    var binary := BinarizePass(grid, w, h);
    r := Converted(grid, binary);
  }

  // Properties of the conversion, stated about the grids it is proved to return.

  /** Confidence(t, i, j) is the plane element at flat subscript i * heatmap_h + j. */
  lemma PlaneAt(t: Tensor, i: nat, j: nat)
    requires |t.shape| >= 3 && Readable(t)
    requires i < HeatmapW(t) && j < HeatmapH(t)
    ensures GridIndex.Flat(i, j, HeatmapH(t)) < |Plane(t)|
    ensures Plane(t)[GridIndex.Flat(i, j, HeatmapH(t))] == Confidence(t, i, j)
  {
    GridIndex.FlatIndexInRange(i, j, HeatmapH(t), HeatmapW(t));
  }

  /** The first pass reads every flat subscript of the plane exactly once:
      each subscript k is the cell (k / heatmap_h, k % heatmap_h), and no two
      cells share a subscript. */
  lemma FlatIndexReadOnce(t: Tensor)
    requires |t.shape| >= 3 && Readable(t)
    ensures forall k :: 0 <= k < |Plane(t)| ==>
      && HeatmapH(t) > 0
      && k / HeatmapH(t) < HeatmapW(t) && k % HeatmapH(t) < HeatmapH(t)
      && GridIndex.Flat(k / HeatmapH(t), k % HeatmapH(t), HeatmapH(t)) == k
      && Confidence(t, k / HeatmapH(t), k % HeatmapH(t)) == Plane(t)[k]
    ensures forall i1: nat, j1: nat, i2: nat, j2: nat ::
      && i1 < HeatmapW(t) && j1 < HeatmapH(t) && i2 < HeatmapW(t) && j2 < HeatmapH(t)
      && GridIndex.Flat(i1, j1, HeatmapH(t)) == GridIndex.Flat(i2, j2, HeatmapH(t))
      ==> i1 == i2 && j1 == j2
  {
    var w, h := HeatmapW(t), HeatmapH(t);
    forall k | 0 <= k < |Plane(t)|
      ensures && h > 0 && k / h < w && k % h < h && GridIndex.Flat(k / h, k % h, h) == k
              && Confidence(t, k / h, k % h) == Plane(t)[k]
    {
      CellOfSubscript(t, k);
    }
    forall i1: nat, j1: nat, i2: nat, j2: nat |
      && i1 < w && j1 < h && i2 < w && j2 < h
      && GridIndex.Flat(i1, j1, h) == GridIndex.Flat(i2, j2, h)
      ensures i1 == i2 && j1 == j2
    {
      GridIndex.FlatIndexInjective(i1, j1, i2, j2, h);
    }
  }

  /** The bounds of the range: lo and hi are positive confidences of the plane,
      and every positive confidence lies between them. */
  lemma RangeBounds(t: Tensor, i: nat, j: nat)
    requires |t.shape| >= 3 && Readable(t) && HasRange(t)
    requires i < HeatmapW(t) && j < HeatmapH(t)
    ensures 0.0 < RunningMin(Plane(t)) < RunningMax(Plane(t))
    ensures Confidence(t, i, j) > 0.0 ==>
      RunningMin(Plane(t)) <= Confidence(t, i, j) <= RunningMax(Plane(t))
  {
    RunningMinIsPositiveMin(Plane(t));
    RunningMaxIsPositiveMax(Plane(t));
    PlaneAt(t, i, j);
  }

  /** Both ends of a positive range are positive confidences' values. */
  lemma RangeEndsPositive(t: Tensor)
    requires |t.shape| >= 3 && Readable(t) && HasRange(t)
    ensures 0.0 < RunningMin(Plane(t)) < RunningMax(Plane(t))
  {
    RunningMinIsPositiveMin(Plane(t));
    RunningMaxIsPositiveMax(Plane(t));
  }

  /** Every cell read from a positive confidence rescales into [0, 1]. */
  lemma PositiveCellsInUnitInterval(t: Tensor, i: nat, j: nat)
    requires |t.shape| >= 3 && Readable(t) && HasRange(t)
    requires i < HeatmapW(t) && j < HeatmapH(t) && Confidence(t, i, j) > 0.0
    ensures 0.0 <= NormalizedGrid(t)[j][i] <= 1.0
  {
    RangeBounds(t, i, j);
    var lo, hi, c := RunningMin(Plane(t)), RunningMax(Plane(t)), Confidence(t, i, j);
    assert NormalizedGrid(t)[j][i] == (c - lo) / (hi - lo);
    assert 0.0 <= c - lo <= hi - lo;
    DivideWithin(c - lo, hi - lo);
  }

  lemma DivideSelf(d: real)
    requires d != 0.0
    ensures d / d == 1.0
  {
  }

  lemma DivideWithin(a: real, b: real)
    requires 0.0 <= a <= b && b > 0.0
    ensures 0.0 <= a / b <= 1.0
  {
  }

  /** One cell of the normalized grid. */
  lemma NormalizedAt(t: Tensor, i: nat, j: nat)
    requires |t.shape| >= 3 && Readable(t) && HasRange(t)
    requires i < HeatmapW(t) && j < HeatmapH(t)
    ensures |NormalizedGrid(t)| == HeatmapH(t) && |NormalizedGrid(t)[j]| == HeatmapW(t)
    ensures NormalizedGrid(t)[j][i] ==
      (Kept(Confidence(t, i, j)) - RunningMin(Plane(t))) / (RunningMax(Plane(t)) - RunningMin(Plane(t)))
  {
  }

  /** Cells holding the greatest positive confidence normalize to 1, cells
      holding the least to 0. */
  lemma ExtremesMapToEndpoints(t: Tensor)
    requires |t.shape| >= 3 && Readable(t) && HasRange(t)
    ensures forall i: nat, j: nat :: i < HeatmapW(t) && j < HeatmapH(t) && Confidence(t, i, j) == RunningMax(Plane(t)) ==>
      NormalizedGrid(t)[j][i] == 1.0
    ensures forall i: nat, j: nat :: i < HeatmapW(t) && j < HeatmapH(t) && Confidence(t, i, j) == RunningMin(Plane(t)) ==>
      NormalizedGrid(t)[j][i] == 0.0
  {
    forall i: nat, j: nat | i < HeatmapW(t) && j < HeatmapH(t)
      ensures Confidence(t, i, j) == RunningMax(Plane(t)) ==> NormalizedGrid(t)[j][i] == 1.0
      ensures Confidence(t, i, j) == RunningMin(Plane(t)) ==> NormalizedGrid(t)[j][i] == 0.0
    {
      EndpointCell(t, i, j);
    }
  }

  /** One cell of ExtremesMapToEndpoints. */
  lemma EndpointCell(t: Tensor, i: nat, j: nat)
    requires |t.shape| >= 3 && Readable(t) && HasRange(t)
    requires i < HeatmapW(t) && j < HeatmapH(t)
    ensures Confidence(t, i, j) == RunningMax(Plane(t)) ==> NormalizedGrid(t)[j][i] == 1.0
    ensures Confidence(t, i, j) == RunningMin(Plane(t)) ==> NormalizedGrid(t)[j][i] == 0.0
  {
    var lo, hi, c := RunningMin(Plane(t)), RunningMax(Plane(t)), Confidence(t, i, j);
    RangeEndsPositive(t);
    NormalizedAt(t, i, j);
    EndpointValue(lo, hi, c);
  }

  /** The rescale sends the top of the range to 1 and its bottom to 0. */
  lemma EndpointValue(lo: real, hi: real, c: real)
    requires 0.0 < lo < hi
    ensures c == hi ==> (Kept(c) - lo) / (hi - lo) == 1.0
    ensures c == lo ==> (Kept(c) - lo) / (hi - lo) == 0.0
  {
    DivideSelf(hi - lo);
  }

  /** A positive range needs a positive confidence. */
  lemma RangeHasPositive(t: Tensor)
    requires |t.shape| >= 3 && Readable(t) && HasRange(t)
    ensures HasPositive(Plane(t))
    ensures IsPositiveMin(RunningMin(Plane(t)), Plane(t)) && IsPositiveMax(RunningMax(Plane(t)), Plane(t))
  {
    RunningMinIsPositiveMin(Plane(t));
    RunningMaxIsPositiveMax(Plane(t));
  }

  /** Some cell holds the greatest positive confidence and some cell the least,
      so the normalized grid does reach both 1 and 0. */
  lemma ExtremeCellsExist(t: Tensor)
    requires |t.shape| >= 3 && Readable(t) && HasRange(t)
    ensures exists i: nat, j: nat :: i < HeatmapW(t) && j < HeatmapH(t) && Confidence(t, i, j) == RunningMax(Plane(t))
    ensures exists i: nat, j: nat :: i < HeatmapW(t) && j < HeatmapH(t) && Confidence(t, i, j) == RunningMin(Plane(t))
  {
    var s := Plane(t);
    RangeHasPositive(t);
    var kMax :| 0 <= kMax < |s| && s[kMax] > 0.0 && s[kMax] == RunningMax(s);
    SubscriptHasCell(t, kMax, RunningMax(s));
    var kMin :| 0 <= kMin < |s| && s[kMin] > 0.0 && s[kMin] == RunningMin(s);
    SubscriptHasCell(t, kMin, RunningMin(s));
  }

  /** A value at some plane subscript is the confidence of some cell. */
  lemma SubscriptHasCell(t: Tensor, k: nat, v: real)
    requires |t.shape| >= 3 && Readable(t) && k < |Plane(t)| && Plane(t)[k] == v
    ensures exists i: nat, j: nat :: i < HeatmapW(t) && j < HeatmapH(t) && Confidence(t, i, j) == v
  {
    CellOfSubscript(t, k);
    var i: nat, j: nat := k / HeatmapH(t), k % HeatmapH(t);
    assert i < HeatmapW(t) && j < HeatmapH(t) && Confidence(t, i, j) == v;
  }

  /** Plane subscript k is read at cell (k / heatmap_h, k % heatmap_h). */
  lemma CellOfSubscript(t: Tensor, k: nat)
    requires |t.shape| >= 3 && Readable(t) && k < |Plane(t)|
    ensures HeatmapH(t) > 0 && k / HeatmapH(t) < HeatmapW(t) && k % HeatmapH(t) < HeatmapH(t)
    ensures GridIndex.Flat(k / HeatmapH(t), k % HeatmapH(t), HeatmapH(t)) == k
    ensures Confidence(t, k / HeatmapH(t), k % HeatmapH(t)) == Plane(t)[k]
  {
    GridIndex.FlatIndexEncodes(k, HeatmapH(t), HeatmapW(t));
    PlaneAt(t, k / HeatmapH(t), k % HeatmapH(t));
  }

  /** On cells read from positive confidences the rescale preserves and
      reflects order, strict and non-strict. */
  lemma RescaleIsOrderPreserving(t: Tensor, i1: nat, j1: nat, i2: nat, j2: nat)
    requires |t.shape| >= 3 && Readable(t) && HasRange(t)
    requires i1 < HeatmapW(t) && j1 < HeatmapH(t) && i2 < HeatmapW(t) && j2 < HeatmapH(t)
    requires Confidence(t, i1, j1) > 0.0 && Confidence(t, i2, j2) > 0.0
    ensures Confidence(t, i1, j1) <= Confidence(t, i2, j2) <==> NormalizedGrid(t)[j1][i1] <= NormalizedGrid(t)[j2][i2]
    ensures Confidence(t, i1, j1) < Confidence(t, i2, j2) <==> NormalizedGrid(t)[j1][i1] < NormalizedGrid(t)[j2][i2]
  {
    RangeBounds(t, i1, j1);
    var lo, hi := RunningMin(Plane(t)), RunningMax(Plane(t));
    var c1, c2 := Confidence(t, i1, j1), Confidence(t, i2, j2);
    assert NormalizedGrid(t)[j1][i1] == (c1 - lo) / (hi - lo);
    assert NormalizedGrid(t)[j2][i2] == (c2 - lo) / (hi - lo);
    DivideMonotone(c1 - lo, c2 - lo, hi - lo);
  }

  lemma DivideMonotone(a: real, b: real, d: real)
    requires d > 0.0
    ensures a <= b <==> a / d <= b / d
    ensures a < b <==> a / d < b / d
  {
    assert a == (a / d) * d && b == (b / d) * d;
    if a / d <= b / d {
      assert (a / d) * d <= (b / d) * d;
    }
    if a / d < b / d {
      assert (a / d) * d < (b / d) * d;
    }
  }

  /** A cell the first pass skipped (confidence at most 0) is rescaled all the
      same, to -lo / (hi - lo), which is negative, so it binarizes to 0. */
  lemma FilteredCellsBinarizeToZero(t: Tensor, i: nat, j: nat)
    requires |t.shape| >= 3 && Readable(t) && HasRange(t)
    requires i < HeatmapW(t) && j < HeatmapH(t) && Confidence(t, i, j) <= 0.0
    ensures NormalizedGrid(t)[j][i] ==
      -RunningMin(Plane(t)) / (RunningMax(Plane(t)) - RunningMin(Plane(t)))
    ensures NormalizedGrid(t)[j][i] < 0.0
    ensures Binarize(NormalizedGrid(t))[j][i] == 0
  {
    RangeBounds(t, i, j);
    var lo, hi := RunningMin(Plane(t)), RunningMax(Plane(t));
    assert NormalizedGrid(t)[j][i] == (0.0 - lo) / (hi - lo);
    DivideMonotone(-lo, 0.0, hi - lo);
  }

  /** A cell of the binary grid is 1 exactly when its confidence is positive
      and at least the midpoint of the positive range. */
  lemma BinaryCellIsUpperHalf(t: Tensor, i: nat, j: nat)
    requires |t.shape| >= 3 && Readable(t) && HasRange(t)
    requires i < HeatmapW(t) && j < HeatmapH(t)
    ensures Binarize(NormalizedGrid(t))[j][i] == 1 <==>
      Confidence(t, i, j) > 0.0 &&
      Confidence(t, i, j) >= (RunningMin(Plane(t)) + RunningMax(Plane(t))) / 2.0
  {
    RangeBounds(t, i, j);
    var lo, hi, c := RunningMin(Plane(t)), RunningMax(Plane(t)), Confidence(t, i, j);
    var v := NormalizedGrid(t)[j][i];
    assert Binarize(NormalizedGrid(t))[j][i] == if v >= 0.5 then 1 else 0;
    if c <= 0.0 {
      FilteredCellsBinarizeToZero(t, i, j);
    } else {
      assert v == (c - lo) / (hi - lo);
      HalfOfSelf(hi - lo);
      DivideMonotone((hi - lo) / 2.0, c - lo, hi - lo);
      assert c >= (lo + hi) / 2.0 <==> c - lo >= (hi - lo) / 2.0;
    }
  }

  lemma HalfOfSelf(d: real)
    requires d > 0.0
    ensures (d / 2.0) / d == 0.5
  {
  }
}

