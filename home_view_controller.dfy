/** HomeViewController: the session that takes a photo through object
    detection and then depth estimation, keeps the detected objects, scores
    each against the depth heatmap and raises the alert. */
module Session {
  import opened Geometry
  import opened Optional
  import opened Detections
  import opened Drawing
  import opened TensorNormalizer

  /** A detected object: its id, its label text and its pixel rectangle. */
  datatype DetectedObject = DetectedObject(id: string, labelText: string, rectangle: Rect)

  /** inputStatus: which step the next tap on "Next" performs. */
  datatype InputStatus = Image | Object | Deph

  /** The picture in objectImageView: its size, and whether it is backed by a CGImage. */
  datatype Picture = Picture(size: Size, hasCGImage: bool)

  /** The inference nextInput starts on the picture (the requests themselves run elsewhere). */
  datatype Request = NoRequest | ObjectDetection(picture: Picture) | DepthEstimation(picture: Picture)

  /** The rectangle drawToLDetections computes: the image width is taken at 95%. */
  function ToLRectangle(box: Rect, size: Size): (r: Rect)
    ensures size.width >= 0.0 && size.height >= 0.0 ==>
      && Width(r) == Width(box) * (0.95 * size.width) && Height(r) == Height(box) * size.height
      && MinX(r) == MinX(box) * (0.95 * size.width)
      && MinY(r) == (1.0 - MaxY(box)) * size.height
  {
    ToPixels(box, size.width * 0.95, size.height * 1.0)
  }

  /** A box in the unit square lands inside [0, 0.95 W] x [0, H]. */
  lemma ToLRectangleInside(box: Rect, size: Size)
    requires size.width >= 0.0 && size.height >= 0.0
    requires Inside(box, 1.0, 1.0)
    ensures Inside(ToLRectangle(box, size), 0.95 * size.width, size.height)
  {
    ToPixelsInside(box, size.width * 0.95, size.height * 1.0);
  }

  /** The object drawToLDetections appends for one detection; describe stands
      for Float's description, which formats the confidence. */
  function ToDetectedObject(d: Observation, size: Size, describe: real -> string): (detected: DetectedObject)
    ensures detected.id == d.uuid
    ensures var identifier := HighestConfidence(d.labels).1;
      |identifier| <= |detected.labelText| && detected.labelText[..|identifier|] == identifier
    ensures detected.rectangle == ToLRectangle(d.boundingBox, size)
  {
    var (highestConfidence, highestConfidenceLabel) := HighestConfidence(d.labels);
    DetectedObject(d.uuid, highestConfidenceLabel + describe(highestConfidence), ToLRectangle(d.boundingBox, size))
  }

  /** One object per detection, in detection order. */
  function ObjectsOf(ds: seq<Observation>, size: Size, describe: real -> string): (objects: seq<DetectedObject>)
    ensures |objects| == |ds|
    ensures forall k :: 0 <= k < |ds| ==> objects[k].id == ds[k].uuid && objects[k] == ToDetectedObject(ds[k], size, describe)
  {
    seq(|ds|, k requires 0 <= k < |ds| => ToDetectedObject(ds[k], size, describe))
  }

  /** Two batches of detections give the objects of the first, then those of the second. */
  lemma ObjectsOfConcatenation(ds1: seq<Observation>, ds2: seq<Observation>, size: Size, describe: real -> string)
    ensures ObjectsOf(ds1 + ds2, size, describe) == ObjectsOf(ds1, size, describe) + ObjectsOf(ds2, size, describe)
  {
  }

  // The overlay score of one object.

  /** What cell (i, j) adds to an object's score: 1 - alpha if the cell's
      rectangle meets the object's, else nothing. */
  function CellContribution(hm: seq<seq<real>>, w: real, h: real, rect: Rect, i: nat, j: nat): (c: real)
    requires Rectangular(hm) && i < ColumnCount(hm) && j < RowCount(hm)
    ensures 0.0 <= c <= 1.0
    ensures !Intersects(CellRect(i, j, w, h), rect) ==> c == 0.0
    ensures Intersects(CellRect(i, j, w, h), rect) && 0.0 <= hm[i][j] <= 1.0 ==> c == 1.0 - hm[i][j]
  {
    if Intersects(CellRect(i, j, w, h), rect) then Lightness(hm[i][j]) else 0.0
  }

  /** The contributions of cells 0 ..< n of row j. */
  function RowScore(hm: seq<seq<real>>, w: real, h: real, rect: Rect, j: nat, n: nat): real
    requires Rectangular(hm) && n <= ColumnCount(hm) && j < RowCount(hm)
  {
    if n == 0 then 0.0 else RowScore(hm, w, h, rect, j, n - 1) + CellContribution(hm, w, h, rect, n - 1, j)
  }

  /** The contributions of all cells of rows 0 ..< m. */
  function GridScore(hm: seq<seq<real>>, w: real, h: real, rect: Rect, m: nat): real
    requires Rectangular(hm) && m <= RowCount(hm)
  {
    if m == 0 then 0.0 else GridScore(hm, w, h, rect, m - 1) + RowScore(hm, w, h, rect, m - 1, ColumnCount(hm))
  }

  /** objectColorValue for an object over a heatmap drawn on an image of the given size. */
  function ObjectScore(hm: seq<seq<real>>, size: Size, rect: Rect): (score: real)
    requires Rectangular(hm)
    ensures 0.0 <= score <= (ColumnCount(hm) * RowCount(hm)) as real
  {
    GridScoreBounds(hm, CellSize(size.width, ColumnCount(hm)), CellSize(size.height, RowCount(hm)), rect, RowCount(hm));
    GridScore(hm, CellSize(size.width, ColumnCount(hm)), CellSize(size.height, RowCount(hm)), rect, RowCount(hm))
  }

  /** The inner loops of drawFCRNDetections for one object: rows j, then cells
      i, adding 1 - alpha for every cell that meets the object. */
  method ObjectColorValue(hm: seq<seq<real>>, w: real, h: real, rect: Rect) returns (objectColorValue: real)
    requires Rectangular(hm)
    ensures objectColorValue == GridScore(hm, w, h, rect, RowCount(hm))
  {
    var heatmapW := |hm|;
    var heatmapH := if |hm| == 0 then 0 else |hm[0]|;
    objectColorValue := 0.0;
    for j := 0 to heatmapH
      invariant objectColorValue == GridScore(hm, w, h, rect, j)
    {
      for i := 0 to heatmapW
        invariant objectColorValue == GridScore(hm, w, h, rect, j) + RowScore(hm, w, h, rect, j, i)
      {
        var value := hm[i][j];
        var alpha := Clamp(value);
        var cell := CellRect(i, j, w, h);
        if Intersects(cell, rect) {
          objectColorValue := objectColorValue + (1.0 - alpha);
        }
      }
    }
  }

  /** Row scores lie between 0 and the number of cells summed. */
  lemma {:induction false} RowScoreBounds(hm: seq<seq<real>>, w: real, h: real, rect: Rect, j: nat, n: nat)
    requires Rectangular(hm) && n <= ColumnCount(hm) && j < RowCount(hm)
    ensures 0.0 <= RowScore(hm, w, h, rect, j, n) <= n as real
  {
    if n > 0 {
      RowScoreBounds(hm, w, h, rect, j, n - 1);
    }
  }

  /** Grid scores lie between 0 and the number of cells summed. */
  lemma {:induction false} GridScoreBounds(hm: seq<seq<real>>, w: real, h: real, rect: Rect, m: nat)
    requires Rectangular(hm) && m <= RowCount(hm)
    ensures 0.0 <= GridScore(hm, w, h, rect, m) <= (m * ColumnCount(hm)) as real
  {
    if m > 0 {
      var c := ColumnCount(hm);
      GridScoreBounds(hm, w, h, rect, m - 1);
      RowScoreBounds(hm, w, h, rect, m - 1, c);
      var before, row := GridScore(hm, w, h, rect, m - 1), RowScore(hm, w, h, rect, m - 1, c);
      assert GridScore(hm, w, h, rect, m) == before + row;
      assert (m - 1) * c + c == m * c;
      assert ((m - 1) * c) as real + c as real == (m * c) as real;
    }
  }

  /** No cell meets the object: its score is 0. */
  lemma ObjectScoreWithoutOverlap(hm: seq<seq<real>>, size: Size, rect: Rect)
    requires Rectangular(hm)
    requires forall i: nat, j: nat :: i < ColumnCount(hm) && j < RowCount(hm) ==>
      !Intersects(CellRect(i, j, CellSize(size.width, ColumnCount(hm)), CellSize(size.height, RowCount(hm))), rect)
    ensures ObjectScore(hm, size, rect) == 0.0
  {
    var w, h := CellSize(size.width, ColumnCount(hm)), CellSize(size.height, RowCount(hm));
    NoOverlapGrid(hm, w, h, rect, RowCount(hm));
  }

  lemma {:induction false} NoOverlapGrid(hm: seq<seq<real>>, w: real, h: real, rect: Rect, m: nat)
    requires Rectangular(hm) && m <= RowCount(hm)
    requires forall i: nat, j: nat :: i < ColumnCount(hm) && j < RowCount(hm) ==> !Intersects(CellRect(i, j, w, h), rect)
    ensures GridScore(hm, w, h, rect, m) == 0.0
  {
    if m > 0 {
      NoOverlapGrid(hm, w, h, rect, m - 1);
      NoOverlapRow(hm, w, h, rect, m - 1, ColumnCount(hm));
    }
  }

  lemma {:induction false} NoOverlapRow(hm: seq<seq<real>>, w: real, h: real, rect: Rect, j: nat, n: nat)
    requires Rectangular(hm) && n <= ColumnCount(hm) && j < RowCount(hm)
    requires forall i: nat :: i < n ==> !Intersects(CellRect(i, j, w, h), rect)
    ensures RowScore(hm, w, h, rect, j, n) == 0.0
  {
    if n > 0 {
      NoOverlapRow(hm, w, h, rect, j, n - 1);
    }
  }

  /** Raising heatmap values never raises a score: the score measures how
      light (how far) the cells under the object are. */
  lemma ObjectScoreIsAntitone(hm1: seq<seq<real>>, hm2: seq<seq<real>>, size: Size, rect: Rect)
    requires Rectangular(hm1) && Rectangular(hm2)
    requires |hm1| == |hm2| && RowCount(hm1) == RowCount(hm2)
    requires forall i, j :: 0 <= i < |hm1| && 0 <= j < RowCount(hm1) ==> hm1[i][j] <= hm2[i][j]
    ensures ObjectScore(hm2, size, rect) <= ObjectScore(hm1, size, rect)
  {
    var w, h := CellSize(size.width, ColumnCount(hm1)), CellSize(size.height, RowCount(hm1));
    AntitoneGrid(hm1, hm2, w, h, rect, RowCount(hm1));
  }

  lemma {:induction false} AntitoneGrid(hm1: seq<seq<real>>, hm2: seq<seq<real>>, w: real, h: real, rect: Rect, m: nat)
    requires Rectangular(hm1) && Rectangular(hm2)
    requires |hm1| == |hm2| && RowCount(hm1) == RowCount(hm2) && m <= RowCount(hm1)
    requires forall i, j :: 0 <= i < |hm1| && 0 <= j < RowCount(hm1) ==> hm1[i][j] <= hm2[i][j]
    ensures GridScore(hm2, w, h, rect, m) <= GridScore(hm1, w, h, rect, m)
  {
    if m > 0 {
      AntitoneGrid(hm1, hm2, w, h, rect, m - 1);
      AntitoneRow(hm1, hm2, w, h, rect, m - 1, ColumnCount(hm1));
    }
  }

  lemma {:induction false} AntitoneRow(hm1: seq<seq<real>>, hm2: seq<seq<real>>, w: real, h: real, rect: Rect, j: nat, n: nat)
    requires Rectangular(hm1) && Rectangular(hm2)
    requires |hm1| == |hm2| && RowCount(hm1) == RowCount(hm2) && n <= |hm1| && j < RowCount(hm1)
    requires forall i, j :: 0 <= i < |hm1| && 0 <= j < RowCount(hm1) ==> hm1[i][j] <= hm2[i][j]
    ensures RowScore(hm2, w, h, rect, j, n) <= RowScore(hm1, w, h, rect, j, n)
  {
    if n > 0 {
      AntitoneRow(hm1, hm2, w, h, rect, j, n - 1);
      LightnessIsAntitone(hm1[n - 1][j], hm2[n - 1][j]);
    }
  }

  /** The worked example: a 2 x 2 heatmap [[0.2, 0.8], [0.5, 1.0]] over a
      100 x 100 image, and an object covering exactly cell (0, 0), score 1 - 0.2. */
  lemma ObjectScoreExample()
    ensures ObjectScore([[0.2, 0.8], [0.5, 1.0]], Size(100.0, 100.0), Rect(0.0, 0.0, 50.0, 50.0)) == 0.8
  {
    var hm := [[0.2, 0.8], [0.5, 1.0]];
    var rect := Rect(0.0, 0.0, 50.0, 50.0);
    assert CellSize(100.0, 2) == 50.0;
    assert CellContribution(hm, 50.0, 50.0, rect, 0, 0) == 0.8;
    assert CellContribution(hm, 50.0, 50.0, rect, 1, 0) == 0.0;
    assert CellContribution(hm, 50.0, 50.0, rect, 0, 1) == 0.0;
    assert CellContribution(hm, 50.0, 50.0, rect, 1, 1) == 0.0;
    assert RowScore(hm, 50.0, 50.0, rect, 0, 2) == 0.8;
    assert RowScore(hm, 50.0, 50.0, rect, 1, 2) == 0.0;
  }

  // The alert.

  /** The fixed divisor of the average: the cell count of the depth model's 128 x 160 output. */
  const AverageDivisor: nat := 20480

  /** The alert fires when the average is strictly above this. */
  const AlertThreshold: real := 0.35

  /** convertedHeadmapInt.joined().reduce(0, +): all cells, row after row. */
  function GridSum(g: seq<seq<int>>): (total: int)
    ensures IsBinary(g) ==> total >= 0
  {
    if g == [] then 0
    else GridSum(g[..|g| - 1]) + RowSum(g[|g| - 1])
  }

  /** One row's cells, left to right; a row of 0s and 1s sums to between 0 and its length. */
  function RowSum(row: seq<int>): (total: int)
    ensures (forall i :: 0 <= i < |row| ==> row[i] == 0 || row[i] == 1) ==> 0 <= total <= |row|
  {
    if row == [] then 0 else RowSum(row[..|row| - 1]) + row[|row| - 1]
  }

  /** The alert rule: the sum over 20480 strictly above 0.35, that is, more than
      7168 cells set; exactly 35% does not fire. */
  function AlertFires(binary: seq<seq<int>>): (fires: bool)
    ensures fires <==> GridSum(binary) > 7168
  {
    (GridSum(binary) as real) / (AverageDivisor as real) > AlertThreshold
  }

  ghost predicate IsBinary(g: seq<seq<int>>)
  {
    forall j, i :: 0 <= j < |g| && 0 <= i < |g[j]| ==> g[j][i] == 0 || g[j][i] == 1
  }

  /** A binary grid of h rows of w cells sums to between 0 and w * h. */
  lemma {:induction false} GridSumBounds(g: seq<seq<int>>, w: nat, h: nat)
    requires Shaped(g, w, h) && IsBinary(g)
    ensures 0 <= GridSum(g) <= w * h
  {
    if h > 0 {
      var p := g[..h - 1];
      assert forall j :: 0 <= j < h - 1 ==> p[j] == g[j];
      GridSumBounds(p, w, h - 1);
      var last := g[h - 1];
      assert forall i :: 0 <= i < |last| ==> last[i] == 0 || last[i] == 1;
      var before, row := GridSum(p), RowSum(last);
      assert 0 <= before <= w * (h - 1) && 0 <= row <= w;
      assert GridSum(g) == before + row;
      assert w * (h - 1) + w == w * h;
    }
  }

  /** The fraction of the grid's cells that are set: the sum over the cell count. */
  function Mean(g: seq<seq<int>>): real
    requires |g| > 0 && |g[0]| > 0
  {
    (GridSum(g) as real) / ((|g| * |g[0]|) as real)
  }

  /** On any grid of 20480 cells, such as the depth model's 160 rows of 128
      cells, the rule is the intended one: the mean of the binary grid is
      strictly above 0.35. */
  lemma AlertIsMeanAboveThreshold(binary: seq<seq<int>>, w: nat, h: nat)
    requires Shaped(binary, w, h) && w * h == AverageDivisor
    ensures |binary| > 0 && |binary[0]| > 0
    ensures AlertFires(binary) <==> Mean(binary) > AlertThreshold
  {
    assert h > 0 && w > 0;
    assert |binary| * |binary[0]| == AverageDivisor;
  }

  class HomeViewController {
    var inputStatus: InputStatus
    var detectedObjects: seq<DetectedObject>
    /** homeView.objectImageView.image */
    var objectImage: Option<Picture>

    constructor ()
      ensures inputStatus == Image && detectedObjects == [] && objectImage == None
    {
      inputStatus := Image;
      detectedObjects := [];
      objectImage := None;
    }

    /** clearInput: back to waiting for an image, with no objects and no picture. */
    method ClearInput()
      modifies this
      ensures inputStatus == Image && detectedObjects == [] && objectImage == None
    {
      inputStatus := Image;
      detectedObjects := [];
      objectImage := None;
    }

    /** nextInput: from .object with a picture, start object detection and move
        to .deph; from .deph with a CGImage-backed picture, start depth
        estimation and move to .image; otherwise nothing happens. */
    method NextInput() returns (request: Request)
      modifies this
      ensures old(inputStatus) == Image ==> request == NoRequest && inputStatus == Image
      ensures old(inputStatus) == Object ==>
        if old(objectImage).Some?
        then request == ObjectDetection(old(objectImage).value) && inputStatus == Deph
        else request == NoRequest && inputStatus == Object
      ensures old(inputStatus) == Deph ==>
        if old(objectImage).Some? && old(objectImage).value.hasCGImage
        then request == DepthEstimation(old(objectImage).value) && inputStatus == Image
        else request == NoRequest && inputStatus == Deph
      ensures detectedObjects == old(detectedObjects) && objectImage == old(objectImage)
    {
      request := NoRequest;
      match inputStatus {
        case Image =>
        case Object =>
          if objectImage.None? {
            return;
          }
          request := ObjectDetection(objectImage.value);
          inputStatus := Deph;
        case Deph =>
          if objectImage.None? || !objectImage.value.hasCGImage {
            return;
          }
          request := DepthEstimation(objectImage.value);
          inputStatus := Image;
      }
    }

    /** imagePickerController(_:didFinishPickingMediaWithInfo:): a picked image
        is shown and the state becomes .object; without one nothing changes. */
    method DidFinishPicking(picked: Option<Picture>)
      modifies this
      ensures picked.None? ==>
        inputStatus == old(inputStatus) && objectImage == old(objectImage)
      ensures picked.Some? ==> objectImage == picked && inputStatus == Object
      ensures detectedObjects == old(detectedObjects)
    {
      if picked.None? {
        return;
      }
      objectImage := picked;
      inputStatus := Object;
    }

    /** drawToLDetections: with a picture, appends one object per detection, in
        detection order, after the ones already held; without one, nothing. */
    method DrawToLDetections(detections: seq<Observation>, describe: real -> string)
      modifies this
      ensures objectImage.None? ==> detectedObjects == old(detectedObjects)
      ensures objectImage.Some? ==>
        detectedObjects == old(detectedObjects) + ObjectsOf(detections, objectImage.value.size, describe)
      ensures inputStatus == old(inputStatus) && objectImage == old(objectImage)
    {
      if objectImage.None? {
        return;
      }
      var imageSize := objectImage.value.size;
      for k := 0 to |detections|
        invariant objectImage == old(objectImage) && inputStatus == old(inputStatus)
        invariant detectedObjects == old(detectedObjects) + ObjectsOf(detections[..k], imageSize, describe)
      {
        var detection := detections[k];
        var (highestConfidence, highestConfidenceLabel) := HighestConfidence(detection.labels);
        var rectangle := ToLRectangle(detection.boundingBox, imageSize);
        detectedObjects := detectedObjects +
          [DetectedObject(detection.uuid, highestConfidenceLabel + describe(highestConfidence), rectangle)];
        assert ObjectsOf(detections[..k + 1], imageSize, describe) ==
          ObjectsOf(detections[..k], imageSize, describe) + [ToDetectedObject(detection, imageSize, describe)];
      }
      assert detections[..|detections|] == detections;
    }

    /** drawFCRNDetections: without a heatmap or a picture, nothing; otherwise
        one score per detected object, in the objects' order. */
    method DrawFCRNDetections(heatmap: Option<seq<seq<real>>>) returns (scores: Option<seq<real>>)
      requires heatmap.Some? ==> Rectangular(heatmap.value)
      ensures scores.None? <==> heatmap.None? || objectImage.None?
      ensures scores.Some? ==>
        && |scores.value| == |detectedObjects|
        && forall k :: 0 <= k < |detectedObjects| ==>
             scores.value[k] == ObjectScore(heatmap.value, objectImage.value.size, detectedObjects[k].rectangle)
    {
      if heatmap.None? || objectImage.None? {
        return None;
      }
      var hm := heatmap.value;
      var size := objectImage.value.size;
      var w := CellSize(size.width, ColumnCount(hm));
      var h := CellSize(size.height, RowCount(hm));
      var detectedObjectColorsSum: seq<real> := [];
      for k := 0 to |detectedObjects|
        invariant |detectedObjectColorsSum| == k
        invariant forall n :: 0 <= n < k ==>
          detectedObjectColorsSum[n] == ObjectScore(hm, size, detectedObjects[n].rectangle)
      {
        var objectColorValue := ObjectColorValue(hm, w, h, detectedObjects[k].rectangle);
        detectedObjectColorsSum := detectedObjectColorsSum + [objectColorValue];
      }
      scores := Some(detectedObjectColorsSum);
    }

    /** The depth request's completion: convert the tensor, score the objects
        against the heatmap and decide the alert from the binary grid. A
        degenerate range stops before scoring, without an alert. */
    method CompleteDepthRequest(t: Tensor) returns (scores: Option<seq<real>>, alert: bool)
      requires Readable(t)
      ensures ConversionOf(t).DegenerateRange? ==> scores.None? && !alert
      ensures ConversionOf(t).Converted? ==>
        && alert == AlertFires(ConversionOf(t).binary)
        && (scores.None? <==> objectImage.None?)
        && (scores.Some? ==>
              && |scores.value| == |detectedObjects|
              && forall k :: 0 <= k < |detectedObjects| ==>
                   scores.value[k] == ObjectScore(ConversionOf(t).heatmap, objectImage.value.size, detectedObjects[k].rectangle))
    {
      var conversion := ConvertTo2DArray(t);
      if conversion.DegenerateRange? {
        return None, false;
      }
      assert Rectangular(conversion.heatmap) by {
        if |t.shape| >= 3 {
          assert Shaped(conversion.heatmap, HeatmapW(t), HeatmapH(t));
        }
      }
      scores := DrawFCRNDetections(Some(conversion.heatmap));
      alert := AlertFires(conversion.binary);
    }
  }
}
