/** What both view controllers do with one object-detection result: pick the
    label with the highest confidence and turn the normalized bounding box
    into a pixel rectangle. */
module Detections {
  import opened Geometry

  /** A classification label of a detection and its confidence. */
  datatype Label = Label(identifier: string, confidence: real)

  /** A recognized object: its uuid, its labels and its bounding box in
      normalized image coordinates with the origin at the bottom left. */
  datatype Observation = Observation(uuid: string, labels: seq<Label>, boundingBox: Rect)

  /** labels.reduce((0, "")) keeping a label only when its confidence is
      strictly greater than the one kept so far. */
  function HighestConfidence(labels: seq<Label>): (best: (real, string))
    ensures best.0 >= 0.0
    ensures forall k :: 0 <= k < |labels| ==> labels[k].confidence <= best.0
    ensures best == (0.0, "") ||
      exists k :: 0 <= k < |labels| && labels[k].confidence == best.0 && labels[k].identifier == best.1
  {
    if labels == [] then (0.0, "")
    else
      var result, candidate := HighestConfidence(labels[..|labels| - 1]), labels[|labels| - 1];
      if candidate.confidence > result.0 then (candidate.confidence, candidate.identifier) else result
  }

  ghost predicate HasPositiveConfidence(labels: seq<Label>)
  {
    exists k :: 0 <= k < |labels| && labels[k].confidence > 0.0
  }

  /** The fold's result: a confidence at least 0 and at least every label's;
      (0, "") when no confidence is positive; otherwise the greatest confidence
      with the identifier of the first label that has it, every earlier label
      being strictly lower. */
  lemma {:induction false} HighestConfidenceIsFirstMaximum(labels: seq<Label>)
    ensures var (c, id) := HighestConfidence(labels);
      && c >= 0.0
      && (forall k :: 0 <= k < |labels| ==> labels[k].confidence <= c)
      && (!HasPositiveConfidence(labels) ==> c == 0.0 && id == "")
      && (HasPositiveConfidence(labels) ==>
            exists k :: 0 <= k < |labels| && labels[k].confidence == c && labels[k].identifier == id
                        && forall m :: 0 <= m < k ==> labels[m].confidence < c)
  {
    if labels != [] {
      var p, candidate := labels[..|labels| - 1], labels[|labels| - 1];
      assert labels == p + [candidate];
      assert forall k :: 0 <= k < |p| ==> labels[k] == p[k];
      HighestConfidenceIsFirstMaximum(p);
      var (c, id) := HighestConfidence(p);
      if candidate.confidence > c {
        assert labels[|labels| - 1] == candidate;
      } else if HasPositiveConfidence(p) {
        var k :| 0 <= k < |p| && p[k].confidence == c && p[k].identifier == id
                 && forall m :: 0 <= m < k ==> p[m].confidence < c;
        assert labels[k] == p[k];
      } else {
        assert !HasPositiveConfidence(labels);
      }
    }
  }

  /** CGRect(x: minX * W, y: (1 - minY - height) * H, width: width * W,
      height: height * H): a bottom-left normalized box as a top-left pixel
      rectangle of a W-by-H image. */
  function ToPixels(box: Rect, imageWidth: real, imageHeight: real): (r: Rect)
    ensures imageWidth >= 0.0 && imageHeight >= 0.0 ==>
      && Width(r) == Width(box) * imageWidth && Height(r) == Height(box) * imageHeight
      && MinX(r) == MinX(box) * imageWidth
      && MinY(r) == (1.0 - MaxY(box)) * imageHeight
  {
    ScaleNonNegative(Width(box), imageWidth);
    ScaleNonNegative(Height(box), imageHeight);
    Rect(MinX(box) * imageWidth, (1.0 - MinY(box) - Height(box)) * imageHeight,
         Width(box) * imageWidth, Height(box) * imageHeight)
  }

  /** The flip itself: normalized point (u, v), origin bottom left, is pixel
      (u * W, (1 - v) * H), origin top left. */
  function FlipPoint(u: real, v: real, imageWidth: real, imageHeight: real): (real, real)
  {
    (u * imageWidth, (1.0 - v) * imageHeight)
  }

  /** The box's top-left and bottom-right corners go to the origin and the far
      corner of the pixel rectangle: the conversion is the vertical flip of the
      box, scaled. */
  lemma ToPixelsIsVerticalFlip(box: Rect, imageWidth: real, imageHeight: real)
    requires imageWidth >= 0.0 && imageHeight >= 0.0
    ensures var r := ToPixels(box, imageWidth, imageHeight);
      && FlipPoint(MinX(box), MaxY(box), imageWidth, imageHeight) == (MinX(r), MinY(r))
      && FlipPoint(MaxX(box), MinY(box), imageWidth, imageHeight) == (MaxX(r), MaxY(r))
  {
    var r := ToPixels(box, imageWidth, imageHeight);
    assert Width(box) >= 0.0 && Height(box) >= 0.0;
    assert MaxX(box) == MinX(box) + Width(box) && MaxY(box) == MinY(box) + Height(box);
    ScaleNonNegative(Width(box), imageWidth);
    ScaleNonNegative(Height(box), imageHeight);
    assert (1.0 - MaxY(box)) * imageHeight == r.y;
    assert MinX(r) == r.x && MinY(r) == r.y;
    assert MaxX(r) == r.x + r.width && MaxY(r) == r.y + r.height;
    assert MaxX(box) * imageWidth == r.x + r.width;
    assert (1.0 - MinY(box)) * imageHeight == r.y + r.height;
    assert FlipPoint(MinX(box), MaxY(box), imageWidth, imageHeight).0 == r.x;
    assert FlipPoint(MinX(box), MaxY(box), imageWidth, imageHeight).1 == r.y;
    assert MaxX(box) * imageWidth == MinX(box) * imageWidth + Width(box) * imageWidth;
    assert (1.0 - MinY(box)) * imageHeight ==
      (1.0 - MinY(box) - Height(box)) * imageHeight + Height(box) * imageHeight;
    assert MaxX(r) == MaxX(box) * imageWidth;
    assert MaxY(r) == (1.0 - MinY(box)) * imageHeight;
    assert FlipPoint(MaxX(box), MinY(box), imageWidth, imageHeight).0 == MaxX(r);
    assert FlipPoint(MaxX(box), MinY(box), imageWidth, imageHeight).1 == MaxY(r);
  }

  /** A box in the unit square lands inside the W-by-H image. */
  lemma ToPixelsInside(box: Rect, imageWidth: real, imageHeight: real)
    requires imageWidth >= 0.0 && imageHeight >= 0.0
    requires Inside(box, 1.0, 1.0)
    ensures Inside(ToPixels(box, imageWidth, imageHeight), imageWidth, imageHeight)
  {
    ToPixelsIsVerticalFlip(box, imageWidth, imageHeight);
    assert MinX(box) * imageWidth >= 0.0;
    assert MaxX(box) * imageWidth <= imageWidth by {
      assert imageWidth - MaxX(box) * imageWidth == (1.0 - MaxX(box)) * imageWidth;
    }
    assert (1.0 - MaxY(box)) * imageHeight >= 0.0;
    assert (1.0 - MinY(box)) * imageHeight <= imageHeight by {
      assert imageHeight - (1.0 - MinY(box)) * imageHeight == MinY(box) * imageHeight;
    }
  }

  /** The box with a non-negative extent, as CGRect's accessors see it. */
  function Standardized(box: Rect): Rect
  {
    Rect(MinX(box), MinY(box), Width(box), Height(box))
  }

  /** The inverse conversion, from a top-left pixel rectangle back to a
      bottom-left normalized box. */
  function FromPixels(r: Rect, imageWidth: real, imageHeight: real): Rect
    requires imageWidth != 0.0 && imageHeight != 0.0
  {
    Rect(r.x / imageWidth, 1.0 - r.y / imageHeight - r.height / imageHeight,
         r.width / imageWidth, r.height / imageHeight)
  }

  /** For a non-empty image nothing is lost: converting back gives the
      standardized box. */
  lemma ToPixelsRoundTrip(box: Rect, imageWidth: real, imageHeight: real)
    requires imageWidth > 0.0 && imageHeight > 0.0
    ensures FromPixels(ToPixels(box, imageWidth, imageHeight), imageWidth, imageHeight) == Standardized(box)
  {
    var r := ToPixels(box, imageWidth, imageHeight);
    CancelScale(MinX(box), imageWidth);
    CancelScale(Width(box), imageWidth);
    CancelScale(Height(box), imageHeight);
    CancelScale(1.0 - MinY(box) - Height(box), imageHeight);
  }

  lemma ScaleNonNegative(a: real, s: real)
    requires a >= 0.0
    ensures s >= 0.0 ==> a * s >= 0.0
  {
  }

  lemma CancelScale(a: real, s: real)
    requires s != 0.0
    ensures a * s / s == a
  {
  }
}
