/** ViewController: the older screen that draws each detection's best label
    and box over the chosen photo. */
module Preview {
  import opened Geometry
  import opened Optional
  import opened Detections

  /** What is drawn for one detection: the label text, where the text is
      drawn, and the filled box. */
  datatype Annotation = Annotation(text: string, textOrigin: (real, real), rectangle: Rect)

  /** drawDetectionsOnPreview's rectangle: the full image width, no 95% factor. */
  function PreviewRectangle(box: Rect, size: Size): (r: Rect)
    ensures size.width >= 0.0 && size.height >= 0.0 ==>
      && Width(r) == Width(box) * size.width && Height(r) == Height(box) * size.height
      && MinX(r) == MinX(box) * size.width
      && MinY(r) == (1.0 - MaxY(box)) * size.height
  {
    ToPixels(box, size.width, size.height)
  }

  /** A box in the unit square lands inside [0, W] x [0, H]. */
  lemma PreviewRectangleInside(box: Rect, size: Size)
    requires size.width >= 0.0 && size.height >= 0.0
    requires Inside(box, 1.0, 1.0)
    ensures Inside(PreviewRectangle(box, size), size.width, size.height)
  {
    ToPixelsInside(box, size.width, size.height);
  }

  /** The annotation of one detection; describe stands for Float's description. */
  function AnnotationOf(d: Observation, size: Size, describe: real -> string): (a: Annotation)
    ensures a.rectangle == PreviewRectangle(d.boundingBox, size)
    ensures a.textOrigin == (MinX(a.rectangle), MinY(a.rectangle))
    ensures var identifier := HighestConfidence(d.labels).1;
      |identifier| < |a.text| && a.text[..|identifier|] == identifier && a.text[|identifier|] == ' '
  {
    var (highestConfidence, highestConfidenceLabel) := HighestConfidence(d.labels);
    var rectangle := PreviewRectangle(d.boundingBox, size);
    Annotation(highestConfidenceLabel + " " + describe(highestConfidence), (MinX(rectangle), MinY(rectangle)), rectangle)
  }

  /** The label drawn is the fold's: its confidence is at least every label's,
      and when some confidence is positive it is the first label reaching the
      maximum; with none positive the text is "" + " " + the description of 0. */
  lemma AnnotationUsesHighestLabel(d: Observation, size: Size, describe: real -> string)
    ensures var (c, id) := HighestConfidence(d.labels);
      && AnnotationOf(d, size, describe).text == id + " " + describe(c)
      && (forall k :: 0 <= k < |d.labels| ==> d.labels[k].confidence <= c)
      && (!HasPositiveConfidence(d.labels) ==> AnnotationOf(d, size, describe).text == " " + describe(0.0))
      && (HasPositiveConfidence(d.labels) ==>
            exists k :: 0 <= k < |d.labels| && d.labels[k].confidence == c && d.labels[k].identifier == id
                        && forall m :: 0 <= m < k ==> d.labels[m].confidence < c)
  {
    HighestConfidenceIsFirstMaximum(d.labels);
  }

  /** The text is drawn at the top-left corner of the box. */
  lemma TextAtTopLeftCorner(d: Observation, size: Size, describe: real -> string)
    requires size.width >= 0.0 && size.height >= 0.0
    ensures var a := AnnotationOf(d, size, describe);
      a.textOrigin == FlipPoint(MinX(d.boundingBox), MaxY(d.boundingBox), size.width, size.height)
  {
    ToPixelsIsVerticalFlip(d.boundingBox, size.width, size.height);
  }

  /** drawDetectionsOnPreview: without an image nothing is drawn; otherwise one
      annotation per detection, in detection order. */
  method DrawDetectionsOnPreview(image: Option<Size>, detections: seq<Observation>, describe: real -> string)
    returns (annotations: seq<Annotation>)
    ensures image.None? ==> annotations == []
    ensures image.Some? ==>
      && |annotations| == |detections|
      && forall k :: 0 <= k < |detections| ==> annotations[k] == AnnotationOf(detections[k], image.value, describe)
  {
    annotations := [];
    if image.None? {
      return;
    }
    var imageSize := image.value;
    for k := 0 to |detections|
      invariant |annotations| == k
      invariant forall n :: 0 <= n < k ==> annotations[n] == AnnotationOf(detections[n], imageSize, describe)
    {
      var detection := detections[k];
      var (highestConfidence, highestConfidenceLabel) := HighestConfidence(detection.labels);
      var boundingBox := detection.boundingBox;
      var rectangle := Rect(MinX(boundingBox) * imageSize.width,
                            (1.0 - MinY(boundingBox) - Height(boundingBox)) * imageSize.height,
                            Width(boundingBox) * imageSize.width, Height(boundingBox) * imageSize.height);
      var annotation := Annotation(highestConfidenceLabel + " " + describe(highestConfidence),
                                   (MinX(rectangle), MinY(rectangle)), rectangle);
      assert rectangle == PreviewRectangle(boundingBox, imageSize);
      assert annotation == AnnotationOf(detection, imageSize, describe);
      annotations := annotations + [annotation];
    }
  }
}
