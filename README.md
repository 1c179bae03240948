# TriangleOfLife heatmap and detection pipeline, in Dafny

TriangleOfLife is an iOS app. It overlays the results of two models on a photo the user picks: an object detector that returns labelled bounding boxes, and a depth model (FCRN) that returns a confidence tensor. This project models the app's logic, proves properties of it, and leaves the UI and the model calls out:

- **Tensor normaliser** (`convertTo2DArray`, module `TensorNormalizer`). It reads the tensor's first plane into a `heatmap_h × heatmap_w` grid and skips non-positive confidences. It tracks the running minimum and maximum of the positive ones, rescales every cell by `(v - min) / (max - min)`, and cuts the result at 0.5 into a binary grid. It is written the way the source works: three nested loops that update the grid and the running minimum and maximum. Each pass is proved against a specification function. The properties are lemmas about those functions.
- **Overlay drawing** (`DrawingView`, module `Drawing`). Each value is clamped into [0, 1] and drawn as a grey of lightness `1 - alpha` in cell `(i*w, j*h, w, h)`. Lemmas prove that the cells tile the view.
- **Detection post-processing** (shared by `HomeViewController` and `ViewController`, module `Detections`). The label fold is a `reduce` with a strict `>`, so the first label wins ties. The box conversion maps a normalised box with a bottom-left origin to a pixel rectangle with a top-left origin.
- **Session controller** (`HomeViewController`, module `Session`). It covers:
  - the `InputStatus` state machine (`.image → .object → .deph → .image`);
  - the append-only `detectedObjects` list;
  - the per-object overlay score: the sum of `1 - clamp(v)` over the cells that meet the object;
  - the alert rule: the sum of the binary grid over 20480, strictly above 0.35;
  - the depth request's completion, which chains all of these.
- **Older preview screen** (`ViewController`, module `Preview`). It uses the same fold, and the box conversion without the 95% width factor.
- **Rotation helpers** (`Rotatable`, module `Rotation`). These are the degree/radian conversions and `rotate`.

Swift's `Double`, `CGFloat` and `Float` are modelled as `real`. `Double.greatestFiniteMagnitude` and `Double.pi` are written out as the exact rationals they denote. Tensor entries have the subset type `Double`: the reals no larger in magnitude than greatestFiniteMagnitude. So the sentinel start values of the running minimum and maximum act exactly as they do in the source.

Points where the code's behaviour is easy to misread, modelled as the code has them:

- A tensor with fewer than three dimensions gives two empty grids, and no error is raised.
- The alert divides by the literal 20480, which is 128 × 160, the cell count of FCRN's output. It does not divide by the cell count of the grid it is given. `AlertIsMeanAboveThreshold` proves that on any grid of 20480 cells the rule is "mean of the binary grid > 0.35".
- In `drawFCRNDetections` and `DrawingView.draw`, `heatmap_w` is `heatmap.count`, the number of rows of the converted grid. The value is read as `heatmap[i][j]` with `i` along x. The model does the same.

## Model

| member | source | states |
|---|---|---|
| TensorNormalizer.ConvertTo2DArray | TriangleOfLife/TriangleOfLife/Utils/Extension/UIViewController+Extensions.swift:12-62 | With fewer than 3 dimensions the result is two empty grids. With no positive range the result is DegenerateRange, exactly when `HasRange` fails. Otherwise the result is the normalised grid and its binary cut, both `heatmap_h` rows of `heatmap_w` cells, with `w = shape[1]` and `h = shape[2]`. |
| TensorNormalizer.FilterPass | TriangleOfLife/TriangleOfLife/Utils/Extension/UIViewController+Extensions.swift:21-40 | Cell `[j][i]` holds the confidence at flat index `i*h + j` if it is positive, else 0. `minimumValue` and `maximumValue` are exactly the least and greatest positive confidences. With no positive confidence they keep the ±greatestFiniteMagnitude sentinels. |
| TensorNormalizer.RescalePass | TriangleOfLife/TriangleOfLife/Utils/Extension/UIViewController+Extensions.swift:42-48 | Every cell, including the skipped ones, becomes `(v - minimumValue) / minmaxGap`. |
| TensorNormalizer.BinarizePass | TriangleOfLife/TriangleOfLife/Utils/Extension/UIViewController+Extensions.swift:50-59 | The binary grid has the same shape. Each cell is 0 or 1, and it is 1 exactly when the normalised cell is ≥ 0.5, so 0.5 itself gives 1. |
| TensorNormalizer.RunningMinIsPositiveMin | TriangleOfLife/TriangleOfLife/Utils/Extension/UIViewController+Extensions.swift:23-35 | The running minimum is one of the positive confidences and is ≤ all of them, so non-positive entries never affect it. With none positive it stays greatestFiniteMagnitude. |
| TensorNormalizer.RunningMaxIsPositiveMax | TriangleOfLife/TriangleOfLife/Utils/Extension/UIViewController+Extensions.swift:24-38 | The running maximum is one of the positive confidences and is ≥ all of them. With none positive it stays -greatestFiniteMagnitude. |
| TensorNormalizer.HasRangeIffTwoDistinctPositives | TriangleOfLife/TriangleOfLife/Utils/Extension/UIViewController+Extensions.swift:42-46 | The division has a positive range exactly when the plane holds two different positive confidences. It excludes both degenerate cases: no positive entry, and all positive entries equal. |
| TensorNormalizer.FlatIndexReadOnce | TriangleOfLife/TriangleOfLife/Utils/Extension/UIViewController+Extensions.swift:26-29 | Every flat index `k < w*h` is the cell `(k / h, k % h)` and is read there. No two cells share a flat index. |
| TensorNormalizer.PositiveCellsInUnitInterval | TriangleOfLife/TriangleOfLife/Utils/Extension/UIViewController+Extensions.swift:42-48 | Every cell read from a positive confidence normalises into [0, 1]. |
| TensorNormalizer.ExtremesMapToEndpoints | TriangleOfLife/TriangleOfLife/Utils/Extension/UIViewController+Extensions.swift:42-48 | Cells holding the maximum normalise to 1, and cells holding the minimum normalise to 0. |
| TensorNormalizer.ExtremeCellsExist | TriangleOfLife/TriangleOfLife/Utils/Extension/UIViewController+Extensions.swift:30-39 | Some cell holds the maximum and some cell holds the minimum, so the grid reaches both 1 and 0. |
| TensorNormalizer.RescaleIsOrderPreserving | TriangleOfLife/TriangleOfLife/Utils/Extension/UIViewController+Extensions.swift:44-48 | On cells with positive confidences the rescale preserves and reflects both `<` and `≤`. |
| TensorNormalizer.FilteredCellsBinarizeToZero | TriangleOfLife/TriangleOfLife/Utils/Extension/UIViewController+Extensions.swift:30-56 | A skipped cell (confidence ≤ 0) is still rescaled. It ends at `-min/(max-min)`, not 0. That value is negative, so the cell binarises to 0. |
| TensorNormalizer.BinaryCellIsUpperHalf | TriangleOfLife/TriangleOfLife/Utils/Extension/UIViewController+Extensions.swift:42-56 | A binary cell is 1 exactly when its confidence is positive and at least `(min + max) / 2`. |
| Drawing.Clamp | TriangleOfLife/TriangleOfLife/Screens/DrawingView.swift:32-37 | Alpha lies in [0, 1] and equals the value when the value is already in [0, 1]. Values above 1 give 1, and values below 0 give 0. |
| Drawing.Lightness | TriangleOfLife/TriangleOfLife/Screens/DrawingView.swift:42 | The grey `1 - alpha` lies in [0, 1] and is `1 - value` on [0, 1]. |
| Drawing.LightnessIsAntitone | TriangleOfLife/TriangleOfLife/Screens/DrawingView.swift:42 | The lightness never increases as the value grows. |
| Drawing.DrawingView.constructor | TriangleOfLife/TriangleOfLife/Screens/DrawingView.swift:11 | A new view has no heatmap. |
| Drawing.DrawingView.SetHeatmap | TriangleOfLife/TriangleOfLife/Screens/DrawingView.swift:11-15 | Assigning the heatmap stores it and asks for a redraw. |
| Drawing.DrawingView.Draw | TriangleOfLife/TriangleOfLife/Screens/DrawingView.swift:17-49 | With no heatmap, no cell is drawn. Otherwise exactly `heatmap_w * heatmap_h` cells are drawn, row `j` by row `j`. The k-th cell is `(k % heatmap_w, k / heatmap_w)`, so each `(i, j)` is drawn once. It reads `heatmap[i][j]` and uses rectangle `(i*w, j*h, w, h)` and grey `1 - clamp`. |
| Drawing.CellsInsideBounds | TriangleOfLife/TriangleOfLife/Screens/DrawingView.swift:23-39 | With `w = width/heatmap_w` and `h = height/heatmap_h`, every cell lies inside the view's bounds. |
| Geometry.Intersects | TriangleOfLife/TriangleOfLife/Screens/HomeViewController.swift:312 | `CGRect.intersects`, taken as the strict overlap of the open x- and y-intervals. When both rectangles are non-empty, intersecting rectangles share a point: the corner `(max minX, max minY)`. |
| Geometry.IntersectsIffCommonPoint | TriangleOfLife/TriangleOfLife/Screens/HomeViewController.swift:312 | Rectangles sharing a point intersect. Non-empty rectangles intersect exactly when they share a point. |
| Drawing.CellsDisjoint | TriangleOfLife/TriangleOfLife/Screens/DrawingView.swift:26-39 | Two different cells never overlap. |
| Drawing.CellsCoverBounds | TriangleOfLife/TriangleOfLife/Screens/DrawingView.swift:26-39 | Every point of the bounds lies in a cell: the one at `(⌊x/w⌋, ⌊y/h⌋)`. |
| Detections.HighestConfidence | TriangleOfLife/TriangleOfLife/Screens/HomeViewController.swift:241-243 | The strict-`>` fold from `(0, "")`. Its confidence is ≥ 0 and ≥ every label's. The result is either `(0, "")` or the confidence and identifier of one of the labels. ViewController.swift:115-117 has the same fold. |
| Detections.HighestConfidenceIsFirstMaximum | TriangleOfLife/TriangleOfLife/Screens/HomeViewController.swift:241-243 | The folded confidence is ≥ 0 and ≥ every label's confidence. With no positive confidence the result is `(0, "")`. Otherwise it is the maximum, with the identifier of the first label that reaches it, and every earlier label is strictly lower. ViewController.swift:115-117 has the same fold. |
| Detections.ToPixels | TriangleOfLife/TriangleOfLife/ViewController.swift:121 | For a non-negative image size, the rectangle is the box scaled by `W` and `H`: its width is `width*W` and its height is `height*H`. Its left edge is `minX*W`, and its top edge is `(1 - maxY)*H`, the box's top edge flipped. |
| Detections.ToPixelsIsVerticalFlip | TriangleOfLife/TriangleOfLife/ViewController.swift:120-121 | The pixel rectangle's top-left and bottom-right corners are the flips `(u*W, (1-v)*H)` of the box's top-left and bottom-right corners. |
| Detections.ToPixelsInside | TriangleOfLife/TriangleOfLife/ViewController.swift:121 | A box inside the unit square maps inside `[0, W] × [0, H]`. |
| Detections.ToPixelsRoundTrip | TriangleOfLife/TriangleOfLife/ViewController.swift:121 | For `W, H > 0`, converting back gives the standardised box, so no information is lost. |
| Session.ToLRectangle | TriangleOfLife/TriangleOfLife/Screens/HomeViewController.swift:246-250 | The same conversion with the image width taken at 95%: width `width*0.95W`, height `height*H`, left edge `minX*0.95W`, top edge `(1 - maxY)*H`. |
| Session.ToLRectangleInside | TriangleOfLife/TriangleOfLife/Screens/HomeViewController.swift:246-250 | With the 0.95 width factor, a unit-square box maps inside `[0, 0.95W] × [0, H]`. |
| Session.ToDetectedObject | TriangleOfLife/TriangleOfLife/Screens/HomeViewController.swift:241-264 | The appended object carries the detection's uuid and the 95% rectangle. Its label text starts with the fold's identifier. |
| Session.ObjectsOf | TriangleOfLife/TriangleOfLife/Screens/HomeViewController.swift:240-264 | One object per detection, in detection order, each with that detection's uuid. |
| Session.ObjectsOfConcatenation | TriangleOfLife/TriangleOfLife/Screens/HomeViewController.swift:240-264 | Two detection batches give the first batch's objects followed by the second's: an append-only store in detection order. |
| Session.ObjectColorValue | TriangleOfLife/TriangleOfLife/Screens/HomeViewController.swift:298-323 | The inner loops add up `1 - clamp(heatmap[i][j])` over exactly the cells whose rectangle meets the object, row by row. |
| Session.ObjectScore | TriangleOfLife/TriangleOfLife/Screens/HomeViewController.swift:290-325 | The score of an object over a heatmap drawn on an image of the given size, with cell extents `width/heatmap_w` and `height/heatmap_h`. Every score lies in `[0, heatmap_w * heatmap_h]`. |
| Session.CellContribution | TriangleOfLife/TriangleOfLife/Screens/HomeViewController.swift:302-317 | A cell adds a value in [0, 1]. It adds 0 when its rectangle does not meet the object's. When it meets the object and the value is in [0, 1], it adds `1 - value`. |
| Session.ObjectScoreWithoutOverlap | TriangleOfLife/TriangleOfLife/Screens/HomeViewController.swift:311-317 | An object that no cell meets scores 0. |
| Session.ObjectScoreIsAntitone | TriangleOfLife/TriangleOfLife/Screens/HomeViewController.swift:302-317 | Raising heatmap values never raises a score. |
| Session.ObjectScoreExample | TriangleOfLife/TriangleOfLife/Screens/HomeViewController.swift:290-325 | For the 2 × 2 heatmap `[[0.2, 0.8], [0.5, 1.0]]` over 100 × 100, an object covering exactly cell (0, 0) scores 1 - 0.2 = 0.8. |
| Session.AlertFires | TriangleOfLife/TriangleOfLife/Screens/HomeViewController.swift:86-93 | The alert fires exactly when more than 7168 binary cells are set, that is when sum/20480 > 0.35 strictly. Exactly 35% does not fire. |
| Session.GridSumBounds | TriangleOfLife/TriangleOfLife/Screens/HomeViewController.swift:86 | A binary grid of `h` rows of `w` cells sums to a value in `[0, w*h]`. |
| Session.GridSum | TriangleOfLife/TriangleOfLife/Screens/HomeViewController.swift:86 | `joined().reduce(0, +)`, row after row. The sum of a 0/1 grid is never negative, and each 0/1 row (`RowSum`) sums to between 0 and its length. |
| Session.AlertIsMeanAboveThreshold | TriangleOfLife/TriangleOfLife/Screens/HomeViewController.swift:86-91 | On any grid of `h` rows of `w` cells with `w * h = 20480`, such as FCRN's 160 × 128 grid, the alert fires exactly when `Mean`, the sum over the grid's own cell count, is strictly above 0.35. |
| Session.HomeViewController.constructor | TriangleOfLife/TriangleOfLife/Screens/HomeViewController.swift:24-25 | A session starts in `.image` with no objects. |
| Session.HomeViewController.ClearInput | TriangleOfLife/TriangleOfLife/Screens/HomeViewController.swift:173-179 | Whatever the state was, it becomes `.image`, with no detected objects and no picture. |
| Session.HomeViewController.NextInput | TriangleOfLife/TriangleOfLife/Screens/HomeViewController.swift:181-195 | `.image` does nothing. `.object` with a picture starts object detection and moves to `.deph`. `.deph` with a CGImage-backed picture starts depth estimation and moves to `.image`. When a guard fails, nothing changes. |
| Session.HomeViewController.DidFinishPicking | TriangleOfLife/TriangleOfLife/Screens/HomeViewController.swift:200-209 | A picked image is stored and the state becomes `.object`. When there is no image, nothing changes. |
| Session.HomeViewController.DrawToLDetections | TriangleOfLife/TriangleOfLife/Screens/HomeViewController.swift:231-268 | With a picture, exactly one object is appended per detection, in order and without deduplication. Each object has the fold's label and the 0.95-scaled rectangle. Earlier entries are untouched. Without a picture, nothing changes. |
| Session.HomeViewController.DrawFCRNDetections | TriangleOfLife/TriangleOfLife/Screens/HomeViewController.swift:277-334 | Without a heatmap or a picture there are no scores. Otherwise there is one score per detected object, in `detectedObjects` order, so the list is empty when there are no objects. |
| Session.HomeViewController.CompleteDepthRequest | TriangleOfLife/TriangleOfLife/Screens/HomeViewController.swift:69-94 | The tensor is converted, every object is scored against the heatmap, and the alert comes from the binary grid. A degenerate range stops before scoring, with no alert. |
| Preview.PreviewRectangle | TriangleOfLife/TriangleOfLife/ViewController.swift:120-121 | The conversion at the full image width: width `width*W`, height `height*H`, left edge `minX*W`, top edge `(1 - maxY)*H`. |
| Preview.AnnotationOf | TriangleOfLife/TriangleOfLife/ViewController.swift:115-129 | The drawn rectangle is `PreviewRectangle`. The text is drawn at that rectangle's top-left corner. The text is the fold's identifier followed by a space. |
| Preview.PreviewRectangleInside | TriangleOfLife/TriangleOfLife/ViewController.swift:120-121 | Without the 0.95 factor, a unit-square box maps inside `[0, W] × [0, H]`. |
| Preview.AnnotationUsesHighestLabel | TriangleOfLife/TriangleOfLife/ViewController.swift:115-117 | The drawn text is the fold's identifier, then a space, then its confidence. The confidence is ≥ every label's, and on ties the earliest label wins. With no positive confidence the text is `" "` followed by the description of 0. |
| Preview.TextAtTopLeftCorner | TriangleOfLife/TriangleOfLife/ViewController.swift:128-129 | The text is drawn at the flip of the box's top-left corner. |
| Preview.DrawDetectionsOnPreview | TriangleOfLife/TriangleOfLife/ViewController.swift:104-136 | With no image, nothing is drawn. Otherwise there is one annotation per detection, in order. |
| Rotation.DegreesToRadians | TriangleOfLife/TriangleOfLife/Utils/Extension/Rotatable.swift:42-45 | `π * value / 180`. Scaling the radians back by `180/π` recovers the degrees. |
| Rotation.RadiansToDegrees | TriangleOfLife/TriangleOfLife/Utils/Extension/Rotatable.swift:47-50 | `value * 180 / π`. Scaling the degrees back by `π/180` recovers the radians. |
| Rotation.StraightAngle | TriangleOfLife/TriangleOfLife/Utils/Extension/Rotatable.swift:42-50 | 180° is π, and 0° is 0, in both directions. |
| Rotation.ConversionsAreInverse | TriangleOfLife/TriangleOfLife/Utils/Extension/Rotatable.swift:42-50 | `radiansToDegrees ∘ degreesToRadians` is the identity, and so is the reverse composition. |
| Rotation.ConversionsAreLinear | TriangleOfLife/TriangleOfLife/Utils/Extension/Rotatable.swift:42-50 | Both conversions are additive and preserve sign and strict order. |
| Rotation.RotatableView.RotateRadians | TriangleOfLife/TriangleOfLife/Utils/Extension/Rotatable.swift:30-33 | The transform becomes the rotation by that angle. The `animated` flag has no effect. |
| Rotation.RotatableView.RotateDegrees | TriangleOfLife/TriangleOfLife/Utils/Extension/Rotatable.swift:25-28 | It sets the same transform as `rotate(radians: degreesToRadians(degrees))`. |

## Left out

- TensorNormalizer.ConvertTo2DArray: returns DegenerateRange where the source computes anyway.
  - With no positive confidence, the source's `max - min` overflows to -∞ and every cell becomes 0.
  - With all positive confidences equal, the source divides by 0 and gets NaN and -∞.
  - In both cases the source's binary grid is all 0. The model's `CompleteDepthRequest` gives no alert either way, but it does not score objects.
- Session.HomeViewController.CompleteDepthRequest: on a degenerate range it returns no scores, where the source would draw and score a grid of zeros or non-finite values.
- The tensor's elements must exist at every flat index the first pass reads (`Readable`). The source traps otherwise.
- Heatmaps passed to drawing and scoring must be rectangular. The source traps on a short row.
- Drawing.CellSize: zero cells along an axis gives a cell extent of 0. The source divides by zero, but no cell is visited then.
- `CGRect.intersects` is assumed to be the strict overlap of the open x- and y-intervals of the standardised rectangles.
- The Core ML and Vision requests, model loading and their `fatalError` paths are foreign calls. The tensor and the observations are inputs, and `NextInput` returns the request it would start.
- `DispatchQueue` hops are concurrency, so the pipeline is modelled as sequential calls. Stale completions after a reset are not discarded, in the source or in the model.
- The change of operation order caused by the asynchronous requests is not modelled.
- UIKit drawing is left out: contexts, the green box fills, the grey fills in `drawFCRNDetections`, the image views `clearInput` empties (except the object image), the context guard in `drawFCRNDetections`, and `ctx.clear` in `draw(_:)`. The grey fill policy is modelled once, in `DrawingView.Draw`.
- Float's `description` formatting is a library call, so it is passed in as the parameter `describe`. The Swift field `label` is named `labelText`, because `label` is a Dafny keyword.
- The `rotation` getter is left out, because it relies on `atan2f` and floating point.
- IEEE behaviour is left out: rounding, overflow, NaN and infinities, and the `Float32` average. Arithmetic is exact over the reals. For integer sums, the strict comparison with 0.35 gives the same verdict as with `Float32`.
- Timing (`CFAbsoluteTimeGetCurrent`), `print` and `dump` are left out.
- The image pickers, alert sheets, the haptic call (modelled as the returned `alert` flag), Auto Layout, `HomeView.swift` and `AppDelegate.swift` are UI and left out.
- ViewController's picker delegate and `processDetections` are UI and asynchronous glue around `drawDetectionsOnPreview`, and are left out.
