# Detection post-processing of a Faster R-CNN test run, in Dafny

This project models the post-processing core of `test_res.py`, the script that
evaluates a Faster R-CNN detector on an image database. For every image it takes
the detector's R x K class scores and R x 4K per-class boxes. For each non-background
class it keeps the proposals whose score is strictly above a confidence threshold,
lets non-maximum suppression (nms) choose among them, and stores the survivors in
a dense `all_boxes[class][image]` table. It then caps the image's detections across
all classes at `max_per_image`, keeping every detection tied at the cutoff. With
bounding-box regression off, `im_detect` simply repeats each proposal box once per
class.

Modules:

- `ArrayOps`: the numpy operations the core is built from, on sequences of reals.
  `Where` is numpy's where on a one-sided score mask. `Gather` is fancy indexing.
  `SortAsc` is the ascending sort. `KthLargest` is the m-th largest value, read
  from the end of the sorted sequence. `Filter` and `Count` are the reference
  definitions the lemmas are stated against.
- `ImDetect`: the `Prediction` a detector run yields, its shape predicate, the box
  block of a class, and the tiling done when regression is off.
- `Detections`: the `Detection` record (x1, y1, x2, y2, score). It also holds the
  per-class threshold filter, the nms selection, the pooled per-image scores, the
  cross-class cap as pure functions, and the lemmas about them.
- `TestNet`: the table as a class over an `array2`. The per-image update is a
  method with the class loop and the cap loop. `RunTest` is the image loop.

Scores are compared, never computed on, so they are `real`. nms is a parameter
`seq<Detection> -> seq<nat>`. The model needs only one fact from it
(`NmsValid`): every index it returns is a position in the candidate list it was
given.

test_res.py:138-141 keeps every detection tied at the cutoff, so an image can keep
more than max_per_image detections; `CapTiesOvershoot` shows two tied detections
surviving a cap of one.
Pooling the scores with no class besides the background (num_classes <= 1) while
`max_per_image` is positive stacks an empty list and raises. `RecordImage`
returns `ok == false` in that case, and `RunTest` stops there.

## Model

| member | source | states |
|---|---|---|
| `ArrayOps.Where` | test_res.py:122 | the returned positions are in range and strictly increasing, and position r is among them exactly when its value passes the mask |
| `ArrayOps.GatherWhere` | test_res.py:122-123 | indexing by the positions Where finds gives exactly the filtered values, in order |
| `ArrayOps.SortAsc` | test_res.py:138 | the sort is ascending and a permutation (same multiset) of its input |
| `ArrayOps.SortCount` | test_res.py:138 | sorting keeps how many values pass any mask |
| `ArrayOps.KthLargest` | test_res.py:138 | the value read max_per_image places from the end of the sorted pool is a pooled value, at least m pooled values are >= it, and fewer than m are > it |
| `ArrayOps.KthLargestDistinct` | test_res.py:137-138 | without ties, exactly m pooled values are >= the m-th largest |
| `ImDetect.ImDetect` | test_res.py:75-84 | the scores pass through unchanged; with regression on the boxes are the decoded boxes; with it off there is one box row per proposal, each 4 x num_classes wide |
| `ImDetect.TileBoxBlock` | test_res.py:82 | every class block of a tiled row equals the proposal box |
| `ImDetect.NoRegressionTiles` | test_res.py:75-84 | with regression off, the prediction has R x 4K boxes and each class's 4-column block of row r is proposal r |
| `Detections.RowDetection` | test_res.py:123-126 | the detection built from row r for class j has class j's box block as its box and scores[r][j] as its score |
| `Detections.ClassDets` | test_res.py:121-126 | class j keeps exactly the rows with scores[r][j] > thresh, in increasing row order; the k-th detection is that row's class-j box block and class-j score |
| `Detections.ClassResult` | test_res.py:127-128 | what nms keeps is drawn from the class's thresholded candidates and scores above thresh |
| `Detections.KeepAtLeastSpec` | test_res.py:140-141 | a capped slot holds exactly its rows scoring >= the cutoff, in their existing order; its scores are the filtered scores |
| `Detections.CapImage` | test_res.py:133-141 | the cap keeps the column's shape and class 0; with max_per_image <= 0 or a pool no larger than it the column is unchanged; otherwise every class slot 1.. keeps its rows at or above the cutoff |
| `Detections.CapOnlyDrops` | test_res.py:139-141 | the cap only removes detections; each capped slot holds a part of the old slot |
| `Detections.FilterImage` | test_res.py:121-131 | after the class loop the image's column has one slot per class and the background slot 0 stays empty |
| `Detections.Pool` | test_res.py:135-136 | the pooled score vector has exactly one entry per detection held in the pooled class slots |
| `Detections.CapApplies` | test_res.py:134-137 | the cap applies exactly when max_per_image is positive and classes 1.. hold more than max_per_image detections together |
| `Detections.Cutoff` | test_res.py:138 | the image threshold is one of the pooled scores; at least max_per_image pooled scores are >= it and fewer than max_per_image are > it |
| `Detections.KeepAtLeast` | test_res.py:140-141 | the scores of the rows kept in a slot are the slot's scores filtered at >= the cutoff, in their order |
| `Detections.ImageDetections` | test_res.py:121-141 | an image's final column has one slot per class and the background slot is empty |
| `Detections.StoredPassThreshold` | test_res.py:121-141 | every stored detection of class j is one of class j's thresholded candidates and scores strictly above thresh |
| `Detections.PoolKeepEach` | test_res.py:135-141 | capping every slot at one cutoff filters the pooled scores at that cutoff |
| `Detections.CapPool` | test_res.py:135-141 | after the cap, the pooled scores of classes 1.. are the old pool filtered at the cutoff |
| `Detections.CapBudget` | test_res.py:137-141 | when the cap applies, at least max_per_image detections remain over all classes and fewer than max_per_image score strictly above the cutoff |
| `Detections.CapSeparates` | test_res.py:138-141 | every detection kept in any class scores strictly above every detection dropped in any class |
| `Detections.CapExactWithoutTies` | test_res.py:137-141 | when no two pooled scores tie, exactly max_per_image detections remain |
| `Detections.CapTiesOvershoot` | test_res.py:138-141 | two detections tied at the cutoff of a cap of one both stay, leaving two |
| `TestNet.DetectionTable.constructor` | test_res.py:93-94 | the table has num_classes rows of num_images slots and every slot starts empty |
| `TestNet.DetectionTable.StoreClasses` | test_res.py:121-131 | the class loop writes only image i's slots and leaves them equal to each class's nms survivors, with class 0 untouched |
| `TestNet.DetectionTable.KeepColumnAtLeast` | test_res.py:139-141 | the cap loop writes only image i's slots: class 0 unchanged, each class slot 1.. replaced by its rows at or above the cutoff |
| `TestNet.DetectionTable.RecordImage` | test_res.py:119-141 | processing image i changes no other image's slot and keeps class 0 empty; image i's column becomes ImageDetections, or fails exactly when max_per_image > 0 with no non-background class |
| `TestNet.RunTest` | test_res.py:89-141 | after the image loop, every image's column is its ImageDetections and the background row is empty; the run fails only when a positive max_per_image meets a table without non-background classes |

## Left out

- nms itself, `bbox_transform_inv` and `clip_boxes` are not part of this model: their source is not in the file. nms is a parameter that returns valid positions. The regressed and clipped boxes are an input (`decoded`) of `ImDetect.ImDetect`.
- The greedy suppression's own properties (no surviving pair overlapping above the IoU threshold, idempotence) belong to nms and are not stated.
- Network inference, the image blob and the division of the ROIs by the image scale: neural network and floating-point arithmetic. The proposal boxes and the scores are inputs.
- The cast of each class's detections to float32: scores and boxes stay exact reals. Rounding to float32 keeps the order of scores but can merge two nearby scores into a tie, which the model does not capture.
- Malformed predictions: the model requires the shapes im_detect documents (test_res.py:61-63), R x K scores and R x 4K boxes (`Prediction.WellFormed`). The source fails on some other shapes (too few score columns at line 122, too few box rows at line 124) and ignores extra score columns, extra box rows and extra box columns; it silently cuts a box with too few columns through the slice at line 124. None of these behaviours is modelled.
- Image loading, visualisation of detections, proposals and ground truth, and the annotation parser: I/O and user interface.
- Timers and progress printing.
- Pickling the table and calling the evaluator: I/O and an external evaluator. The round trip of serialisation is therefore not modelled.
- Config loading, random seeding, model loading and the script's entry point: configuration, passed here as parameters (`thresh`, `maxPerImage`, `bboxReg`).
