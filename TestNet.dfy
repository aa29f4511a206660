// `test_net`: the run-wide all_boxes table, filled one image at a time by the
// per-class loop and then re-written by the per-image cap.

module TestNet {
  import opened ArrayOps
  import opened ImDetect
  import opened Detections

  /** all_boxes: a num_classes x num_images table of detection lists, indexed [class, image]. */
  class DetectionTable {
    const numClasses: nat
    const numImages: nat
    const slots: array2<seq<Detection>>

    /** The table's shape, and the background class 0 holds nothing for any image. */
    ghost predicate Valid()
      reads slots
    {
      slots.Length0 == numClasses && slots.Length1 == numImages &&
      (numClasses > 0 ==> forall i :: 0 <= i < numImages ==> slots[0, i] == [])
    }

    /** Image i's slots, class by class. */
    function Column(i: nat): (col: seq<seq<Detection>>)
      reads slots
      requires i < slots.Length1
      ensures |col| == slots.Length0
      ensures forall j :: 0 <= j < slots.Length0 ==> col[j] == slots[j, i]
    {
      seq(slots.Length0, j reads slots requires 0 <= j < slots.Length0 => slots[j, i])
    }

    /** Allocates num_classes rows of num_images slots, every one of them empty. */
    constructor (numClasses: nat, numImages: nat)
      ensures Valid() && fresh(slots)
      ensures this.numClasses == numClasses && this.numImages == numImages
      ensures forall j, i :: 0 <= j < numClasses && 0 <= i < numImages ==> slots[j, i] == []
    {
      this.numClasses := numClasses;
      this.numImages := numImages;
      slots := new seq<Detection>[numClasses, numImages]((_, _) => []);
    }

    /** The class loop for image i: slot [j, i] becomes class j's nms survivors, for j = 1 .. K-1. */
    method StoreClasses(i: nat, p: Prediction, thresh: real, nms: seq<Detection> -> seq<nat>)
      requires Valid() && i < numImages
      requires p.WellFormed(numClasses) && NmsValid(nms)
      modifies slots
      ensures Valid()
      ensures forall j, i' :: 0 <= j < numClasses && 0 <= i' < numImages && i' != i ==>
        slots[j, i'] == old(slots[j, i'])
      ensures Column(i) == FilterImage(p, numClasses, thresh, nms)
    {
      ghost var filtered := FilterImage(p, numClasses, thresh, nms);
      // skip j = 0, the background class
      var j := 1;
      while j < numClasses
        invariant 1 <= j && (numClasses > 0 ==> j <= numClasses)
        invariant forall c, i' :: 0 <= c < numClasses && 0 <= i' < numImages && (i' != i || c == 0 || c >= j) ==>
          slots[c, i'] == old(slots[c, i'])
        invariant forall c :: 1 <= c < j && c < numClasses ==> slots[c, i] == filtered[c]
      {
        slots[j, i] := ClassResult(p, numClasses, j, thresh, nms);
        j := j + 1;
      }
    }

    /** The cap loop for image i: slot [j, i] keeps its rows scoring at least `cutoff`, for j = 1 .. K-1. */
    method KeepColumnAtLeast(i: nat, cutoff: real)
      requires Valid() && i < numImages && numClasses > 0
      modifies slots
      ensures Valid()
      ensures forall j, i' :: 0 <= j < numClasses && 0 <= i' < numImages && i' != i ==>
        slots[j, i'] == old(slots[j, i'])
      ensures slots[0, i] == old(slots[0, i])
      ensures forall j :: 1 <= j < numClasses ==> slots[j, i] == KeepAtLeast(old(slots[j, i]), cutoff)
    {
      ghost var column := Column(i);
      var j := 1;
      while j < numClasses
        invariant 1 <= j <= numClasses
        invariant forall c, i' :: 0 <= c < numClasses && 0 <= i' < numImages && i' != i ==>
          slots[c, i'] == old(slots[c, i'])
        invariant forall c :: 0 <= c < numClasses && (c == 0 || c >= j) ==> slots[c, i] == column[c]
        invariant forall c :: 1 <= c < j ==> slots[c, i] == KeepAtLeast(column[c], cutoff)
      {
        slots[j, i] := KeepAtLeast(slots[j, i], cutoff);
        j := j + 1;
      }
    }

    /**
     * One iteration of test_net's image loop on image i's prediction `p`: store each
     * class's nms survivors, then cap the image's detections across classes. With a
     * positive max_per_image and no class besides the background, pooling the scores
     * fails; `ok` is false then, and the table is left as it was.
     */
    method RecordImage(i: nat, p: Prediction, thresh: real, nms: seq<Detection> -> seq<nat>,
                       maxPerImage: int) returns (ok: bool)
      requires Valid() && i < numImages
      requires p.WellFormed(numClasses) && NmsValid(nms)
      modifies slots
      ensures Valid()
      ensures ok <==> (maxPerImage <= 0 || numClasses >= 2)
      ensures forall j, i' :: 0 <= j < numClasses && 0 <= i' < numImages && i' != i ==>
        slots[j, i'] == old(slots[j, i'])
      ensures !ok ==> forall j :: 0 <= j < numClasses ==> slots[j, i] == old(slots[j, i])
      ensures ok ==> Column(i) == ImageDetections(p, numClasses, thresh, nms, maxPerImage)
    {
      StoreClasses(i, p, thresh, nms);
      ok := true;
      if maxPerImage > 0 {
        if numClasses < 2 {
          return false;
        }
        var column := Column(i);
        var pool := Pool(column[1..]);
        if |pool| > maxPerImage {
          assert CapApplies(column, maxPerImage);
          var cutoff := KthLargest(pool, maxPerImage);
          assert cutoff == Cutoff(column, maxPerImage);
          KeepColumnAtLeast(i, cutoff);
          assert Column(i) == CapImage(column, maxPerImage);
        }
      }
    }
  }

  /**
   * test_net over a run of images whose predictions are given in order: allocate the
   * table, then record each image. `ok` is false when the run stops at an image whose
   * cap cannot pool any class; the images before it are recorded, the rest stay empty.
   */
  method RunTest(numClasses: nat, predictions: seq<Prediction>, thresh: real,
                 nms: seq<Detection> -> seq<nat>, maxPerImage: int)
    returns (table: DetectionTable, ok: bool)
    requires forall i :: 0 <= i < |predictions| ==> predictions[i].WellFormed(numClasses)
    requires NmsValid(nms)
    ensures fresh(table.slots) && table.Valid()
    ensures table.numClasses == numClasses && table.numImages == |predictions|
    ensures ok <==> (|predictions| == 0 || maxPerImage <= 0 || numClasses >= 2)
    ensures ok ==> forall i :: 0 <= i < |predictions| ==>
      table.Column(i) == ImageDetections(predictions[i], numClasses, thresh, nms, maxPerImage)
    ensures !ok ==> forall j, i :: 0 <= j < numClasses && 0 <= i < |predictions| ==> table.slots[j, i] == []
  {
    table := new DetectionTable(numClasses, |predictions|);
    ok := true;
    var i := 0;
    while i < |predictions|
      invariant 0 <= i <= |predictions|
      invariant fresh(table.slots) && table.Valid()
      invariant table.numClasses == numClasses && table.numImages == |predictions|
      invariant i > 0 ==> maxPerImage <= 0 || numClasses >= 2
      invariant forall i' :: 0 <= i' < i ==>
        table.Column(i') == ImageDetections(predictions[i'], numClasses, thresh, nms, maxPerImage)
      invariant forall j, i' :: 0 <= j < numClasses && i <= i' < |predictions| ==> table.slots[j, i'] == []
    {
      ok := table.RecordImage(i, predictions[i], thresh, nms, maxPerImage);
      if !ok {
        return;
      }
      i := i + 1;
    }
  }
}
