// The per-image post-processing of `test_net`: the per-class confidence filter,
// the nms selection, and the cap on detections per image across classes.

module Detections {
  import opened ArrayOps
  import opened ImDetect

  /** One row of a class's N x 5 detection array: (x1, y1, x2, y2, score). */
  datatype Detection = Detection(x1: real, y1: real, x2: real, y2: real, score: real)

  function BoxOf(d: Detection): seq<real>
  {
    [d.x1, d.y1, d.x2, d.y2]
  }

  /** The last column of a detection array. */
  function Scores(ds: seq<Detection>): seq<real>
  {
    seq(|ds|, k requires 0 <= k < |ds| => ds[k].score)
  }

  /** Column j of a score matrix: every proposal's class-j score. */
  function ScoreColumn(scores: seq<seq<real>>, j: nat): seq<real>
    requires forall r :: 0 <= r < |scores| ==> j < |scores[r]|
  {
    seq(|scores|, r requires 0 <= r < |scores| => scores[r][j])
  }

  /** The detection built from proposal row r for class j: its box block, then its score. */
  function RowDetection(p: Prediction, numClasses: nat, j: nat, r: nat): (d: Detection)
    requires p.WellFormed(numClasses) && j < numClasses && r < |p.scores|
    ensures BoxOf(d) == Block(p.boxes[r], j) && d.score == p.scores[r][j]
  {
    var row := p.boxes[r];
    var d := Detection(row[4 * j], row[4 * j + 1], row[4 * j + 2], row[4 * j + 3], p.scores[r][j]);
    assert BoxOf(d) == Block(row, j);
    d
  }

  /**
   * cls_dets before nms: one detection per proposal row whose class-j score is strictly
   * above `thresh`, in increasing row order.
   */
  function ClassDets(p: Prediction, numClasses: nat, j: nat, thresh: real): (dets: seq<Detection>)
    requires p.WellFormed(numClasses) && j < numClasses
    ensures var rows := Where(ScoreColumn(p.scores, j), Greater(thresh));
      (forall k, l :: 0 <= k < l < |rows| ==> rows[k] < rows[l]) &&
      (forall r :: 0 <= r < |p.scores| ==> (r in rows <==> p.scores[r][j] > thresh)) &&
      |dets| == |rows| &&
      forall k :: 0 <= k < |rows| ==>
        rows[k] < |p.scores| &&
        BoxOf(dets[k]) == Block(p.boxes[rows[k]], j) &&
        dets[k].score == p.scores[rows[k]][j]
  {
    var rows := Where(ScoreColumn(p.scores, j), Greater(thresh));
    seq(|rows|, k requires 0 <= k < |rows| => RowDetection(p, numClasses, j, rows[k]))
  }

  /** The contract this model takes from nms: every index it returns is a position in its input. */
  ghost predicate NmsValid(nms: seq<Detection> -> seq<nat>)
  {
    forall ds: seq<Detection>, k :: 0 <= k < |nms(ds)| ==> nms(ds)[k] < |ds|
  }

  /** cls_dets[keep, :] with keep = nms(cls_dets): what the class loop stores for class j. */
  function ClassResult(p: Prediction, numClasses: nat, j: nat, thresh: real,
                       nms: seq<Detection> -> seq<nat>): (kept: seq<Detection>)
    requires p.WellFormed(numClasses) && j < numClasses && NmsValid(nms)
    ensures forall d :: d in kept ==> d in ClassDets(p, numClasses, j, thresh) && d.score > thresh
  {
    var dets := ClassDets(p, numClasses, j, thresh);
    var keep := nms(dets);
    var kept := Gather(dets, keep);
    assert forall k :: 0 <= k < |kept| ==> kept[k] == dets[keep[k]] && dets[keep[k]].score > thresh;
    kept
  }

  /** The image's column of the table after the class loop: class 0 empty, class j its nms survivors. */
  function FilterImage(p: Prediction, numClasses: nat, thresh: real,
                       nms: seq<Detection> -> seq<nat>): (col: seq<seq<Detection>>)
    requires p.WellFormed(numClasses) && NmsValid(nms)
    ensures |col| == numClasses
    ensures numClasses > 0 ==> col[0] == []
  {
    seq(numClasses, j requires 0 <= j < numClasses =>
      if j == 0 then [] else ClassResult(p, numClasses, j, thresh, nms))
  }

  /** How many detections the given class slots hold together. */
  function Size(slots: seq<seq<Detection>>): nat
  {
    if slots == [] then 0 else |slots[0]| + Size(slots[1..])
  }

  /** The score columns of the given class slots laid end to end, in class order. */
  function Pool(slots: seq<seq<Detection>>): (pool: seq<real>)
    ensures |pool| == Size(slots)
  {
    if slots == [] then [] else Scores(slots[0]) + Pool(slots[1..])
  }

  /** The rows of `ds` whose score is at least `cutoff`, picked through Where, in their order. */
  function KeepAtLeast(ds: seq<Detection>, cutoff: real): (kept: seq<Detection>)
    ensures Scores(kept) == Filter(Scores(ds), AtLeast(cutoff))
  {
    var rows := Where(Scores(ds), AtLeast(cutoff));
    GatherWhere(Scores(ds), AtLeast(cutoff));
    assert Scores(Gather(ds, rows)) == Gather(Scores(ds), rows);
    Gather(ds, rows)
  }

  /**
   * The kept rows are exactly the rows scoring at least the cutoff, in their existing order:
   * the k-th kept row is the row at the k-th qualifying position.
   */
  lemma KeepAtLeastSpec(ds: seq<Detection>, cutoff: real)
    ensures var rows := Where(Scores(ds), AtLeast(cutoff)); var kept := KeepAtLeast(ds, cutoff);
      |kept| == |rows| && forall k :: 0 <= k < |rows| ==> kept[k] == ds[rows[k]]
    ensures Scores(KeepAtLeast(ds, cutoff)) == Filter(Scores(ds), AtLeast(cutoff))
    ensures forall d :: d in KeepAtLeast(ds, cutoff) ==> d in ds && d.score >= cutoff
    ensures forall r :: 0 <= r < |ds| && ds[r].score >= cutoff ==> ds[r] in KeepAtLeast(ds, cutoff)
  {
    var rows := Where(Scores(ds), AtLeast(cutoff));
    var kept := KeepAtLeast(ds, cutoff);
    assert forall k :: 0 <= k < |kept| ==> rows[k] in rows && kept[k] == ds[rows[k]] && ds[rows[k]].score >= cutoff;
    GatherWhere(Scores(ds), AtLeast(cutoff));
    assert Scores(kept) == Gather(Scores(ds), rows);
    assert forall r :: 0 <= r < |ds| && ds[r].score >= cutoff ==> r in rows;
  }

  function KeepEach(slots: seq<seq<Detection>>, cutoff: real): (capped: seq<seq<Detection>>)
    ensures |capped| == |slots|
  {
    seq(|slots|, j requires 0 <= j < |slots| => KeepAtLeast(slots[j], cutoff))
  }

  /** The cap applies: max_per_image is positive and the pooled classes 1.. exceed it. */
  predicate CapApplies(col: seq<seq<Detection>>, maxPerImage: int)
    requires maxPerImage <= 0 || |col| >= 2
    ensures CapApplies(col, maxPerImage) <==> maxPerImage > 0 && Size(col[1..]) > maxPerImage
  {
    maxPerImage > 0 && |Pool(col[1..])| > maxPerImage
  }

  /** The image's score cutoff: the max_per_image-th largest pooled score. */
  function Cutoff(col: seq<seq<Detection>>, maxPerImage: int): (c: real)
    requires |col| >= 2 && CapApplies(col, maxPerImage)
    ensures c in Pool(col[1..])
    ensures Count(Pool(col[1..]), AtLeast(c)) >= maxPerImage
    ensures Count(Pool(col[1..]), Greater(c)) < maxPerImage
  {
    KthLargest(Pool(col[1..]), maxPerImage)
  }

  /**
   * The cross-class cap on one image's column. Pooling the scores of no class at all
   * fails in the source, so a positive max_per_image needs a class besides the background.
   */
  function CapImage(col: seq<seq<Detection>>, maxPerImage: int): (capped: seq<seq<Detection>>)
    requires maxPerImage <= 0 || |col| >= 2
    ensures |capped| == |col|
    ensures |col| > 0 ==> capped[0] == col[0]
    ensures !CapApplies(col, maxPerImage) ==> capped == col
    ensures CapApplies(col, maxPerImage) ==>
      forall j :: 1 <= j < |col| ==> capped[j] == KeepAtLeast(col[j], Cutoff(col, maxPerImage))
  {
    if CapApplies(col, maxPerImage) then
      [col[0]] + KeepEach(col[1..], Cutoff(col, maxPerImage))
    else col
  }

  /** The cap only removes: every slot keeps a part of what it held. */
  lemma CapOnlyDrops(col: seq<seq<Detection>>, maxPerImage: int)
    requires maxPerImage <= 0 || |col| >= 2
    ensures forall j, d :: 0 <= j < |col| && d in CapImage(col, maxPerImage)[j] ==> d in col[j]
  {
    if CapApplies(col, maxPerImage) {
      forall j | 1 <= j < |col| {
        KeepAtLeastSpec(col[j], Cutoff(col, maxPerImage));
      }
    }
  }

  /** One image's final column: the class loop, then the cap. */
  function ImageDetections(p: Prediction, numClasses: nat, thresh: real,
                           nms: seq<Detection> -> seq<nat>, maxPerImage: int): (col: seq<seq<Detection>>)
    requires p.WellFormed(numClasses) && NmsValid(nms)
    requires maxPerImage <= 0 || numClasses >= 2
    ensures |col| == numClasses
    ensures numClasses > 0 ==> col[0] == []
  {
    CapImage(FilterImage(p, numClasses, thresh, nms), maxPerImage)
  }

  /** Every stored detection of class j comes from a row whose class-j score passed the threshold. */
  lemma StoredPassThreshold(p: Prediction, numClasses: nat, thresh: real,
                            nms: seq<Detection> -> seq<nat>, maxPerImage: int)
    requires p.WellFormed(numClasses) && NmsValid(nms)
    requires maxPerImage <= 0 || numClasses >= 2
    ensures var col := ImageDetections(p, numClasses, thresh, nms, maxPerImage);
      forall j, d :: 1 <= j < numClasses && d in col[j] ==> d in ClassDets(p, numClasses, j, thresh) && d.score > thresh
  {
    var filtered := FilterImage(p, numClasses, thresh, nms);
    var col := ImageDetections(p, numClasses, thresh, nms, maxPerImage);
    CapOnlyDrops(filtered, maxPerImage);
    forall j, d | 1 <= j < numClasses && d in col[j]
      ensures d in ClassDets(p, numClasses, j, thresh) && d.score > thresh
    {
      assert d in filtered[j] && filtered[j] == ClassResult(p, numClasses, j, thresh, nms);
    }
  }

  /** Capping every slot at the same cutoff filters the pooled scores at that cutoff. */
  lemma {:induction false} PoolKeepEach(slots: seq<seq<Detection>>, cutoff: real)
    ensures Pool(KeepEach(slots, cutoff)) == Filter(Pool(slots), AtLeast(cutoff))
  {
    if slots != [] {
      PoolKeepEach(slots[1..], cutoff);
      KeepAtLeastSpec(slots[0], cutoff);
      assert KeepEach(slots, cutoff)[1..] == KeepEach(slots[1..], cutoff);
      FilterAppend(Scores(slots[0]), Pool(slots[1..]), AtLeast(cutoff));
    }
  }

  /** After the cap the classes 1.. pool exactly the old pool's scores at or above the cutoff. */
  lemma CapPool(col: seq<seq<Detection>>, maxPerImage: int)
    requires |col| >= 2 && CapApplies(col, maxPerImage)
    ensures Pool(CapImage(col, maxPerImage)[1..]) == Filter(Pool(col[1..]), AtLeast(Cutoff(col, maxPerImage)))
  {
    var c := Cutoff(col, maxPerImage);
    assert CapImage(col, maxPerImage)[1..] == KeepEach(col[1..], c);
    PoolKeepEach(col[1..], c);
  }

  /**
   * When the cap applies, at least max_per_image detections remain over all classes
   * (ties at the cutoff all stay) and fewer than max_per_image score above the cutoff.
   */
  lemma CapBudget(col: seq<seq<Detection>>, maxPerImage: int)
    requires |col| >= 2 && CapApplies(col, maxPerImage)
    ensures |Pool(CapImage(col, maxPerImage)[1..])| >= maxPerImage
    ensures Count(Pool(CapImage(col, maxPerImage)[1..]), Greater(Cutoff(col, maxPerImage))) < maxPerImage
  {
    var c := Cutoff(col, maxPerImage);
    CapPool(col, maxPerImage);
    FilterFilter(Pool(col[1..]), AtLeast(c), Greater(c));
  }

  /** Every detection the cap keeps, in any class, scores above every detection it drops. */
  lemma CapSeparates(col: seq<seq<Detection>>, maxPerImage: int, j: nat, j': nat, r: nat, kept: Detection)
    requires |col| >= 2 && CapApplies(col, maxPerImage)
    requires 1 <= j < |col| && 1 <= j' < |col| && r < |col[j]|
    requires col[j][r] !in CapImage(col, maxPerImage)[j]
    requires kept in CapImage(col, maxPerImage)[j']
    ensures kept.score > col[j][r].score
  {
    var c := Cutoff(col, maxPerImage);
    KeepAtLeastSpec(col[j], c);
    KeepAtLeastSpec(col[j'], c);
  }

  /** Without ties in the pooled scores, the cap leaves exactly max_per_image detections. */
  lemma CapExactWithoutTies(col: seq<seq<Detection>>, maxPerImage: int)
    requires |col| >= 2 && CapApplies(col, maxPerImage) && Distinct(Pool(col[1..]))
    ensures |Pool(CapImage(col, maxPerImage)[1..])| == maxPerImage
  {
    CapPool(col, maxPerImage);
    KthLargestDistinct(Pool(col[1..]), maxPerImage);
  }

  /** Two classes tie at the cutoff of a cap of one: both stay, so the image keeps two. */
  lemma CapTiesOvershoot(d: Detection, e: Detection)
    requires d.score == e.score
    ensures var col := [[], [d], [e]];
      CapApplies(col, 1) && |Pool(CapImage(col, 1)[1..])| == 2
  {
    var col := [[], [d], [e]];
    var pool := [d.score, e.score];
    assert col[1..] == [[d], [e]] && [[d], [e]][1..] == [[e]] && [[e]][1..] == [];
    assert Scores([d]) == [d.score] && Scores([e]) == [e.score];
    assert Pool([[e]]) == [e.score];
    assert Pool(col[1..]) == pool;
    assert CapApplies(col, 1);
    var c := Cutoff(col, 1);
    assert c == d.score;
    CountAll(pool, AtLeast(c));
    CapPool(col, 1);
  }
}
