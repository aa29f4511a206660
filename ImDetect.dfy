// What `im_detect` hands to the post-processing: the R x K class scores and the
// R x 4K per-class boxes, either decoded by regression or tiled from the proposals.

module ImDetect {

  /** One image's raw detector output: R rows of K class scores and R rows of 4K box coordinates. */
  datatype Prediction = Prediction(scores: seq<seq<real>>, boxes: seq<seq<real>>) {
    /** The shapes `im_detect` documents: R x K scores and R x (4*K) boxes. */
    predicate WellFormed(numClasses: nat) {
      |boxes| == |scores| &&
      (forall r :: 0 <= r < |scores| ==> |scores[r]| == numClasses) &&
      (forall r :: 0 <= r < |boxes| ==> |boxes[r]| == 4 * numClasses)
    }
  }

  /** Columns 4j .. 4j+3 of a predicted-box row: class j's box (x1, y1, x2, y2). */
  function Block(row: seq<real>, j: nat): seq<real>
    requires 4 * j + 4 <= |row|
  {
    row[4 * j .. 4 * j + 4]
  }

  /** One proposal box repeated k times end to end: a row of the tiled box array. */
  function TileBox(box: seq<real>, k: nat): (r: seq<real>)
    requires |box| == 4
    ensures |r| == 4 * k
  {
    if k == 0 then [] else TileBox(box, k - 1) + box
  }

  /** Every class block of a tiled row is the proposal box itself. */
  lemma {:induction false} TileBoxBlock(box: seq<real>, k: nat, j: nat)
    requires |box| == 4 && j < k
    ensures Block(TileBox(box, k), j) == box
  {
    var prefix := TileBox(box, k - 1);
    if j < k - 1 {
      TileBoxBlock(box, k - 1, j);
      assert Block(prefix + box, j) == Block(prefix, j);
    } else {
      assert Block(prefix + box, j) == box;
    }
  }

  /**
   * The predicted boxes of `im_detect`: when regression is on, the decoded and clipped
   * boxes (computed outside this model and passed in as `decoded`); otherwise every
   * proposal is repeated once per class, numClasses being the column count of `scores`.
   */
  function ImDetect(scores: seq<seq<real>>, proposals: seq<seq<real>>, numClasses: nat,
                    bboxReg: bool, decoded: seq<seq<real>>): (p: Prediction)
    requires forall r :: 0 <= r < |proposals| ==> |proposals[r]| == 4
    ensures p.scores == scores
    ensures bboxReg ==> p.boxes == decoded
    ensures !bboxReg ==> |p.boxes| == |proposals|
    ensures !bboxReg ==> forall r :: 0 <= r < |proposals| ==> |p.boxes[r]| == 4 * numClasses
  {
    var boxes :=
      if bboxReg then decoded
      else seq(|proposals|, r requires 0 <= r < |proposals| => TileBox(proposals[r], numClasses));
    Prediction(scores, boxes)
  }

  /** With regression off, the prediction is well formed and each class's box is the proposal. */
  lemma NoRegressionTiles(scores: seq<seq<real>>, proposals: seq<seq<real>>, numClasses: nat,
                          decoded: seq<seq<real>>)
    requires forall r :: 0 <= r < |proposals| ==> |proposals[r]| == 4
    requires |scores| == |proposals| && forall r :: 0 <= r < |scores| ==> |scores[r]| == numClasses
    ensures var p := ImDetect(scores, proposals, numClasses, false, decoded);
      p.WellFormed(numClasses) &&
      forall r, j :: 0 <= r < |proposals| && 0 <= j < numClasses ==> Block(p.boxes[r], j) == proposals[r]
  {
    var p := ImDetect(scores, proposals, numClasses, false, decoded);
    forall r, j | 0 <= r < |proposals| && 0 <= j < numClasses
      ensures Block(p.boxes[r], j) == proposals[r]
    {
      TileBoxBlock(proposals[r], numClasses, j);
    }
  }
}
