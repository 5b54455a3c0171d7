/** The tail of `SingleImageYoloInfer` after the forward pass: decode the
    output table, suppress overlapping candidates, and map every survivor back
    to the original image as a `Detection`. */
module Pipeline {
  import opened ScaleCoords
  import opened Decode

  /** A final detection: a box in original-image coordinates, its confidence
      and its class. */
  datatype Detection = Detection(box: Rect, conf: real, classId: int)

  /** The network's input size, `input_w` x `input_h`. */
  const InputW: int := 640
  const InputH: int := 640

  /** The value of a default-constructed `Detection`: an empty box,
      confidence 0 and class -1. */
  const DefaultDetection: Detection := Detection(Rect(0, 0, 0, 0), 0.0, -1)

  /** Every index points into a vector of length `n`, and no index occurs
      twice. */
  predicate ValidIndices(indices: seq<int>, n: int) {
    && (forall k :: 0 <= k < |indices| ==> 0 <= indices[k] < n)
    && (forall k, l :: 0 <= k < l < |indices| ==> indices[k] != indices[l])
  }

  /** What is assumed of `cv::dnn::NMSBoxes`: for any boxes, scores and
      thresholds it returns valid, duplicate-free indices into the boxes. */
  ghost predicate IsSuppressor(nms: (seq<Rect>, seq<real>, real, real) -> seq<int>) {
    forall boxes, confs, scoreThresh, iouThresh ::
      ValidIndices(nms(boxes, confs, scoreThresh, iouThresh), |boxes|)
  }

  /** The `boxes` vector of a list of decoded candidates. */
  function BoxesOf(cands: seq<Candidate>): (boxes: seq<Rect>)
    ensures |boxes| == |cands|
    ensures forall k :: 0 <= k < |cands| ==> boxes[k] == cands[k].box
  {
    seq(|cands|, k requires 0 <= k < |cands| => cands[k].box)
  }

  /** The `confs` vector of a list of decoded candidates. */
  function ConfsOf(cands: seq<Candidate>): (confs: seq<real>)
    ensures |confs| == |cands|
    ensures forall k :: 0 <= k < |cands| ==> confs[k] == cands[k].conf
  {
    seq(|cands|, k requires 0 <= k < |cands| => cands[k].conf)
  }

  /** The detection the collect loop builds from one surviving entry. */
  function DetectionOf(box: Rect, conf: real, classId: int, imgShape: Size, origin: Size): (d: Detection)
    requires Positive(imgShape) && Positive(origin)
    ensures Clamped(d.box, origin)
    ensures d.conf == conf && d.classId == classId
  {
    Detection(MapBack(imgShape, box, origin), conf, classId)
  }

  /** The collect loop: for each surviving index, in order, one detection
      whose box is `boxes[idx]` mapped back by `ScaleCoords` and whose
      confidence and class are copied unchanged. */
  method CollectDetections(boxes: seq<Rect>, confs: seq<real>, classIds: seq<int>,
                           indices: seq<int>, imgShape: Size, origin: Size)
    returns (detections: seq<Detection>)
    requires |boxes| == |confs| == |classIds|
    requires forall k :: 0 <= k < |indices| ==> 0 <= indices[k] < |boxes|
    requires Positive(imgShape) && Positive(origin)
    ensures |detections| == |indices|
    ensures forall k :: 0 <= k < |indices| ==>
      detections[k] == DetectionOf(boxes[indices[k]], confs[indices[k]], classIds[indices[k]], imgShape, origin)
    ensures forall k :: 0 <= k < |detections| ==> Clamped(detections[k].box, origin)
  {
    detections := [];
    for i := 0 to |indices|
      invariant |detections| == i
      invariant forall k :: 0 <= k < i ==>
        detections[k] == DetectionOf(boxes[indices[k]], confs[indices[k]], classIds[indices[k]], imgShape, origin)
    {
      var idx := indices[i];
      var det := DefaultDetection;
      det := det.(box := boxes[idx]);
      var scaled := ScaleCoords.ScaleCoords(imgShape, det.box, origin);
      det := det.(box := scaled);
      det := det.(conf := confs[idx]);
      det := det.(classId := classIds[idx]);
      detections := detections + [det];
    }
  }

  /** A duplicate-free list of indices below `n` has at most `n` entries:
      suppression never returns more boxes than it is given. */
  lemma {:induction false} ValidIndicesBounded(indices: seq<int>, n: nat)
    requires ValidIndices(indices, n)
    ensures |indices| <= n
    decreases n
  {
    if |indices| > 0 {
      assert 0 <= indices[0] < n;
      if p :| 0 <= p < |indices| && indices[p] == n - 1 {
        // Drop the one occurrence of `n - 1`; what is left lies below it.
        var rest := indices[..p] + indices[p + 1..];
        assert forall k :: 0 <= k < |rest| ==> rest[k] == indices[if k < p then k else k + 1];
        assert forall k :: 0 <= k < |rest| ==> rest[k] != n - 1;
        ValidIndicesBounded(rest, n - 1);
      } else {
        ValidIndicesBounded(indices, n - 1);
      }
    }
  }

  /** Decoding, suppression and collection after the forward pass. `nms`
      stands for `cv::dnn::NMSBoxes` and receives the decoded boxes and
      confidences with both thresholds. Every detection is a surviving
      candidate mapped back to the image; the candidate comes from a row whose
      objectness reaches the threshold; there are no more detections than
      candidates. */
  method SingleImageYoloInfer(output: seq<seq<real>>, numInfo: int, origin: Size,
                              nms: (seq<Rect>, seq<real>, real, real) -> seq<int>,
                              confThresh: real, iouThresh: real)
    returns (detections: seq<Detection>)
    requires Shaped(output, numInfo)
    requires Positive(origin)
    requires IsSuppressor(nms)
    ensures var cands := Decode.Decode(output, confThresh);
      var indices := nms(BoxesOf(cands), ConfsOf(cands), confThresh, iouThresh);
      && |detections| == |indices| <= |cands|
      && forall k :: 0 <= k < |detections| ==>
           detections[k] == DetectionOf(cands[indices[k]].box, cands[indices[k]].conf,
                                        cands[indices[k]].classId, Size(InputW, InputH), origin)
    ensures var kept := KeptRows(output, confThresh);
      var cands := Decode.Decode(output, confThresh);
      var indices := nms(BoxesOf(cands), ConfsOf(cands), confThresh, iouThresh);
      forall k :: 0 <= k < |detections| ==>
        && 0 <= indices[k] < |kept|
        && output[kept[indices[k]]][4] >= confThresh
        && detections[k].box == MapBack(Size(InputW, InputH), CandidateOf(output[kept[indices[k]]]).box, origin)
    ensures forall k :: 0 <= k < |detections| ==> Clamped(detections[k].box, origin)
  {
    var boxes, confs, classIds := DecodeOutput(output, numInfo, confThresh);
    ghost var cands := Decode.Decode(output, confThresh);
    assert boxes == BoxesOf(cands);
    assert confs == ConfsOf(cands);

    var indices := nms(boxes, confs, confThresh, iouThresh);
    assert ValidIndices(indices, |boxes|);
    ValidIndicesBounded(indices, |boxes|);

    detections := CollectDetections(boxes, confs, classIds, indices, Size(InputW, InputH), origin);

    ghost var kept := KeptRows(output, confThresh);
    forall k | 0 <= k < |detections|
      ensures output[kept[indices[k]]][4] >= confThresh
    {
      KeptRowsExactly(output, confThresh, kept[indices[k]]);
    }
  }
}
