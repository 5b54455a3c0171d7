/** The decode loop of `SingleImageYoloInfer`: it scans the network's output
    table, one row per candidate box, and fills the parallel vectors
    `boxes`, `confs` and `class_ids`. A row holds the centre x, centre y,
    width, height and objectness of a box, then one score per class. */
module Decode {
  import opened Numerics
  import opened ScaleCoords

  /** The entries the decode loop appends for one row, at the same position
      of `boxes`, `confs` and `class_ids`. */
  datatype Candidate = Candidate(box: Rect, conf: real, classId: int)

  /** Every row holds at least the five fixed fields. */
  predicate Rows(output: seq<seq<real>>) {
    forall i :: 0 <= i < |output| ==> |output[i]| >= 5
  }

  /** The output table with the batch of one dropped: every row has
      `numInfo` entries. `numInfo >= 5` is not asserted by the source; it is
      required here because every row's columns 0 to 4 are read. */
  predicate Shaped(output: seq<seq<real>>, numInfo: int) {
    numInfo >= 5 && forall i :: 0 <= i < |output| ==> |output[i]| == numInfo
  }

  /** `id` and `conf` are what the class loop over columns `5 .. n-1` should
      leave: if no score exceeds the initial -1, the initial `-1` and `-1`;
      otherwise the first column holding the maximum score, as an index from
      column 5, and that score. */
  predicate IsFirstMax(row: seq<real>, n: int, id: int, conf: real)
    requires 5 <= n <= |row|
  {
    if forall j :: 5 <= j < n ==> row[j] <= -1.0 then
      id == -1 && conf == -1.0
    else
      && 0 <= id < n - 5
      && conf == row[5 + id]
      && (forall j :: 5 <= j < n ==> row[j] <= conf)
      && (forall j :: 5 <= j < 5 + id ==> row[j] < conf)
  }

  /** The running argmax of the class loop after columns `5 .. n-1`: a
      score replaces the best so far only when it is strictly greater. */
  function BestClassUpTo(row: seq<real>, n: int): (int, real)
    requires 5 <= n <= |row|
    decreases n
  {
    if n == 5 then (-1, -1.0)
    else
      var prev := BestClassUpTo(row, n - 1);
      if row[n - 1] > prev.1 then (n - 1 - 5, row[n - 1]) else prev
  }

  /** The running argmax finds the first maximum: ties go to the lowest
      column because the comparison is strict. */
  lemma {:induction false} BestClassIsFirstMax(row: seq<real>, n: int)
    requires 5 <= n <= |row|
    ensures IsFirstMax(row, n, BestClassUpTo(row, n).0, BestClassUpTo(row, n).1)
    decreases n
  {
    if n > 5 {
      BestClassIsFirstMax(row, n - 1);
    }
  }

  /** `IsFirstMax` pins the result down: at most one pair satisfies it. */
  lemma IsFirstMaxUnique(row: seq<real>, n: int, id1: int, conf1: real, id2: int, conf2: real)
    requires 5 <= n <= |row|
    requires IsFirstMax(row, n, id1, conf1) && IsFirstMax(row, n, id2, conf2)
    ensures id1 == id2 && conf1 == conf2
  {
    if !(forall j :: 5 <= j < n ==> row[j] <= -1.0) {
      assert row[5 + id2] <= conf1 && row[5 + id1] <= conf2;
    }
  }

  /** When some class score exceeds -1, the chosen class is a real one:
      an index in `[0, num_info - 5)`. */
  lemma BestClassInRange(row: seq<real>, j: int)
    requires 5 <= j < |row| && row[j] > -1.0
    ensures 0 <= BestClassUpTo(row, |row|).0 < |row| - 5
  {
    BestClassIsFirstMax(row, |row|);
    assert !(forall j' :: 5 <= j' < |row| ==> row[j'] <= -1.0);
  }

  /** The confidence of a candidate: `best_conf * cls_conf`. */
  function Score(bestConf: real, objectness: real): real {
    bestConf * objectness
  }

  /** The candidate the decode loop emits for a row: centre form is turned
      into corner form with truncating integer casts and C++ division, and
      the confidence is the best class score times the objectness. */
  function CandidateOf(row: seq<real>): Candidate
    requires |row| >= 5
  {
    var centerX := Trunc(row[0]);
    var centerY := Trunc(row[1]);
    var width := Trunc(row[2]);
    var height := Trunc(row[3]);
    var best := BestClassUpTo(row, |row|);
    Candidate(Rect(centerX - HalfTrunc(width), centerY - HalfTrunc(height), width, height),
              Score(best.1, row[4]), best.0)
  }

  /** The corner-form box keeps the truncated width and height, and the
      truncated centre sits in its middle: the part of the box right of
      (below) the centre is the part left of (above) it plus the odd pixel,
      which goes to the far side for a non-negative extent. */
  lemma CandidateCornerForm(row: seq<real>)
    requires |row| >= 5
    ensures var c := CandidateOf(row);
      var cx := Trunc(row[0]);
      var cy := Trunc(row[1]);
      && c.box.width == Trunc(row[2]) && c.box.height == Trunc(row[3])
      && (c.box.width >= 0 ==> 0 <= (c.box.x + c.box.width - cx) - (cx - c.box.x) <= 1)
      && (c.box.width < 0 ==> -1 <= (c.box.x + c.box.width - cx) - (cx - c.box.x) <= 0)
      && (c.box.height >= 0 ==> 0 <= (c.box.y + c.box.height - cy) - (cy - c.box.y) <= 1)
      && (c.box.height < 0 ==> -1 <= (c.box.y + c.box.height - cy) - (cy - c.box.y) <= 0)
  {
  }

  /** With only the five fixed columns the class loop never runs: the
      candidate keeps the initial class -1 and its confidence is minus the
      objectness. */
  lemma FiveColumnsNoClass(row: seq<real>)
    requires |row| == 5
    ensures CandidateOf(row).classId == -1
    ensures CandidateOf(row).conf == -row[4]
  {
  }

  /** What the decode loop has appended after scanning `output`: one
      candidate per row whose objectness reaches the threshold, in scan
      order. */
  function Decode(output: seq<seq<real>>, confThresh: real): seq<Candidate>
    requires Rows(output)
    decreases |output|
  {
    if output == [] then []
    else
      var last := output[|output| - 1];
      Decode(output[..|output| - 1], confThresh)
        + (if last[4] >= confThresh then [CandidateOf(last)] else [])
  }

  /** The indices of the rows that pass the objectness test, in increasing
      order. */
  function KeptRows(output: seq<seq<real>>, confThresh: real): (rows: seq<int>)
    requires Rows(output)
    ensures |rows| <= |output|
    ensures forall k :: 0 <= k < |rows| ==> 0 <= rows[k] < |output|
    ensures forall k, l :: 0 <= k < l < |rows| ==> rows[k] < rows[l]
    decreases |output|
  {
    if output == [] then []
    else
      var n := |output| - 1;
      var prefix := output[..n];
      assert forall i :: 0 <= i < n ==> prefix[i] == output[i];
      KeptRows(prefix, confThresh) + (if output[n][4] >= confThresh then [n] else [])
  }

  /** Row `i` is kept exactly when its objectness is at least the threshold
      (the test is inclusive). */
  lemma {:induction false} KeptRowsExactly(output: seq<seq<real>>, confThresh: real, i: int)
    requires Rows(output) && 0 <= i < |output|
    ensures i in KeptRows(output, confThresh) <==> output[i][4] >= confThresh
    decreases |output|
  {
    var n := |output| - 1;
    var prefix := output[..n];
    assert forall i' :: 0 <= i' < n ==> prefix[i'] == output[i'];
    var rest := KeptRows(prefix, confThresh);
    var tail := if output[n][4] >= confThresh then [n] else [];
    assert KeptRows(output, confThresh) == rest + tail;
    if i < n {
      KeptRowsExactly(prefix, confThresh, i);
      assert i !in tail;
    } else {
      assert n !in rest;
    }
  }

  /** The `k`-th decoded candidate comes from the `k`-th kept row: a row
      contributes exactly when its objectness is at least the threshold, and
      candidates follow the rows' order. */
  lemma {:induction false} DecodeFollowsKeptRows(output: seq<seq<real>>, confThresh: real)
    requires Rows(output)
    ensures |Decode(output, confThresh)| == |KeptRows(output, confThresh)|
    ensures forall k :: 0 <= k < |Decode(output, confThresh)| ==>
      Decode(output, confThresh)[k] == CandidateOf(output[KeptRows(output, confThresh)[k]])
    decreases |output|
  {
    if output != [] {
      var n := |output| - 1;
      var prefix := output[..n];
      DecodeFollowsKeptRows(prefix, confThresh);
      LastRowStep(output, confThresh);
      var d := Decode(prefix, confThresh);
      var r := KeptRows(prefix, confThresh);
      var kept := output[n][4] >= confThresh;
      forall k | 0 <= k < |Decode(output, confThresh)|
        ensures Decode(output, confThresh)[k] == CandidateOf(output[KeptRows(output, confThresh)[k]])
      {
        if k < |d| {
          assert Decode(output, confThresh)[k] == d[k];
          assert KeptRows(output, confThresh)[k] == r[k];
          assert prefix[r[k]] == output[r[k]];
        }
      }
    }
  }

  /** Splitting off the last row: it adds its own candidate and its own
      index, or neither. */
  lemma LastRowStep(output: seq<seq<real>>, confThresh: real)
    requires Rows(output) && output != []
    ensures var n := |output| - 1;
      var kept := output[n][4] >= confThresh;
      && Rows(output[..n])
      && Decode(output, confThresh) == Decode(output[..n], confThresh) + (if kept then [CandidateOf(output[n])] else [])
      && KeptRows(output, confThresh) == KeptRows(output[..n], confThresh) + (if kept then [n] else [])
  {
  }

  /** Scanning one more row appends that row's candidate, if it has one. */
  lemma DecodeStep(output: seq<seq<real>>, i: int, confThresh: real)
    requires Rows(output) && 0 <= i < |output|
    ensures Rows(output[..i]) && Rows(output[..i + 1])
    ensures Decode(output[..i + 1], confThresh) == Decode(output[..i], confThresh)
      + (if output[i][4] >= confThresh then [CandidateOf(output[i])] else [])
  {
    assert output[..i + 1][..i] == output[..i];
  }

  /** The class loop over columns `5 .. num_info-1` of one row: a running
      argmax that starts from id -1 and score -1 and takes a score only when
      it is strictly greater than the best so far, so among equal maxima the
      lowest column wins. */
  method BestClass(row: seq<real>) returns (bestClassId: int, bestConf: real)
    requires |row| >= 5
    ensures (bestClassId, bestConf) == BestClassUpTo(row, |row|)
    ensures IsFirstMax(row, |row|, bestClassId, bestConf)
  {
    bestClassId := -1;
    bestConf := -1.0;
    var j := 5;
    while j < |row|
      invariant 5 <= j <= |row|
      invariant (bestClassId, bestConf) == BestClassUpTo(row, j)
    {
      if row[j] > bestConf {
        bestConf := row[j];
        bestClassId := j - 5;
      }
      j := j + 1;
    }
    BestClassIsFirstMax(row, |row|);
  }

  /** The decode loop. The class loop is the inner `while`; each kept row
      appends one entry to each of the three vectors. */
  method DecodeOutput(output: seq<seq<real>>, numInfo: int, confThresh: real)
    returns (boxes: seq<Rect>, confs: seq<real>, classIds: seq<int>)
    requires Shaped(output, numInfo)
    ensures |boxes| == |confs| == |classIds| == |Decode(output, confThresh)|
    ensures forall k :: 0 <= k < |boxes| ==>
      Candidate(boxes[k], confs[k], classIds[k]) == Decode(output, confThresh)[k]
    ensures |boxes| == |KeptRows(output, confThresh)|
    ensures forall k :: 0 <= k < |boxes| ==>
      Candidate(boxes[k], confs[k], classIds[k]) == CandidateOf(output[KeptRows(output, confThresh)[k]])
  {
    boxes, confs, classIds := [], [], [];
    var i := 0;
    while i < |output|
      invariant 0 <= i <= |output|
      invariant |boxes| == |confs| == |classIds| == |Decode(output[..i], confThresh)|
      invariant forall k :: 0 <= k < |boxes| ==>
        Candidate(boxes[k], confs[k], classIds[k]) == Decode(output[..i], confThresh)[k]
    {
      DecodeStep(output, i, confThresh);
      ghost var before := Decode(output[..i], confThresh);
      var row := output[i];
      assert |row| == numInfo;
      var clsConf := row[4];
      if clsConf >= confThresh {
        var centerX := Trunc(row[0]);
        var centerY := Trunc(row[1]);
        var width := Trunc(row[2]);
        var height := Trunc(row[3]);
        var left := centerX - HalfTrunc(width);
        var top := centerY - HalfTrunc(height);

        var bestClassId, bestConf := BestClass(row);
        ghost var c := Candidate(Rect(left, top, width, height), Score(bestConf, clsConf), bestClassId);
        assert c == CandidateOf(row);
        assert Decode(output[..i + 1], confThresh) == before + [c];
        boxes := boxes + [Rect(left, top, width, height)];
        confs := confs + [Score(bestConf, clsConf)];
        classIds := classIds + [bestClassId];
      } else {
        assert Decode(output[..i + 1], confThresh) == before;
      }
      i := i + 1;
    }
    assert output[..|output|] == output;
    DecodeFollowsKeptRows(output, confThresh);
  }

  /** One synthetic row with objectness 0.9 and class scores 0.1, 0.8, 0.2
      decodes, at threshold 0.25, to a single candidate of class 1 with
      confidence 0.72; at threshold 0.9 the row is still kept (the test is
      inclusive), and at any higher threshold it is dropped. */
  lemma DecodeExample(cx: real, cy: real, w: real, h: real, above: real)
    requires above > 0.9
    ensures var row := [cx, cy, w, h, 0.9, 0.1, 0.8, 0.2];
      && Decode([row], 0.25) == [CandidateOf(row)]
      && CandidateOf(row).classId == 1 && CandidateOf(row).conf == 0.72
      && |Decode([row], 0.9)| == 1
      && Decode([row], above) == []
  {
    var row := [cx, cy, w, h, 0.9, 0.1, 0.8, 0.2];
    assert [row][..0] == [];
    assert BestClassUpTo(row, 8) == (1, 0.8);
  }
}
