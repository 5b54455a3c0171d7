# YOLOv5 post-processing of the KuiperInfer demo, in Dafny

The demo `demos/main.cpp` runs a YOLOv5 detector on one image. After the
forward pass it post-processes the network's output table in four steps:

1. The **decode loop** scans the `elements x num_info` table, one row per
   candidate box. It keeps each row whose objectness (column 4) is at least
   `conf_thresh`. It turns the centre-form box into corner form with
   truncating `(int)` casts and C++ integer division. It picks the best class
   by a strict-`>` running argmax over columns `5 .. num_info-1`. Each kept row
   appends one entry to each of the parallel vectors `boxes`, `confs` and
   `class_ids`.
2. `cv::dnn::NMSBoxes` suppresses overlapping boxes and returns the surviving
   indices.
3. The **collect loop** builds one `Detection` per surviving index.
4. `ScaleCoords` maps each detection's box from the 640 x 640 letterboxed input
   back to the original image. It divides by the letterbox gain after
   removing the pad, rounds, and clamps with `clip`.

The model has four modules, one file each:

- `numerics.dfy` (`Numerics`) holds the C++ conversions over unbounded
  integers and reals:
  - the `(int)` cast of a float (truncation toward zero);
  - `std::round` (halfway cases away from zero);
  - `int / 2` (truncating);
  - the `clip` template at `int`.
- `scale_coords.dfy` (`ScaleCoords`) models `cv::Size`, `cv::Rect`, the gain,
  the pads and the mapping. `MapBack` is the mapping as a function. The method
  `ScaleCoords` overwrites the rectangle field by field, as the source does,
  with the pads in a two-element array. The by-reference `coords` argument
  becomes the returned rectangle.
- `decode.dfy` (`Decode`) holds the decode loop (`DecodeOutput`) and the
  class loop (`BestClass`) as methods with loop invariants. They are proved
  against the functions `Decode`, `KeptRows`, `CandidateOf` and
  `BestClassUpTo`.
- `pipeline.dfy` (`Pipeline`) holds the `Detection` record, the collect loop
  (`CollectDetections`) and the composition `SingleImageYoloInfer`. The
  composition runs decoding, then suppression, then collection. The
  suppressor is a parameter `nms`, constrained only to return valid,
  duplicate-free indices.

Float values (tensor entries, the gain, confidences) are modelled as `real`.

## Model

| member | source | states |
|---|---|---|
| `Numerics.TruncTowardZero` | demos/main.cpp:29-30 | the `(int)` cast of a float gives the integer next to it on the side of zero, for positive and negative values |
| `Numerics.RoundNearest` | demos/main.cpp:32-36 | `std::round` is within half a unit of its argument; a halfway value goes away from zero |
| `Numerics.RoundOfInt` | demos/main.cpp:32-36 | rounding a whole number returns it unchanged |
| `Numerics.HalfTrunc` | demos/main.cpp:121-122 | `a / 2` on `int` truncates toward zero: `2q <= a <= 2q+1` for non-negative `a`, `2q-1 <= a <= 2q` for negative `a` |
| `Numerics.Clip` | demos/main.cpp:21-23 | with `lower <= upper` the result lies in `[lower, upper]`; it is `n` when `n` is in range, `lower` below the range and `upper` above it; with `upper < lower` it is `lower` (the outer `max` wins) |
| `Numerics.ClipIdempotent` | demos/main.cpp:21-23 | clamping twice equals clamping once |
| `ScaleCoords.Gain` | demos/main.cpp:26-27 | the gain is positive and at most each of the two axis ratios |
| `ScaleCoords.ScaledSideFits` | demos/main.cpp:26-30 | a side scaled by at most its ratio fits into the network side, and scaled by exactly its ratio fills it |
| `ScaleCoords.GainFits` | demos/main.cpp:26-27 | the scaled original fits on both axes and fills at least one exactly, so the gain is the largest uniform scale that fits |
| `ScaleCoords.HalfPadOfLeftover` | demos/main.cpp:29-30 | when the scaled side fits, the truncated half of the leftover is non-negative and twice it misses the leftover by less than two |
| `ScaleCoords.PadOfSide` | demos/main.cpp:29-30 | one axis of the pad: non-negative, and twice the pad is the leftover less under two pixels, for positive sizes |
| `ScaleCoords.PadsAreHalfLeftover` | demos/main.cpp:26-30 | both pads are non-negative for positive sizes, and each is the leftover of its own axis halved and truncated |
| `ScaleCoords.AxisBack` | demos/main.cpp:32-41 | one coordinate mapped back (pad removed, divided by the gain, rounded, clamped) lies in `[0, bound]` |
| `ScaleCoords.Unletterbox` | demos/main.cpp:32-41 | for any positive gain and any pad, the mapped box is clamped to the image on all four fields |
| `ScaleCoords.MapBack` | demos/main.cpp:25-42 | with the gain and pads of the two sizes, the mapped box satisfies `0 <= x, width <= origin.width` and `0 <= y, height <= origin.height` |
| `ScaleCoords.ScaleCoords` | demos/main.cpp:25-42 | the step-by-step update of the rectangle, with the pads held in a two-element array, leaves exactly `MapBack` of the input, which is clamped |
| `ScaleCoords.AxisBackInverts` | demos/main.cpp:32-41 | per axis, the mapping undoes the letterbox: pad plus gain times an in-range coordinate maps back to that coordinate |
| `ScaleCoords.UnletterboxInverts` | demos/main.cpp:32-41 | round trip: a box that is the exact letterbox image of a box inside the original maps back to that box |
| `ScaleCoords.AxisBackWithinHalfPixel` | demos/main.cpp:32-41 | when the exact inverse lies in `[0, bound]`, the mapped coordinate is within half a pixel of it |
| `ScaleCoords.ScaleCoordsExample` | demos/main.cpp:25-42 | a 1280 x 720 image in a 640 x 640 input has gain 1/2 and pads (0, 140), and maps (320, 320, 100, 50) back to (640, 360, 200, 100) |
| `ScaleCoords.ScaleCoordsMayOverhang` | demos/main.cpp:40-41 | width is clamped against the whole image width rather than the space right of `x`, so a mapped box can extend past the right edge |
| `Decode.BestClassIsFirstMax` | demos/main.cpp:124-131 | the running argmax with strict `>` from the start (-1, -1) yields (-1, -1) when no score exceeds -1, and otherwise the first column holding the maximum score, with that score |
| `Decode.IsFirstMaxUnique` | demos/main.cpp:124-131 | the first-maximum description admits exactly one (class, score) pair |
| `Decode.BestClassInRange` | demos/main.cpp:124-131 | when some class score exceeds -1, the chosen class lies in `[0, num_info - 5)` |
| `Decode.BestClass` | demos/main.cpp:124-131 | the class loop returns the first maximum over columns `5 .. num_info-1` |
| `Decode.CandidateCornerForm` | demos/main.cpp:117-122 | the corner-form box keeps the truncated width and height, and the truncated centre lies in its middle, with the odd pixel on the far side for a non-negative extent |
| `Decode.FiveColumnsNoClass` | demos/main.cpp:124-135 | with only the five fixed columns the class loop does not run, so the candidate has class -1 and confidence `-1 * objectness` |
| `Decode.KeptRows` | demos/main.cpp:114-116 | the kept row indices are in range and strictly increasing, so scan order is kept |
| `Decode.KeptRowsExactly` | demos/main.cpp:115-116 | a row is kept if and only if its objectness is at least the threshold (inclusive) |
| `Decode.LastRowStep` | demos/main.cpp:114-137 | the last row adds its candidate and its index when kept, and neither otherwise |
| `Decode.DecodeStep` | demos/main.cpp:114-137 | scanning one more row appends that row's candidate exactly when its objectness reaches the threshold |
| `Decode.DecodeFollowsKeptRows` | demos/main.cpp:114-137 | the `k`-th decoded candidate is the candidate of the `k`-th kept row, and there is one candidate per kept row |
| `Decode.DecodeOutput` | demos/main.cpp:113-137 | the three vectors have equal length, and position `k` of each holds the box, confidence (`best_conf * cls_conf`) and class of the `k`-th row whose objectness reaches the threshold |
| `Decode.DecodeExample` | demos/main.cpp:114-137 | a row with objectness 0.9 and class scores 0.1, 0.8, 0.2 gives one candidate of class 1 and confidence 0.72 at threshold 0.25; it is still kept at threshold 0.9 and dropped at any higher one |
| `Pipeline.DetectionOf` | demos/main.cpp:143-150 | a detection keeps the confidence and class and has a box clamped to the image |
| `Pipeline.CollectDetections` | demos/main.cpp:142-152 | one detection per surviving index, in index order and nothing else; each has box `ScaleCoords(boxes[idx])`, confidence `confs[idx]` and class `class_ids[idx]`, and a clamped box |
| `Pipeline.ValidIndicesBounded` | demos/main.cpp:140 | a duplicate-free index list into `n` boxes has at most `n` entries |
| `Pipeline.SingleImageYoloInfer` | demos/main.cpp:113-152 | every detection is a surviving decoded candidate mapped back to the image, in the suppressor's order, from a row whose objectness reaches the threshold; there are no more detections than candidates; every box is clamped |

## Left out

- `cv::dnn::NMSBoxes` (demos/main.cpp:140) is an OpenCV call whose algorithm is not part of this model. It is the parameter `nms`, and the only thing assumed of it is that it returns indices into `boxes` that are in range and contain no duplicates.
- `Letterbox` (demos/main.cpp:64) is defined in `image_util.hpp`, which is not part of this model. The round-trip lemmas therefore take the forward positions as a hypothesis (`LetterboxedAt`) rather than computing them.
- Image loading and preprocessing are left out: `imread`, `cvtColor`, `convertTo`, `split`, the transpose and the `memcpy` into the input tensor (demos/main.cpp:58-90). They are pixel plumbing and raw memory copies.
- Model construction and the forward pass are left out: `RuntimeGraph`, `Build` and `Forward` (demos/main.cpp:53-56, 93). They are model-file I/O and an opaque computation, so the output table is an input.
- Drawing, `imwrite`, the `TICK`/`TOCK` timing and `main` are left out (demos/main.cpp:92-94, 154-169). They are output and instrumentation.
- The shape asserts (demos/main.cpp:96-106) check only that there is one output and that it has rank 3 and batch 1. Batch 1 is fixed by modelling the table as two-dimensional, and each violated `assert` becomes a violated precondition. The precondition `Shaped` also demands that every row has `num_info >= 5` entries. No assert checks that; it is needed because line 115 reads column 4 of every row and lines 117-120 read columns 0-3.
- Floats are real numbers, so IEEE-754 rounding of `float` division and products is not modelled.
- Integers are unbounded, so 32-bit overflow of `int` and the `uint32_t` loop counters is not modelled. Neither is the undefined behaviour of casting an out-of-range float to `int`.
- `Numerics.Clip` models the `clip` template only at `int`, the one type it is instantiated with.
- `Numerics.Trunc`, `Numerics.Round`, `ScaleCoords.Pads`, `ScaleCoords.HalfPad`, `Decode.BestClassUpTo`, `Decode.CandidateOf` and `Decode.Decode` carry no `ensures` of their own. Their properties are the lemmas listed above, which keeps the real arithmetic of each proof small.
- With exactly five columns there is no class score: the class loop does not run, so the decode loop emits class -1 and confidence `-1 * objectness` (`Decode.FiveColumnsNoClass`). `num_info - 5` on line 106 is an unchecked `uint32_t` subtraction and is not used afterwards.
- `ScaleCoords` does not bound the gain by 1: an image smaller than 640 x 640 gets a gain above 1, and the model follows that.
- `SingleImageYoloInfer`'s default arguments `conf_thresh = 0.25f` and `iou_thresh = 0.25f` (demos/main.cpp:45), which `main` relies on, are ordinary parameters `confThresh` and `iouThresh` here, since Dafny methods have no default arguments.
