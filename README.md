# man-ai OCR core and reader gesture state, in Dafny

This project models the arithmetic and control flow at the heart of the
man-ai Android reader's on-device OCR pipeline, together with the reader's
zoom and pan state:

- `numeric.dfy` (module `Numeric`): the Kotlin primitives the code leans on:
  `Float.toInt`, `Int / 2`, `coerceIn`, and the `shr`/`and 0xFF` extraction of
  colour bytes from an ARGB `Int`.
- `nms.dfy` (module `NmsProcessor`): `computeIoU` and greedy non-maximum
  suppression `applyNms`. `Nms` is the specification: sort by descending
  score, then keep each box no earlier kept box overlaps by more than the
  threshold. The imperative loop with its `suppressed` array is proved equal
  to it. The properties are proved about `Nms`.
- `detector.dfy` (module `Detector`): `computeLetterboxParams`,
  the buffer-filling loop of `preprocessDetector`, and `postprocessYoloOutput`,
  which decodes anchors, filters by confidence, clamps into the page and
  runs NMS.
- `recognizer.dfy` (module `Recognizer`): the crop clamp of `recognize`,
  `preprocessOcrPixels`, `decodeTokens` and `greedyDecode`. The decoder is a
  function parameter, as it is in the source.
  - `Greedy` describes a whole decoding run: the ids collected, the decoder
    calls made, and whether `maxBy` threw on empty logits.
  - `Resume` is the same run picked up part-way. The method's loop keeps
    `Resume` invariant, and `StartIsGreedy` connects it to `Greedy`.
- `reader_gesture.dfy` (module `ReaderGesture`): the class
  `ReaderGestureState` with its six fields. `Valid()` says the scale lies in
  [1, 3] and an unzoomed page is centred. Every method keeps `Valid()` and
  states its whole new state.

Kotlin `Float` is modelled as `real` (exact arithmetic). Pixels are Kotlin
`Int` values (`Int32`). Dafny's Euclidean `/` and `%` by powers of two
coincide with `shr` and `and 0xFF` on them, negative words included.

The reader test calls `toggleTopBar` and `isTopBarVisible`, which the class
does not have. The model follows the code: `toggleBars` and `areBarsVisible`,
with the toggling behaviour the test describes.

## Model

| member | source | states |
|---|---|---|
| Numeric.Trunc | android/app/src/main/java/com/highliuk/manai/data/ml/OnnxTextDetector.kt:102-103 | `toInt` truncates toward zero: for x ≥ 0 the result n is non-negative with n ≤ x < n + 1, for x < 0 it is non-positive with n − 1 < x ≤ n |
| Numeric.HalfTrunc | android/app/src/main/java/com/highliuk/manai/data/ml/OnnxTextDetector.kt:104-105 | `Int / 2` truncates toward zero: 2q ≤ a ≤ 2q + 1 for a ≥ 0 and 2q − 1 ≤ a ≤ 2q for a < 0 |
| Numeric.ClampReal | android/app/src/main/java/com/highliuk/manai/ui/reader/ReaderGestureState.kt:37 | `Float.coerceIn` on an ordered range lands in the range, keeps a value inside it and maps a value below or above it to the nearer bound |
| Numeric.ClampInt | android/app/src/main/java/com/highliuk/manai/data/ml/OnnxTextRecognizer.kt:21-24 | the same for `Int.coerceIn` |
| Numeric.Red | android/app/src/main/java/com/highliuk/manai/data/ml/OnnxTextDetector.kt:65 | `p shr 16 and 0xFF` is a byte |
| Numeric.Green | android/app/src/main/java/com/highliuk/manai/data/ml/OnnxTextDetector.kt:66 | `p shr 8 and 0xFF` is a byte |
| Numeric.Blue | android/app/src/main/java/com/highliuk/manai/data/ml/OnnxTextDetector.kt:67 | `p and 0xFF` is a byte |
| Numeric.Channel | android/app/src/main/java/com/highliuk/manai/data/ml/OnnxTextRecognizer.kt:120-122 | the channel of plane 0, 1 or 2 is a byte |
| Numeric.ChannelsRepack | android/app/src/main/java/com/highliuk/manai/data/ml/OnnxTextDetector.kt:65-67 | the three channel bytes are exactly the low 24 bits of the ARGB word, so the extraction loses nothing of the colour |
| NmsProcessor.IoU | android/app/src/main/java/com/highliuk/manai/data/ml/NmsProcessor.kt:5-15 | the IoU lies in [0, 1] and is positive exactly when the two boxes have overlapping interiors (both proper and intersecting); otherwise it is exactly 0 |
| NmsProcessor.IntersectionWithinAreas | android/app/src/main/java/com/highliuk/manai/data/ml/NmsProcessor.kt:11-14 | a non-empty intersection is positive and no larger than either box, so the union in the denominator is at least the intersection |
| NmsProcessor.IoUSymmetric | android/app/src/main/java/com/highliuk/manai/data/ml/NmsProcessor.kt:6-14 | IoU(a, b) = IoU(b, a) |
| NmsProcessor.IoUSelf | android/app/src/main/java/com/highliuk/manai/data/ml/NmsProcessor.kt:5-15 | a proper box has IoU 1 with itself |
| NmsProcessor.IoUDisjointExample | android/app/src/test/java/com/highliuk/manai/data/ml/NmsProcessorTest.kt:10-14 | [0,0,10,10] against [20,20,30,30] gives 0, whatever the scores |
| NmsProcessor.IoUPartialExample | android/app/src/test/java/com/highliuk/manai/data/ml/NmsProcessorTest.kt:23-32 | [0,0,10,10] against [5,5,15,15] gives 1/7 |
| NmsProcessor.InsertByScore | android/app/src/main/java/com/highliuk/manai/data/ml/NmsProcessor.kt:19 | inserting into a list sorted by descending score keeps it sorted and adds exactly the one box |
| NmsProcessor.SortByScoreDesc | android/app/src/main/java/com/highliuk/manai/data/ml/NmsProcessor.kt:19 | `sortedByDescending { it[4] }` returns a permutation of the boxes sorted by non-increasing score |
| NmsProcessor.KeptIndices | android/app/src/main/java/com/highliuk/manai/data/ml/NmsProcessor.kt:23-31 | the positions the loop keeps among the first n: increasing, each kept (no earlier kept box overlaps it by more than the threshold), and every kept position among the first n is listed |
| NmsProcessor.ApplyNms | android/app/src/main/java/com/highliuk/manai/data/ml/NmsProcessor.kt:17-33 | the result is `Nms`: the boxes at the kept positions of the sorted list; empty input gives the empty list |
| NmsProcessor.KeepUnsuppressed | android/app/src/main/java/com/highliuk/manai/data/ml/NmsProcessor.kt:20-32 | the loop with its `suppressed` array returns exactly the boxes at the kept positions, in order |
| NmsProcessor.SuppressOverlapping | android/app/src/main/java/com/highliuk/manai/data/ml/NmsProcessor.kt:26-30 | the inner loop marks every later box whose IoU with box i exceeds the threshold and leaves every other mark as it was |
| NmsProcessor.NmsEmpty | android/app/src/test/java/com/highliuk/manai/data/ml/NmsProcessorTest.kt:34-38 | no boxes in, no boxes out |
| NmsProcessor.NmsSingle | android/app/src/test/java/com/highliuk/manai/data/ml/NmsProcessorTest.kt:40-45 | a single box is kept unchanged |
| NmsProcessor.NmsSubMultiset | android/app/src/main/java/com/highliuk/manai/data/ml/NmsProcessor.kt:19-25 | the result is a sub-multiset of the input, hence no longer than it |
| NmsProcessor.NmsScoresNonIncreasing | android/app/src/main/java/com/highliuk/manai/data/ml/NmsProcessor.kt:19-25 | the kept boxes come in non-increasing score order |
| NmsProcessor.NmsKeepsTop | android/app/src/main/java/com/highliuk/manai/data/ml/NmsProcessor.kt:23-29 | a non-empty input keeps the first box of the sorted list, and no input box scores higher |
| NmsProcessor.NmsKeptPairwise | android/app/src/main/java/com/highliuk/manai/data/ml/NmsProcessor.kt:26-29 | any two kept boxes have IoU at most the threshold (IoU equal to it survives) |
| NmsProcessor.NmsDroppedIsCovered | android/app/src/main/java/com/highliuk/manai/data/ml/NmsProcessor.kt:24-29 | every input box is kept or overlaps, by more than the threshold, a kept box of at least its score |
| NmsProcessor.NmsDroppedIsCoveredAt | android/app/src/main/java/com/highliuk/manai/data/ml/NmsProcessor.kt:24-29 | by position in the sorted list: each box is kept, or an earlier kept position holds a box of at least its score overlapping it by more than the threshold, so a dropped copy of a surviving duplicate is covered too |
| NmsProcessor.NmsPair | android/app/src/main/java/com/highliuk/manai/data/ml/NmsProcessor.kt:17-33 | two boxes: the higher-scoring one is kept, the other only if their IoU does not exceed the threshold |
| NmsProcessor.NmsSuppressesExample | android/app/src/test/java/com/highliuk/manai/data/ml/NmsProcessorTest.kt:47-54 | the 0.5 box overlapping the 0.9 box (IoU 81/119) is dropped and the 0.9 box returned |
| NmsProcessor.NmsKeepsDisjointExample | android/app/src/test/java/com/highliuk/manai/data/ml/NmsProcessorTest.kt:56-62 | two disjoint boxes are both kept |
| Detector.FitScale | android/app/src/main/java/com/highliuk/manai/data/ml/OnnxTextDetector.kt:101 | the scale fits both sides into the square and maps one side exactly onto it |
| Detector.ComputeLetterboxParams | android/app/src/main/java/com/highliuk/manai/data/ml/OnnxTextDetector.kt:96-107 | original sizes copied; scale is `FitScale`; for a non-negative input size each new side is the page side times the scale, truncated to a whole pixel count in [0, inputSize], and each pad is non-negative with 2·pad + side within one of inputSize |
| Detector.LetterboxLandscapeExample | android/app/src/test/java/com/highliuk/manai/data/ml/OnnxTextDetectorTest.kt:9-24 | 1280×720 into 640: scale 0.5, 640×360, pads (0, 140) |
| Detector.LetterboxPortraitExample | android/app/src/test/java/com/highliuk/manai/data/ml/OnnxTextDetectorTest.kt:26-41 | 480×960 into 640: scale 2/3, 320×640, pads (160, 0) |
| Detector.LetterboxSquareExample | android/app/src/test/java/com/highliuk/manai/data/ml/OnnxTextDetectorTest.kt:43-58 | 640×640 into 640: scale 1, no padding |
| Detector.SourceCoord | android/app/src/main/java/com/highliuk/manai/data/ml/OnnxTextDetector.kt:54 | the sampled source row or column lies in [0, dim) |
| Detector.SourceIndex | android/app/src/main/java/com/highliuk/manai/data/ml/OnnxTextDetector.kt:55-64 | every sampled pixel index lies inside the `width·height` pixel array |
| Detector.Expected | android/app/src/main/java/com/highliuk/manai/data/ml/OnnxTextDetector.kt:58-67 | every input value, pad or colour byte over 255, lies in [0, 1] |
| Detector.PreprocessDetector | android/app/src/main/java/com/highliuk/manai/data/ml/OnnxTextDetector.kt:37-78 | the fresh buffer has 3·640·640 entries, and plane c of output pixel (y, x) sits at c·640² + 640·y + x and holds the pad value in the padding and the sampled pixel's channel over 255 elsewhere |
| Detector.DecodeAnchor | android/app/src/main/java/com/highliuk/manai/data/ml/OnnxTextDetector.kt:122-137 | an anchor's box has both x corners in [0, origWidth], both y corners in [0, origHeight] and the anchor's score |
| Detector.Proposals | android/app/src/main/java/com/highliuk/manai/data/ml/OnnxTextDetector.kt:119-139 | one proposal per anchor whose score is strictly above the threshold |
| Detector.ProposalsSound | android/app/src/main/java/com/highliuk/manai/data/ml/OnnxTextDetector.kt:119-139 | every proposal is the decoded box of an anchor with score above the threshold |
| Detector.ProposalsComplete | android/app/src/main/java/com/highliuk/manai/data/ml/OnnxTextDetector.kt:119-139 | every anchor with score above the threshold contributes its decoded box |
| Detector.PostprocessYoloOutput | android/app/src/main/java/com/highliuk/manai/data/ml/OnnxTextDetector.kt:109-150 | the regions are the NMS survivors of the proposals, mapped to regions one for one |
| Detector.PostprocessRegionsAreAnchors | android/app/src/main/java/com/highliuk/manai/data/ml/OnnxTextDetector.kt:119-149 | each region is the decoded box of an anchor whose score is above the threshold, carrying that score as confidence |
| Detector.PostprocessInPage | android/app/src/main/java/com/highliuk/manai/data/ml/OnnxTextDetector.kt:121-147 | each region's confidence exceeds the threshold and its corners lie inside the page |
| Detector.PostprocessCount | android/app/src/main/java/com/highliuk/manai/data/ml/OnnxTextDetector.kt:141 | there are no more regions than anchors above the threshold |
| Detector.PostprocessFilterExample | android/app/src/test/java/com/highliuk/manai/data/ml/OnnxTextDetectorTest.kt:60-83 | a lone anchor scoring 0.3 yields nothing |
| Detector.PostprocessCornerExample | android/app/src/test/java/com/highliuk/manai/data/ml/OnnxTextDetectorTest.kt:85-118 | centre (200, 240), size (100, 80) in the 1280×720 letterbox yields (300, 120)-(500, 280) with confidence 0.9 |
| Detector.PostprocessClampExample | android/app/src/test/java/com/highliuk/manai/data/ml/OnnxTextDetectorTest.kt:120-151 | a box overflowing the top-left corner is clamped to (0, 0)-(60, 60) |
| Detector.PostprocessDegenerateExample | android/app/src/main/java/com/highliuk/manai/data/ml/OnnxTextDetector.kt:132-147 | a box entirely left of the page is clamped to zero width and still returned |
| Detector.PostprocessNmsExample | android/app/src/test/java/com/highliuk/manai/data/ml/OnnxTextDetectorTest.kt:153-177 | two heavily overlapping anchors leave one region, the 0.9 one |
| Recognizer.GridCoord | android/app/src/main/java/com/highliuk/manai/data/ml/OnnxTextRecognizer.kt:21-24 | a corner lands on a pixel of the bitmap; one inside the bitmap lands on the pixel containing it; a coordinate below 1 (including one in (-1, 0), which truncates toward zero) lands on pixel 0, and one at or past the far edge on the last pixel |
| Recognizer.CropFor | android/app/src/main/java/com/highliuk/manai/data/ml/OnnxTextRecognizer.kt:21-26 | no crop exactly when the bitmap has no pixels (the clamp range is empty and throws); otherwise the crop is at least 1×1 and lies inside the bitmap, starting at the truncated corner when that is inside; in general the crop starts at the clamped first corner and spans the clamped corners' difference, at least 1 |
| Recognizer.CropInsideBitmap | android/app/src/main/java/com/highliuk/manai/data/ml/OnnxTextRecognizer.kt:21-26 | a region whose corners fall on distinct pixels inside the bitmap is cut exactly between those pixels |
| Recognizer.CropDegenerateExample | android/app/src/main/java/com/highliuk/manai/data/ml/OnnxTextRecognizer.kt:25-26 | collapsed or off-page regions still get a crop one pixel wide or high |
| Recognizer.Normalize | android/app/src/main/java/com/highliuk/manai/data/ml/OnnxTextRecognizer.kt:120-125 | `(b/255 − 0.5)/0.5` lies in [−1, 1] |
| Recognizer.NormalizeRoundTrip | android/app/src/main/java/com/highliuk/manai/data/ml/OnnxTextRecognizer.kt:123-125 | the byte is recovered from its normalized value; 0 maps to −1 and 255 to 1, and only they do |
| Recognizer.OcrValue | android/app/src/main/java/com/highliuk/manai/data/ml/OnnxTextRecognizer.kt:118-126 | every value written (or left at zero) lies in [−1, 1] |
| Recognizer.OcrPlanes | android/app/src/main/java/com/highliuk/manai/data/ml/OnnxTextRecognizer.kt:114-128 | the input holds 3·planeSize values |
| Recognizer.OcrPlanesLayout | android/app/src/main/java/com/highliuk/manai/data/ml/OnnxTextRecognizer.kt:123-125 | pixel i's red, green and blue values are at i, planeSize + i and 2·planeSize + i |
| Recognizer.PreprocessOcrPixels | android/app/src/main/java/com/highliuk/manai/data/ml/OnnxTextRecognizer.kt:114-129 | the fresh array is exactly the planar normalized image `OcrPlanes(pixels, width·height)` |
| Recognizer.FillPlanes | android/app/src/main/java/com/highliuk/manai/data/ml/OnnxTextRecognizer.kt:118-126 | the loop writes the three normalized channels of every pixel and leaves the rest of the zeroed buffer at zero |
| Recognizer.PureRedExample | android/app/src/test/java/com/highliuk/manai/data/ml/OnnxTextRecognizerTest.kt:8-23 | an opaque red pixel becomes (1, −1, −1) |
| Recognizer.ChwLayoutExample | android/app/src/test/java/com/highliuk/manai/data/ml/OnnxTextRecognizerTest.kt:25-55 | red, green, blue and white pixels of a 2×2 image give the twelve values plane by plane |
| Recognizer.RealTokens | android/app/src/main/java/com/highliuk/manai/data/ml/OnnxTextRecognizer.kt:133 | the ids kept are exactly the input ids ≥ 5, and no more of them than the input has |
| Recognizer.DecodeTokensAppend | android/app/src/main/java/com/highliuk/manai/data/ml/OnnxTextRecognizer.kt:131-136 | decoding a concatenation concatenates the decodings, so the text follows the id order with no separator |
| Recognizer.DecodeTokensSingle | android/app/src/main/java/com/highliuk/manai/data/ml/OnnxTextRecognizer.kt:131-136 | one id decodes to its vocabulary entry if it is ≥ 5 and in range, and to "" otherwise |
| Recognizer.DecodeTokensSpecialOnly | android/app/src/test/java/com/highliuk/manai/data/ml/OnnxTextRecognizerTest.kt:69-77 | ids that are all special decode to "" |
| Recognizer.DecodeTokensExample | android/app/src/test/java/com/highliuk/manai/data/ml/OnnxTextRecognizerTest.kt:57-67 | [2, 5, 10, 3] decodes to "AF" |
| Recognizer.DecodeTokensOutOfRangeExample | android/app/src/main/java/com/highliuk/manai/data/ml/OnnxTextRecognizer.kt:134 | an id past the vocabulary reads as "" |
| Recognizer.FirstArgMax | android/app/src/main/java/com/highliuk/manai/data/ml/OnnxTextRecognizer.kt:147 | `indices.maxBy`: an index of a largest logit, and the first such |
| Recognizer.ResumeIsGreedy | android/app/src/main/java/com/highliuk/manai/data/ml/OnnxTextRecognizer.kt:145-150 | resuming the loop part-way appends what the rest of the run (`Greedy`) collects and calls |
| Recognizer.StartIsGreedy | android/app/src/main/java/com/highliuk/manai/data/ml/OnnxTextRecognizer.kt:142-150 | the run from BOS at step 0 is `Greedy` |
| Recognizer.GreedyDecode | android/app/src/main/java/com/highliuk/manai/data/ml/OnnxTextRecognizer.kt:138-153 | the decoder calls and the text are those of the run from BOS at step 0; the text is the decoding of the collected ids, or None when the decoder returned no logits |
| Recognizer.GreedyLengths | android/app/src/main/java/com/highliuk/manai/data/ml/OnnxTextRecognizer.kt:145-150 | at most one call per remaining step and one id per call; a run makes one call more than it collects ids, unless it used every step without throwing |
| Recognizer.GreedyFeedsBack | android/app/src/main/java/com/highliuk/manai/data/ml/OnnxTextRecognizer.kt:143-149 | the decoder is first fed the starting id, then each collected id in turn, at consecutive step numbers |
| Recognizer.GreedyChoices | android/app/src/main/java/com/highliuk/manai/data/ml/OnnxTextRecognizer.kt:146-149 | every collected id is the first argmax of the logits of its call and is never EOS |
| Recognizer.GreedyStops | android/app/src/main/java/com/highliuk/manai/data/ml/OnnxTextRecognizer.kt:146-148 | a run that stops early stops at its last call, which returned no logits (and threw) or chose EOS |
| Recognizer.GreedyWithoutEos | android/app/src/main/java/com/highliuk/manai/data/ml/OnnxTextRecognizer.kt:145 | a decoder that always returns logits and never prefers EOS is called for every step and yields one id per step |
| Recognizer.OneHotArgMax | android/app/src/test/java/com/highliuk/manai/data/ml/OnnxTextRecognizerTest.kt:141-143 | the test's logits single out their target |
| Recognizer.StopsAtEosExample | android/app/src/test/java/com/highliuk/manai/data/ml/OnnxTextRecognizerTest.kt:79-98 | the A, B, EOS decoder is called three times, fed 2, 5, 6, and yields "AB" |
| Recognizer.ThrowsOnEmptyLogitsExample | android/app/src/main/java/com/highliuk/manai/data/ml/OnnxTextRecognizer.kt:147 | empty logits end the run with the exception after the ids collected so far |
| Recognizer.StopsAtMaxLengthExample | android/app/src/test/java/com/highliuk/manai/data/ml/OnnxTextRecognizerTest.kt:100-116 | the always-X decoder is called 40 times and yields forty X's |
| ReaderGesture.PanLimitX | android/app/src/main/java/com/highliuk/manai/ui/reader/ReaderGestureState.kt:52 | the horizontal pan limit is non-negative for a non-negative container once zoomed, and 0 unzoomed |
| ReaderGesture.PanLimitY | android/app/src/main/java/com/highliuk/manai/ui/reader/ReaderGestureState.kt:54-59 | with a known content size the vertical limit is never negative; without, it has the horizontal formula on the container's height |
| ReaderGesture.PanLimitYFitted | android/app/src/main/java/com/highliuk/manai/ui/reader/ReaderGestureState.kt:54-57 | a zoomed page that fits the container's height has no vertical pan; one that overhangs may pan by half the overhang |
| ReaderGesture.ReaderGestureState.constructor | android/app/src/main/java/com/highliuk/manai/ui/reader/ReaderGestureState.kt:9-22 | a fresh state is valid, bars hidden, scale 1, offsets 0, content size unknown |
| ReaderGesture.ReaderGestureState.IsZoomed | android/app/src/main/java/com/highliuk/manai/ui/reader/ReaderGestureState.kt:24-25 | zoomed exactly when scale > 1; an unzoomed valid state is centred |
| ReaderGesture.ReaderGestureState.SetContentSize | android/app/src/main/java/com/highliuk/manai/ui/reader/ReaderGestureState.kt:27-30 | records the content size, changes nothing else, keeps `Valid` |
| ReaderGesture.ReaderGestureState.ToggleBars | android/app/src/main/java/com/highliuk/manai/ui/reader/ReaderGestureState.kt:32-34 | negates `areBarsVisible`, changes nothing else, keeps `Valid` |
| ReaderGesture.ReaderGestureState.OnZoom | android/app/src/main/java/com/highliuk/manai/ui/reader/ReaderGestureState.kt:36-42 | scale becomes scale·zoomChange clamped to [1, 3]; offsets reset when that is 1 and kept otherwise; keeps `Valid` |
| ReaderGesture.ReaderGestureState.ResetZoom | android/app/src/main/java/com/highliuk/manai/ui/reader/ReaderGestureState.kt:44-48 | scale 1 and offsets 0, nothing else changed |
| ReaderGesture.ReaderGestureState.OnPan | android/app/src/main/java/com/highliuk/manai/ui/reader/ReaderGestureState.kt:50-63 | unzoomed: nothing moves; zoomed: each offset is the old one plus the pan, clamped to ± its limit, so it ends within the limit; keeps `Valid` |
| ReaderGesture.ToggleBarsTwice | android/app/src/main/java/com/highliuk/manai/ui/reader/ReaderGestureState.kt:32-34 | toggling twice restores the bars and touches nothing else |
| ReaderGesture.BarsScenario | android/app/src/test/java/com/highliuk/manai/ui/reader/ReaderGestureStateTest.kt:9-28 | bars start hidden, one toggle shows them, a second hides them |
| ReaderGesture.ZoomPanScenario | android/app/src/main/java/com/highliuk/manai/ui/reader/ReaderGestureState.kt:36-63 | zoom 2 on a 400-wide view stops a long pan at 200; pinching far out lands on scale 1 and re-centres |

## Left out

- ONNX Runtime is not part of this model, and neither is the code that drives it:
  - `detect` (`OnnxTextDetector.kt` lines 17-35);
  - `runInference`, `runDecoderGreedy` and `createInputIds` (`OnnxTextRecognizer.kt` lines 49-104);
  - tensor creation and closing.

  The decoder is the function parameter of `greedyDecode`. `runDecoderGreedy` runs the same selection loop over the past-key cache.
- The Android `Bitmap` calls are not part of this model: `getPixels`, `createBitmap` and the scaling to `OCR_INPUT_SIZE`. Pixels arrive as a given sequence of ARGB words of length width·height. The crop is modelled up to the rectangle handed to `createBitmap`.
- Coroutine dispatching (`withContext`) and Compose state observation are not modelled. The gesture state is an ordinary object.
- IEEE single-precision rounding, infinities and NaN are not modelled, so every value is exact.
  - `PAD_VALUE` is the literal 0.4471, not 114/255.
  - The tests' tolerances do not apply, so the portrait scale is exactly 2/3.
- `NmsProcessor.SortByScoreDesc` is an insertion sort that keeps boxes of equal score in input order. Kotlin's `sortedByDescending` is also stable, but stability is not proved.
- Some loops are their own methods, called where the source has the loop:
  - `NmsProcessor.KeepUnsuppressed` is the outer loop of `applyNms`;
  - `NmsProcessor.SuppressOverlapping` is its inner loop;
  - `Recognizer.FillPlanes` is the loop of `preprocessOcrPixels`.
- `Recognizer.GreedyDecode` returns its decoder calls as `calls`. They stand for the recording mocks of the tests.
- `Recognizer.GreedyDecode`: `None` stands for the `NoSuchElementException` that `maxBy` throws on empty logits.
- `Detector.PreprocessDetector` requires a non-zero letterbox scale. Otherwise the inverse scale `1f / scale` is infinite in Kotlin.
- `Detector.PostprocessYoloOutput` requires five output rows with an entry per anchor, a non-zero scale, and non-negative page sides. An empty output, or a missing or short score row (row 4), makes Kotlin throw as soon as the loop reaches an anchor without a score, whatever the scores. Short rows 1–3 throw only when an anchor above the threshold reaches a missing entry. With an empty row 0 and at least one row, Kotlin returns no regions. A negative page side can make `coerceIn` throw on an empty range, when some anchor is above the threshold. A zero scale makes the inverse scale infinite in Kotlin, and the resulting infinite or NaN coordinates are not modelled.
- `Detector.ComputeLetterboxParams` requires positive page sides. The division by a zero side is not modelled.
- `Recognizer.PreprocessOcrPixels` requires no more pixels than width·height. With more pixels the Kotlin loop writes past the array and throws.
- `Recognizer.PreprocessOcrPixels`: 32-bit overflow of width·height is not modelled.
- `ReaderGesture.ReaderGestureState.OnPan` requires non-negative container sides wherever they bound an offset. With a negative side, `coerceIn` gets an empty range and throws.
