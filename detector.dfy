/** The text detector's arithmetic around the YOLO network: letterboxing a
    page into the square network input, filling the planar input buffer, and
    decoding the network's per-anchor output into text regions. */
module Detector {
  import opened Numeric
  import opened NmsProcessor

  /** Side of the square detector input. */
  const InputSize: nat := 640
  const PlaneSize: nat := InputSize * InputSize
  const ConfThreshold: real := 0.5
  const IouThreshold: real := 0.45
  /** The grey used for padding, 114/255 rounded to four places. */
  const PadValue: real := 0.4471

  /** How a page of `origWidth` x `origHeight` is scaled and centred inside
      the square input. */
  datatype LetterboxParams = LetterboxParams(
    origWidth: int,
    origHeight: int,
    scale: real,
    newWidth: int,
    newHeight: int,
    padLeft: int,
    padTop: int)

  /** A detected text box in page coordinates. */
  datatype TextRegion = TextRegion(x1: real, y1: real, x2: real, y2: real, confidence: real)

  // ---------------------------------------------------------------------
  // Letterbox parameters

  /** The largest factor that fits both sides into the `s` square: it maps
      one side exactly onto `s` and the other onto at most `s`. */
  function FitScale(w: int, h: int, s: int): (scale: real)
    requires 0 < w && 0 < h
    ensures w as real * scale <= s as real && h as real * scale <= s as real
    ensures w as real * scale == s as real || h as real * scale == s as real
    ensures 0 <= s ==> 0.0 <= w as real * scale && 0.0 <= h as real * scale
  {
    var wr, hr, sr := w as real, h as real, s as real;
    FitsSide(wr, hr, sr);
    FitsSide(hr, wr, sr);
    MinReal(sr / wr, sr / hr)
  }

  /** Scales the page by the largest factor that fits both sides into the
      `inputSize` square, truncates the scaled sides, and centres the result,
      the odd pixel of slack going right and below. */
  function ComputeLetterboxParams(origWidth: int, origHeight: int, inputSize: int): (lb: LetterboxParams)
    requires 0 < origWidth && 0 < origHeight
    ensures lb.origWidth == origWidth && lb.origHeight == origHeight
    ensures lb.scale == FitScale(origWidth, origHeight, inputSize)
    ensures 0 <= inputSize ==> 0 <= lb.newWidth <= inputSize && 0 <= lb.newHeight <= inputSize
    ensures 0 <= inputSize ==> TruncatedScale(lb.newWidth, origWidth, lb.scale)
    ensures 0 <= inputSize ==> TruncatedScale(lb.newHeight, origHeight, lb.scale)
    ensures 0 <= inputSize ==> 0 <= lb.padLeft && 2 * lb.padLeft + lb.newWidth <= inputSize <= 2 * lb.padLeft + lb.newWidth + 1
    ensures 0 <= inputSize ==> 0 <= lb.padTop && 2 * lb.padTop + lb.newHeight <= inputSize <= 2 * lb.padTop + lb.newHeight + 1
  {
    var scale := FitScale(origWidth, origHeight, inputSize);
    var newWidth := ScaledSide(origWidth, scale, inputSize);
    var newHeight := ScaledSide(origHeight, scale, inputSize);
    CenteredSide(newWidth, inputSize);
    CenteredSide(newHeight, inputSize);
    LetterboxParams(origWidth, origHeight, scale, newWidth, newHeight,
                    HalfTrunc(inputSize - newWidth), HalfTrunc(inputSize - newHeight))
  }

  /** The smaller of the two fitting factors scales `side` to at most `s`,
      and exactly to `s` when it is this side's own factor. */
  lemma FitsSide(side: real, other: real, s: real)
    requires 0.0 < side && 0.0 < other
    ensures side * MinReal(s / side, s / other) <= s
    ensures 0.0 <= s ==> 0.0 <= side * MinReal(s / side, s / other)
    ensures s / side <= s / other ==> side * MinReal(s / side, s / other) == s
  {
    assert side * (s / side) == s;
    if s / other < s / side {
      assert side * (s / other) <= side * (s / side);
    }
    if 0.0 <= s {
      assert 0.0 <= s / side && 0.0 <= s / other;
    }
  }

  /** `n` is `side` scaled by `scale` and truncated to whole pixels. */
  predicate TruncatedScale(n: int, side: int, scale: real)
  {
    n as real <= side as real * scale < n as real + 1.0
  }

  /** A side scaled into `[0, s]` and truncated is the whole number of
      pixels in `[0, s]` just below the scaled length. */
  function ScaledSide(side: int, scale: real, s: int): (n: int)
    requires 0 <= s ==> 0.0 <= side as real * scale <= s as real
    ensures 0 <= s ==> 0 <= n <= s
    ensures 0 <= s ==> TruncatedScale(n, side, scale)
  {
    Trunc(side as real * scale)
  }

  /** Centring `n` pixels in `s` leaves non-negative pads that sum to the
      slack, the one after the side taking the odd pixel. */
  lemma CenteredSide(n: int, s: int)
    requires 0 <= s ==> 0 <= n <= s
    ensures 0 <= s ==> 0 <= HalfTrunc(s - n) && 2 * HalfTrunc(s - n) + n <= s <= 2 * HalfTrunc(s - n) + n + 1
  {
  }

  /** A 1280 x 720 page is halved to 640 x 360 and padded 140 above and below. */
  lemma LetterboxLandscapeExample()
    ensures ComputeLetterboxParams(1280, 720, 640) == LetterboxParams(1280, 720, 0.5, 640, 360, 0, 140)
  {
  }

  /** A 480 x 960 page is shrunk to 320 x 640 and padded 160 left and right. */
  lemma LetterboxPortraitExample()
    ensures ComputeLetterboxParams(480, 960, 640) == LetterboxParams(480, 960, 2.0 / 3.0, 320, 640, 160, 0)
  {
  }

  /** A page of exactly the input size is left as it is. */
  lemma LetterboxSquareExample()
    ensures ComputeLetterboxParams(640, 640, 640) == LetterboxParams(640, 640, 1.0, 640, 640, 0, 0)
  {
  }

  // ---------------------------------------------------------------------
  // Input buffer

  /** `1/255`, the factor that maps a colour byte into [0, 1]. */
  const Inv255: real := 1.0 / 255.0

  /** Output pixel (`y`, `x`) lies in the padding around the scaled page. */
  predicate InPad(lb: LetterboxParams, y: int, x: int)
  {
    y < lb.padTop || y >= lb.padTop + lb.newHeight || x < lb.padLeft || x >= lb.padLeft + lb.newWidth
  }

  /** The source row (or column) sampled for output row (or column) `out`:
      the offset into the scaled page times the inverse scale, truncated and
      clamped into the source. */
  function SourceCoord(out: int, pad: int, invScale: real, dim: int): (c: int)
    requires 1 <= dim
    ensures 0 <= c < dim
  {
    ClampInt(Trunc((out - pad) as real * invScale), 0, dim - 1)
  }

  /** Position in the row-major source pixels sampled for output pixel
      (`y`, `x`); it always lies inside the source. */
  function SourceIndex(width: int, height: int, lb: LetterboxParams, y: int, x: int): (k: int)
    requires 1 <= width && 1 <= height && lb.scale != 0.0
    ensures 0 <= k < width * height
  {
    var sy := SourceCoord(y, lb.padTop, 1.0 / lb.scale, height);
    var sx := SourceCoord(x, lb.padLeft, 1.0 / lb.scale, width);
    RowMajorInBounds(sy, sx, width, height);
    sy * width + sx
  }

  /** What the detector input holds in plane `c` (0 = R, 1 = G, 2 = B) at
      output pixel (`y`, `x`): the pad grey inside the padding, otherwise the
      sampled source pixel's channel scaled into [0, 1]. */
  function Expected(pixels: seq<Int32>, width: int, height: int, lb: LetterboxParams, c: nat, y: int, x: int): (v: real)
    requires c < 3 && 1 <= width && 1 <= height && |pixels| == width * height && lb.scale != 0.0
    ensures 0.0 <= v <= 1.0
  {
    if InPad(lb, y, x) then PadValue
    else Channel(pixels[SourceIndex(width, height, lb, y, x)], c) as real * Inv255
  }

  /** The first `n` output pixels of the planar buffer `v` hold their
      expected values in all three planes. */
  ghost predicate FilledUpTo(v: seq<real>, pixels: seq<Int32>, width: int, height: int, lb: LetterboxParams, n: int)
    requires |v| == 3 * PlaneSize && 1 <= width && 1 <= height && |pixels| == width * height && lb.scale != 0.0
  {
    forall y, x :: 0 <= y < InputSize && 0 <= x < InputSize && y * InputSize + x < n ==>
      v[y * InputSize + x] == Expected(pixels, width, height, lb, 0, y, x) &&
      v[PlaneSize + y * InputSize + x] == Expected(pixels, width, height, lb, 1, y, x) &&
      v[2 * PlaneSize + y * InputSize + x] == Expected(pixels, width, height, lb, 2, y, x)
  }

  /** Writing the expected values of output pixel (`y0`, `x0`) into its
      three planes extends the filled prefix by one pixel. */
  lemma FillStep(before: seq<real>, after: seq<real>, pixels: seq<Int32>, width: int, height: int,
                 lb: LetterboxParams, y0: int, x0: int)
    requires 1 <= width && 1 <= height && |pixels| == width * height && lb.scale != 0.0
    requires 0 <= y0 < InputSize && 0 <= x0 < InputSize
    requires |before| == 3 * PlaneSize && |after| == 3 * PlaneSize
    requires FilledUpTo(before, pixels, width, height, lb, y0 * InputSize + x0)
    requires after[y0 * InputSize + x0] == Expected(pixels, width, height, lb, 0, y0, x0)
    requires after[PlaneSize + y0 * InputSize + x0] == Expected(pixels, width, height, lb, 1, y0, x0)
    requires after[2 * PlaneSize + y0 * InputSize + x0] == Expected(pixels, width, height, lb, 2, y0, x0)
    requires forall k ::
               0 <= k < 3 * PlaneSize && k != y0 * InputSize + x0 &&
               k != PlaneSize + y0 * InputSize + x0 && k != 2 * PlaneSize + y0 * InputSize + x0
               ==> after[k] == before[k]
    ensures FilledUpTo(after, pixels, width, height, lb, y0 * InputSize + x0 + 1)
  {
    forall y, x | 0 <= y < InputSize && 0 <= x < InputSize && y * InputSize + x < y0 * InputSize + x0 + 1
      ensures after[y * InputSize + x] == Expected(pixels, width, height, lb, 0, y, x) &&
              after[PlaneSize + y * InputSize + x] == Expected(pixels, width, height, lb, 1, y, x) &&
              after[2 * PlaneSize + y * InputSize + x] == Expected(pixels, width, height, lb, 2, y, x)
    {
      if y * InputSize + x == y0 * InputSize + x0 {
        assert y == y0 && x == x0;
      }
    }
  }

  /** Fills the planar `3 x InputSize x InputSize` detector input: plane `c`
      of output pixel (`y`, `x`) is at `c * PlaneSize + y * InputSize + x`. */
  method PreprocessDetector(pixels: seq<Int32>, width: int, height: int, lb: LetterboxParams)
    returns (floats: array<real>)
    requires 1 <= width && 1 <= height && |pixels| == width * height && lb.scale != 0.0
    ensures fresh(floats) && floats.Length == 3 * PlaneSize
    ensures forall y, x :: 0 <= y < InputSize && 0 <= x < InputSize ==>
              floats[y * InputSize + x] == Expected(pixels, width, height, lb, 0, y, x) &&
              floats[PlaneSize + y * InputSize + x] == Expected(pixels, width, height, lb, 1, y, x) &&
              floats[2 * PlaneSize + y * InputSize + x] == Expected(pixels, width, height, lb, 2, y, x)
  {
    floats := new real[3 * PlaneSize];
    var padRight := lb.padLeft + lb.newWidth;
    var padBottom := lb.padTop + lb.newHeight;
    var invScale := 1.0 / lb.scale;
    var outIdx := 0;
    for outY := 0 to InputSize
      invariant outIdx == outY * InputSize
      invariant FilledUpTo(floats[..], pixels, width, height, lb, outIdx)
    {
      var inPadY := outY < lb.padTop || outY >= padBottom;
      var srcY := if inPadY then -1 else SourceCoord(outY, lb.padTop, invScale, height);
      var srcRowOffset := srcY * width;
      for outX := 0 to InputSize
        invariant outIdx == outY * InputSize + outX
        invariant FilledUpTo(floats[..], pixels, width, height, lb, outIdx)
      {
        ghost var before := floats[..];
        if inPadY || outX < lb.padLeft || outX >= padRight {
          floats[outIdx] := PadValue;
          floats[PlaneSize + outIdx] := PadValue;
          floats[2 * PlaneSize + outIdx] := PadValue;
          assert InPad(lb, outY, outX);
        } else {
          var srcX := SourceCoord(outX, lb.padLeft, invScale, width);
          assert srcRowOffset + srcX == SourceIndex(width, height, lb, outY, outX);
          var p := pixels[srcRowOffset + srcX];
          floats[outIdx] := Red(p) as real * Inv255;
          floats[PlaneSize + outIdx] := Green(p) as real * Inv255;
          floats[2 * PlaneSize + outIdx] := Blue(p) as real * Inv255;
          assert !InPad(lb, outY, outX);
        }
        FillStep(before, floats[..], pixels, width, height, lb, outY, outX);
        outIdx := outIdx + 1;
      }
    }
    assert FilledUpTo(floats[..], pixels, width, height, lb, PlaneSize);
  }

  // ---------------------------------------------------------------------
  // Output decoding

  /** The network output holds five rows (centre x, centre y, width,
      height, score), each with an entry for every anchor of row 0. */
  predicate WellShaped(output: seq<seq<real>>)
  {
    5 <= |output| && forall r :: 1 <= r < 5 ==> |output[0]| <= |output[r]|
  }

  /** What decoding needs of the letterbox: an invertible scale and
      non-negative page sides to clamp into. */
  predicate Decodable(lb: LetterboxParams)
  {
    lb.scale != 0.0 && 0 <= lb.origWidth && 0 <= lb.origHeight
  }

  /** Maps a network-input coordinate back onto the page. */
  function Unletterbox(v: real, pad: int, invScale: real): real
  {
    (v - pad as real) * invScale
  }

  /** Anchor `i` as a page box: centre and size become corners, the padding
      is removed, the scale undone, and each corner clamped into the page. */
  function DecodeAnchor(output: seq<seq<real>>, lb: LetterboxParams, i: nat): (b: Box)
    requires WellShaped(output) && i < |output[0]| && Decodable(lb)
    ensures 0.0 <= b.x1 <= lb.origWidth as real && 0.0 <= b.x2 <= lb.origWidth as real
    ensures 0.0 <= b.y1 <= lb.origHeight as real && 0.0 <= b.y2 <= lb.origHeight as real
    ensures b.score == output[4][i]
  {
    var xCenter, yCenter, width, height := output[0][i], output[1][i], output[2][i], output[3][i];
    var invScale := 1.0 / lb.scale;
    var w, h := lb.origWidth as real, lb.origHeight as real;
    Box(ClampReal(Unletterbox(xCenter - width / 2.0, lb.padLeft, invScale), 0.0, w),
        ClampReal(Unletterbox(yCenter - height / 2.0, lb.padTop, invScale), 0.0, h),
        ClampReal(Unletterbox(xCenter + width / 2.0, lb.padLeft, invScale), 0.0, w),
        ClampReal(Unletterbox(yCenter + height / 2.0, lb.padTop, invScale), 0.0, h),
        output[4][i])
  }

  /** Number of the first `n` anchors whose score passes the threshold. */
  function CountAbove(scores: seq<real>, threshold: real, n: nat): (count: nat)
    requires n <= |scores|
    ensures count <= n
  {
    if n == 0 then 0
    else CountAbove(scores, threshold, n - 1) + (if scores[n - 1] > threshold then 1 else 0)
  }

  /** The proposals of the first `n` anchors, in anchor order: the decoded
      anchors whose score is strictly above the threshold. */
  function Proposals(output: seq<seq<real>>, lb: LetterboxParams, confThreshold: real, n: nat): (ps: seq<Box>)
    requires WellShaped(output) && n <= |output[0]| && Decodable(lb)
    ensures |ps| == CountAbove(output[4], confThreshold, n)
  {
    if n == 0 then []
    else
      var earlier := Proposals(output, lb, confThreshold, n - 1);
      if output[4][n - 1] > confThreshold then earlier + [DecodeAnchor(output, lb, n - 1)] else earlier
  }

  /** Every proposal is the decoded box of an anchor above the threshold. */
  lemma {:induction false} ProposalsSound(output: seq<seq<real>>, lb: LetterboxParams, confThreshold: real, n: nat)
    requires WellShaped(output) && n <= |output[0]| && Decodable(lb)
    ensures forall b :: b in Proposals(output, lb, confThreshold, n) ==>
              exists i :: 0 <= i < n && output[4][i] > confThreshold && b == DecodeAnchor(output, lb, i)
  {
    if n > 0 {
      ProposalsSound(output, lb, confThreshold, n - 1);
    }
  }

  /** Every anchor above the threshold contributes its decoded box. */
  lemma {:induction false} ProposalsComplete(output: seq<seq<real>>, lb: LetterboxParams, confThreshold: real, n: nat)
    requires WellShaped(output) && n <= |output[0]| && Decodable(lb)
    ensures forall i :: 0 <= i < n && output[4][i] > confThreshold ==>
              DecodeAnchor(output, lb, i) in Proposals(output, lb, confThreshold, n)
  {
    if n > 0 {
      ProposalsComplete(output, lb, confThreshold, n - 1);
    }
  }

  function ToRegion(b: Box): TextRegion
  {
    TextRegion(b.x1, b.y1, b.x2, b.y2, b.score)
  }

  /** What `postprocessYoloOutput` returns: the proposals that survive
      non-maximum suppression, as text regions. */
  function Postprocess(output: seq<seq<real>>, lb: LetterboxParams, confThreshold: real, iouThreshold: real): seq<TextRegion>
    requires WellShaped(output) && Decodable(lb)
  {
    var kept := Nms(Proposals(output, lb, confThreshold, |output[0]|), iouThreshold);
    seq(|kept|, k requires 0 <= k < |kept| => ToRegion(kept[k]))
  }

  /** `postprocessYoloOutput`: collects the proposals of the anchors above
      the confidence threshold, runs non-maximum suppression over them and
      converts the survivors to text regions. */
  method PostprocessYoloOutput(output: seq<seq<real>>, lb: LetterboxParams, confThreshold: real, iouThreshold: real)
    returns (regions: seq<TextRegion>)
    requires WellShaped(output) && Decodable(lb)
    ensures regions == Postprocess(output, lb, confThreshold, iouThreshold)
  {
    var numPredictions := |output[0]|;
    var proposals := [];
    var invScale := 1.0 / lb.scale;
    for i := 0 to numPredictions
      invariant proposals == Proposals(output, lb, confThreshold, i)
    {
      var score := output[4][i];
      if score > confThreshold {
        var xCenter, yCenter, width, height := output[0][i], output[1][i], output[2][i], output[3][i];
        var x1 := Unletterbox(xCenter - width / 2.0, lb.padLeft, invScale);
        var y1 := Unletterbox(yCenter - height / 2.0, lb.padTop, invScale);
        var x2 := Unletterbox(xCenter + width / 2.0, lb.padLeft, invScale);
        var y2 := Unletterbox(yCenter + height / 2.0, lb.padTop, invScale);
        x1 := ClampReal(x1, 0.0, lb.origWidth as real);
        y1 := ClampReal(y1, 0.0, lb.origHeight as real);
        x2 := ClampReal(x2, 0.0, lb.origWidth as real);
        y2 := ClampReal(y2, 0.0, lb.origHeight as real);
        proposals := proposals + [Box(x1, y1, x2, y2, score)];
      }
    }
    var kept := ApplyNms(proposals, iouThreshold);
    regions := seq(|kept|, k requires 0 <= k < |kept| => ToRegion(kept[k]));
  }

  /** Every returned region is the clamped box of an anchor whose score is
      strictly above the confidence threshold, with that score as its
      confidence. */
  lemma PostprocessRegionsAreAnchors(output: seq<seq<real>>, lb: LetterboxParams, confThreshold: real, iouThreshold: real)
    requires WellShaped(output) && Decodable(lb)
    ensures forall r :: r in Postprocess(output, lb, confThreshold, iouThreshold) ==>
              exists i :: 0 <= i < |output[0]| && output[4][i] > confThreshold && r == ToRegion(DecodeAnchor(output, lb, i))
  {
    var ps := Proposals(output, lb, confThreshold, |output[0]|);
    var regions := Postprocess(output, lb, confThreshold, iouThreshold);
    ProposalsSound(output, lb, confThreshold, |output[0]|);
    forall r | r in regions
      ensures exists i :: 0 <= i < |output[0]| && output[4][i] > confThreshold && r == ToRegion(DecodeAnchor(output, lb, i))
    {
      var k :| 0 <= k < |regions| && regions[k] == r;
      var b := KeptProposal(ps, iouThreshold, k);
      assert r == ToRegion(b);
    }
  }

  /** The `k`-th survivor of the suppression is one of the proposals. */
  lemma KeptProposal(ps: seq<Box>, iouThreshold: real, k: nat) returns (b: Box)
    requires k < |Nms(ps, iouThreshold)|
    ensures b == Nms(ps, iouThreshold)[k] && b in ps
  {
    NmsSubMultiset(ps, iouThreshold);
    b := Nms(ps, iouThreshold)[k];
    assert b in multiset(Nms(ps, iouThreshold));
  }

  /** Every returned region lies inside the page and has a confidence
      strictly above the threshold. */
  lemma PostprocessInPage(output: seq<seq<real>>, lb: LetterboxParams, confThreshold: real, iouThreshold: real)
    requires WellShaped(output) && Decodable(lb)
    ensures forall r :: r in Postprocess(output, lb, confThreshold, iouThreshold) ==>
              confThreshold < r.confidence &&
              0.0 <= r.x1 <= lb.origWidth as real && 0.0 <= r.x2 <= lb.origWidth as real &&
              0.0 <= r.y1 <= lb.origHeight as real && 0.0 <= r.y2 <= lb.origHeight as real
  {
    PostprocessRegionsAreAnchors(output, lb, confThreshold, iouThreshold);
  }

  /** There are never more regions than anchors above the threshold. */
  lemma PostprocessCount(output: seq<seq<real>>, lb: LetterboxParams, confThreshold: real, iouThreshold: real)
    requires WellShaped(output) && Decodable(lb)
    ensures |Postprocess(output, lb, confThreshold, iouThreshold)| <= CountAbove(output[4], confThreshold, |output[0]|)
  {
    NmsSubMultiset(Proposals(output, lb, confThreshold, |output[0]|), iouThreshold);
  }

  // ---------------------------------------------------------------------
  // Worked examples of the output decoding

  /** A lone anchor at or below the confidence threshold yields no region. */
  lemma PostprocessFilterExample()
    ensures Postprocess([[320.0], [320.0], [100.0], [100.0], [0.3]],
                        LetterboxParams(640, 640, 1.0, 640, 640, 0, 0), ConfThreshold, IouThreshold) == []
  {
    var output, lb := [[320.0], [320.0], [100.0], [100.0], [0.3]], LetterboxParams(640, 640, 1.0, 640, 640, 0, 0);
    assert Proposals(output, lb, ConfThreshold, 1) == [];
    NmsEmpty(IouThreshold);
  }

  /** On a landscape page the top padding is removed and the scale undone. */
  lemma PostprocessCornerExample()
    ensures Postprocess([[200.0], [240.0], [100.0], [80.0], [0.9]],
                        LetterboxParams(1280, 720, 0.5, 640, 360, 0, 140), ConfThreshold, IouThreshold)
            == [TextRegion(300.0, 120.0, 500.0, 280.0, 0.9)]
  {
    var output, lb := [[200.0], [240.0], [100.0], [80.0], [0.9]], LetterboxParams(1280, 720, 0.5, 640, 360, 0, 140);
    var b := DecodeAnchor(output, lb, 0);
    assert b == Box(300.0, 120.0, 500.0, 280.0, 0.9);
    assert Proposals(output, lb, ConfThreshold, 1) == [b];
    NmsSingle(b, IouThreshold);
  }

  /** A box reaching past the top-left corner is clamped to the page. */
  lemma PostprocessClampExample()
    ensures Postprocess([[10.0], [10.0], [100.0], [100.0], [0.8]],
                        LetterboxParams(640, 640, 1.0, 640, 640, 0, 0), ConfThreshold, IouThreshold)
            == [TextRegion(0.0, 0.0, 60.0, 60.0, 0.8)]
  {
    var output, lb := [[10.0], [10.0], [100.0], [100.0], [0.8]], LetterboxParams(640, 640, 1.0, 640, 640, 0, 0);
    var b := DecodeAnchor(output, lb, 0);
    assert b == Box(0.0, 0.0, 60.0, 60.0, 0.8);
    assert Proposals(output, lb, ConfThreshold, 1) == [b];
    NmsSingle(b, IouThreshold);
  }

  /** A box lying wholly left of the page collapses to zero width and is
      still returned: nothing filters degenerate regions. */
  lemma PostprocessDegenerateExample()
    ensures Postprocess([[-100.0], [320.0], [50.0], [100.0], [0.9]],
                        LetterboxParams(640, 640, 1.0, 640, 640, 0, 0), ConfThreshold, IouThreshold)
            == [TextRegion(0.0, 270.0, 0.0, 370.0, 0.9)]
  {
    var output, lb := [[-100.0], [320.0], [50.0], [100.0], [0.9]], LetterboxParams(640, 640, 1.0, 640, 640, 0, 0);
    var b := DecodeAnchor(output, lb, 0);
    assert b == Box(0.0, 270.0, 0.0, 370.0, 0.9);
    assert Proposals(output, lb, ConfThreshold, 1) == [b];
    NmsSingle(b, IouThreshold);
  }

  /** Two heavily overlapping anchors leave only the more confident one. */
  lemma PostprocessNmsExample()
    ensures Postprocess([[320.0, 330.0], [320.0, 330.0], [200.0, 200.0], [200.0, 200.0], [0.9, 0.6]],
                        LetterboxParams(640, 640, 1.0, 640, 640, 0, 0), ConfThreshold, IouThreshold)
            == [TextRegion(220.0, 220.0, 420.0, 420.0, 0.9)]
  {
    var output := [[320.0, 330.0], [320.0, 330.0], [200.0, 200.0], [200.0, 200.0], [0.9, 0.6]];
    var lb := LetterboxParams(640, 640, 1.0, 640, 640, 0, 0);
    var p, q := DecodeAnchor(output, lb, 0), DecodeAnchor(output, lb, 1);
    assert p == Box(220.0, 220.0, 420.0, 420.0, 0.9);
    assert q == Box(230.0, 230.0, 430.0, 430.0, 0.6);
    assert Proposals(output, lb, ConfThreshold, 1) == [p];
    assert Proposals(output, lb, ConfThreshold, 2) == [p, q];
    NmsPair(p, q, IouThreshold);
    ShiftedSquaresOverlap();
  }

  /** The two anchors of the example above overlap with IoU 361/439. */
  lemma ShiftedSquaresOverlap()
    ensures IoU(Box(220.0, 220.0, 420.0, 420.0, 0.9), Box(230.0, 230.0, 430.0, 430.0, 0.6)) == 361.0 / 439.0
  {
    var p, q := Box(220.0, 220.0, 420.0, 420.0, 0.9), Box(230.0, 230.0, 430.0, 430.0, 0.6);
    assert IntersectionArea(p, q) == 36100.0;
  }
}
